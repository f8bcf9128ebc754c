/** TCPOpHandler of apps/ycsbserver/tcp_handler.cc: frames of a four-byte
    big-endian length and that many bytes, reassembled from short reads. */
module Tcp {

  import opened Bytes
  import opened Ops
  import opened Wire
  import opened Channel
  import opened Handler

  // sizeof(package_buffer)
  const CAPACITY := 8192
  // "ENDNOW"
  const ENDNOW: bytes := [69, 78, 68, 78, 79, 87]

  function FrameSize(input: bytes): (n: nat)
    requires |input| >= 4
    ensures n == Word32(input[0], input[1], input[2], input[3])
  {
    FourBytes(input[..4]);
    BigEndianValue(input[..4])
  }

  // The bytes that the next call of receive waits for are on their way.
  predicate HasFrame(input: bytes) {
    |input| >= 4 && (FrameSize(input) <= CAPACITY ==> |input| >= 4 + FrameSize(input))
  }

  function Frame(input: bytes): bytes
    requires HasFrame(input) && FrameSize(input) <= CAPACITY
  {
    input[4..4 + FrameSize(input)]
  }

  function After(input: bytes): (rest: bytes)
    requires HasFrame(input)
    ensures |rest| < |input|
  {
    if FrameSize(input) <= CAPACITY then input[4 + FrameSize(input)..] else input[4..]
  }

  // The buffer keeps its old contents behind a shorter frame.
  function Load(buffer: bytes, frame: bytes): (b: bytes)
    requires |frame| <= |buffer|
    ensures |b| == |buffer|
  {
    frame + buffer[|frame|..]
  }

  // The verdict on a frame of the given size in the buffer.
  function Judge(buffer: bytes, size: nat): Received
    requires |buffer| == CAPACITY && size <= CAPACITY
  {
    if buffer[..size] == ENDNOW then Stop
    else
      var r := Parse(buffer, size);
      if r.pos == 0 then Incomplete else Ready(r.pkg)
  }

  // What receive returns for the next frame, and the buffer it leaves.
  function Next(input: bytes, buffer: bytes): (r: (Received, bytes))
    requires HasFrame(input) && |buffer| == CAPACITY
    ensures |r.1| == CAPACITY
  {
    if FrameSize(input) > CAPACITY then (Stop, buffer)
    else
      var b := Load(buffer, Frame(input));
      (Judge(b, FrameSize(input)), b)
  }

  class TcpHandler {
    const conn: Connection
    const buffer: array<byte>

    constructor (conn: Connection)
      ensures this.conn == conn && fresh(buffer)
      ensures buffer.Length == CAPACITY && buffer[..] == Zeros(CAPACITY)
    {
      this.conn := conn;
      buffer := new byte[CAPACITY](_ => 0);
    }

    // The reading loop of receive, used for header and package.
    method Fill(a: array<byte>, n: nat)
      requires n <= a.Length && n <= |conn.input|
      modifies a, conn`input
      ensures a[..n] == old(conn.input[..n]) && a[n..] == old(a[n..])
      ensures conn.input == old(conn.input[n..])
    {
      ghost var start, keep := conn.input, a[..];
      var i := 0;
      while i < n
        invariant i <= n
        invariant a[..i] == start[..i] && a[i..] == keep[i..]
        invariant conn.input == start[i..]
      {
        var data := conn.Read(n - i);
        CopyIn(a, i, data);
        assert start[i..][..|data|] == data;
        assert start[..i] + data == start[..i + |data|];
        i := i + |data|;
      }
    }

    method CopyIn(a: array<byte>, i: nat, data: bytes)
      requires i + |data| <= a.Length
      modifies a
      ensures a[..i + |data|] == old(a[..i]) + data
      ensures a[i + |data|..] == old(a[i + |data|..])
    {
      forall k | 0 <= k < |data| {
        a[i + k] := data[k];
      }
    }

    method Receive() returns (r: Received)
      requires buffer.Length == CAPACITY && HasFrame(conn.input)
      modifies conn`input, buffer
      ensures conn.input == After(old(conn.input))
      ensures (r, buffer[..]) == Next(old(conn.input), old(buffer[..]))
      ensures r == Stop <==> 8192 < FrameSize(old(conn.input)) || Frame(old(conn.input)) == [69, 78, 68, 78, 79, 87]
      ensures 8192 < FrameSize(old(conn.input)) ==> buffer[..] == old(buffer[..])
      ensures FrameSize(old(conn.input)) <= 8192 ==>
                && buffer[..] == Frame(old(conn.input)) + old(buffer[|Frame(conn.input)|..])
                && (r == Incomplete ==> Parse(buffer[..], FrameSize(old(conn.input))).pos == 0)
                && (r.Ready? ==> Parse(buffer[..], FrameSize(old(conn.input))).pos > 0 &&
                                 Parse(buffer[..], FrameSize(old(conn.input))).pkg == r.pkg)
    {
      ghost var input := conn.input;
      var header := new byte[4];
      Fill(header, 4);
      assert header[..] == header[..4] == input[..4];
      var size := BigEndianValue(header[..]);
      if size > CAPACITY {
        return Stop;
      }
      assert input[4..][..size] == Frame(input) && input[4..][size..] == After(input);
      Fill(buffer, size);
      assert buffer[..] == buffer[..size] + buffer[size..];
      if size == 6 && buffer[..6] == ENDNOW {
        return Stop;
      }
      var pos, pkg := FromBytes(buffer[..], size);
      if pos == 0 {
        return Incomplete;
      }
      return Ready(pkg);
    }
  }

  // ----- whole sessions

  // Complete frames up to one that makes receive return STOP.
  predicate Session(input: bytes)
    decreases |input|
  {
    HasFrame(input) &&
    (FrameSize(input) > CAPACITY || Frame(input) == ENDNOW || Session(After(input)))
  }

  // The packages in the stream, decoded frame by frame.
  function Decode(input: bytes, buffer: bytes): seq<Package>
    requires Session(input) && |buffer| == CAPACITY
    decreases |input|
  {
    var (received, b) := Next(input, buffer);
    match received
    case Stop => []
    case Incomplete => Decode(After(input), b)
    case Ready(pkg) => [pkg] + Decode(After(input), b)
  }

  function Framed(frame: bytes): bytes
    requires |frame| <= CAPACITY
  {
    BigEndian(|frame|, 4) + frame
  }

  predicate FullSized(frames: seq<bytes>) {
    forall i :: 0 <= i < |frames| ==> HEADER <= |frames[i]| <= CAPACITY
  }

  // What ends a session: the end mark, or a length that is too large, and
  // anything after it.
  predicate Ends(tail: bytes) {
    Framed(ENDNOW) <= tail || (|tail| >= 4 && FrameSize(tail) > CAPACITY)
  }

  // A client's stream: its frames, and what ends it.
  function ClientStream(frames: seq<bytes>, tail: bytes): bytes
    requires FullSized(frames)
  {
    if frames == [] then tail else Framed(frames[0]) + ClientStream(frames[1..], tail)
  }

  // The packages of the frames that hold one.
  function Packages(frames: seq<bytes>): seq<Package>
    requires FullSized(frames)
  {
    if frames == [] then []
    else
      var r := Parse(frames[0], |frames[0]|);
      (if r.pos == 0 then [] else [r.pkg]) + Packages(frames[1..])
  }

  lemma FrameAtFront(frame: bytes, rest: bytes)
    requires |frame| <= CAPACITY
    ensures var s := Framed(frame) + rest;
            HasFrame(s) && FrameSize(s) == |frame| && Frame(s) == frame && After(s) == rest
  {
    var s := Framed(frame) + rest;
    Pow256Values();
    ValueOfBigEndian(|frame|, 4);
    assert s[..4] == BigEndian(|frame|, 4);
  }

  lemma JudgeFrame(buffer: bytes, frame: bytes)
    requires |buffer| == CAPACITY && HEADER <= |frame| <= CAPACITY
    ensures var r := Parse(frame, |frame|);
            Judge(Load(buffer, frame), |frame|) == if r.pos == 0 then Incomplete else Ready(r.pkg)
  {
    var b := Load(buffer, frame);
    assert b[..|frame|] == frame == frame[..|frame|];
    ParseLocal(b, frame, |frame|);
  }

  // Rejected frames are skipped without losing sync, and what the buffer held
  // before plays no role: a client's stream decodes to the packages of its
  // frames, in order.
  lemma {:induction false} SessionDecodes(frames: seq<bytes>, tail: bytes, buffer: bytes)
    requires FullSized(frames) && Ends(tail) && |buffer| == CAPACITY
    ensures Session(ClientStream(frames, tail))
    ensures Decode(ClientStream(frames, tail), buffer) == Packages(frames)
    decreases |frames|
  {
    if frames == [] {
      if Framed(ENDNOW) <= tail {
        FrameAtFront(ENDNOW, tail[|Framed(ENDNOW)|..]);
        assert tail == Framed(ENDNOW) + tail[|Framed(ENDNOW)|..];
      }
    } else {
      var rest := ClientStream(frames[1..], tail);
      FrameAtFront(frames[0], rest);
      JudgeFrame(buffer, frames[0]);
      SessionDecodes(frames[1..], tail, Load(buffer, frames[0]));
    }
  }

  // A package that the client may send fits into the server's buffer.
  predicate Sendable(pkgs: seq<Package>) {
    forall i :: 0 <= i < |pkgs| ==> WellFormed(pkgs[i]) && |Encode(pkgs[i])| <= CAPACITY
  }

  function EncodeAll(pkgs: seq<Package>): (frames: seq<bytes>)
    requires Sendable(pkgs)
    ensures FullSized(frames)
  {
    if pkgs == [] then []
    else
      assert Sendable(pkgs[1..]);
      [Encode(pkgs[0])] + EncodeAll(pkgs[1..])
  }

  lemma {:induction false} PackagesOfEncoded(pkgs: seq<Package>)
    requires Sendable(pkgs)
    ensures Packages(EncodeAll(pkgs)) == pkgs
    decreases |pkgs|
  {
    if pkgs == [] {
    } else {
      var e := Encode(pkgs[0]);
      ParseEncoded(pkgs[0], e, |e|);
      assert Sendable(pkgs[1..]);
      PackagesOfEncoded(pkgs[1..]);
      hide Encode, Parse, WellFormed;
      assert EncodeAll(pkgs) == [e] + EncodeAll(pkgs[1..]);
      assert EncodeAll(pkgs)[1..] == EncodeAll(pkgs[1..]);
      assert pkgs == [pkgs[0]] + pkgs[1..];
    }
  }

  // From the client's packages through any segmentation of the stream to the
  // packages the server decodes: nothing lost, added or reordered.
  lemma ClientToServer(pkgs: seq<Package>, tail: bytes, buffer: bytes)
    requires Sendable(pkgs) && Ends(tail) && |buffer| == CAPACITY
    ensures Session(ClientStream(EncodeAll(pkgs), tail))
    ensures Decode(ClientStream(EncodeAll(pkgs), tail), buffer) == pkgs
  {
    SessionDecodes(EncodeAll(pkgs), tail, buffer);
    PackagesOfEncoded(pkgs);
  }
}
