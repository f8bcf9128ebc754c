/** UDPOpHandler of apps/ycsbserver/udp_handler.cc: packages are replayed from
    a workload file that is loaded once. The file is a header of two four-byte
    big-endian counts, of which the second one is the number of operations,
    followed by packages. */
module Udp {

  import opened Bytes
  import opened Ops
  import opened Wire
  import opened Channel
  import opened Handler

  // MAX_FILE_SIZE
  const CAPACITY := 4 * 1024 * 1024
  // where the first package starts
  const FIRST := 8

  predicate AllWellFormed(pkgs: seq<Package>) {
    forall i :: 0 <= i < |pkgs| ==> WellFormed(pkgs[i])
  }

  function Body(pkgs: seq<Package>): bytes
    requires AllWellFormed(pkgs)
  {
    if |pkgs| == 0 then [] else Body(pkgs[..|pkgs| - 1]) + Encode(pkgs[|pkgs| - 1])
  }

  // A file with the given packages and at most as many operations.
  ghost predicate Workload(file: bytes, pkgs: seq<Package>) {
    && AllWellFormed(pkgs)
    && FIRST <= |file| <= CAPACITY
    && BigEndianValue(file[4..8]) <= |pkgs|
    && Body(pkgs) <= file[FIRST..]
  }

  // The next package starts right after the first k.
  lemma {:induction false} BodyAt(pkgs: seq<Package>, k: nat, body: bytes)
    requires AllWellFormed(pkgs) && k < |pkgs| && Body(pkgs) <= body
    ensures |Body(pkgs[..k])| + |Encode(pkgs[k])| == |Body(pkgs[..k + 1])| <= |body|
    ensures Encode(pkgs[k]) <= body[|Body(pkgs[..k])|..]
  {
    var n := |pkgs| - 1;
    if k < n {
      assert pkgs[..n][..k] == pkgs[..k] && pkgs[..n][..k + 1] == pkgs[..k + 1];
      BodyAt(pkgs[..n], k, body);
    } else {
      assert pkgs[..k + 1] == pkgs;
      var start := Body(pkgs[..k]);
      assert body[..|Body(pkgs)|][|start|..] == Encode(pkgs[k]);
    }
  }

  // ----- what any file delivers

  // Where the k-th receive finds the cursor: a package that does not parse
  // does not move it.
  function Cursor(file: bytes, k: nat): (c: nat)
    ensures FIRST <= |file| ==> FIRST <= c <= |file|
  {
    if k == 0 then FIRST
    else
      var c := Cursor(file, k - 1);
      if c + HEADER <= |file| then c + Parse(file[c..], |file| - c).pos else c
  }

  // No package header of the first n lies behind the end of the file.
  predicate Enough(file: bytes, n: nat) {
    forall k :: 0 <= k < n ==> Cursor(file, k) + HEADER <= |file|
  }

  function PackageAt(file: bytes, k: nat): Package
    requires Cursor(file, k) + HEADER <= |file|
  {
    Parse(file[Cursor(file, k)..], |file| - Cursor(file, k)).pkg
  }

  function Delivered(file: bytes, n: nat): (pkgs: seq<Package>)
    requires Enough(file, n)
    ensures |pkgs| == n && forall k :: 0 <= k < n ==> pkgs[k] == PackageAt(file, k)
  {
    if n == 0 then [] else Delivered(file, n - 1) + [PackageAt(file, n - 1)]
  }

  lemma CursorNext(file: bytes, k: nat)
    requires Cursor(file, k) + HEADER <= |file|
    ensures var c := Cursor(file, k); Cursor(file, k + 1) == c + Parse(file[c..], |file| - c).pos
  {
  }

  lemma PackageNext(file: bytes, pkgs: seq<Package>, k: nat, c: nat)
    requires Workload(file, pkgs) && k < |pkgs| && c == FIRST + |Body(pkgs[..k])|
    ensures c + |Encode(pkgs[k])| == FIRST + |Body(pkgs[..k + 1])| && c + HEADER <= |file|
    ensures Parse(file[c..], |file| - c) == Parsed(|Encode(pkgs[k])|, pkgs[k])
  {
    BodyAt(pkgs, k, file[FIRST..]);
    assert file[FIRST..][|Body(pkgs[..k])|..] == file[c..];
    hide Body, Parse, Encode;
    ParseEncoded(pkgs[k], file[c..], |file| - c);
  }

  // After n packages of a proper workload, the cursor stands behind them.
  lemma {:induction false} WorkloadCursor(file: bytes, pkgs: seq<Package>, n: nat)
    requires Workload(file, pkgs) && n <= |pkgs|
    ensures Cursor(file, n) == FIRST + |Body(pkgs[..n])|
    ensures Enough(file, n)
  {
    hide Parse, Encode;
    if n == 0 {
      assert pkgs[..0] == [];
    } else {
      WorkloadCursor(file, pkgs, n - 1);
      PackageNext(file, pkgs, n - 1, Cursor(file, n - 1));
      hide Cursor, Body;
      CursorNext(file, n - 1);
    }
  }

  // A proper workload delivers its packages in order.
  lemma WorkloadDelivered(file: bytes, pkgs: seq<Package>, n: nat)
    requires Workload(file, pkgs) && n <= |pkgs|
    ensures Enough(file, n) && Delivered(file, n) == pkgs[..n]
  {
    WorkloadCursor(file, pkgs, n);
    hide Workload, Cursor, PackageAt;
    forall k | 0 <= k < n ensures PackageAt(file, k) == pkgs[k] {
      WorkloadPackage(file, pkgs, k);
    }
  }

  lemma CursorPackage(file: bytes, pkgs: seq<Package>, k: nat, c: nat)
    requires Workload(file, pkgs) && k < |pkgs|
    requires c == Cursor(file, k) == FIRST + |Body(pkgs[..k])|
    ensures c + HEADER <= |file| && PackageAt(file, k) == pkgs[k]
  {
    hide Parse, Encode, Cursor, Body, Workload, AllWellFormed, WellFormed;
    PackageNext(file, pkgs, k, c);
  }

  lemma WorkloadPackage(file: bytes, pkgs: seq<Package>, k: nat)
    requires Workload(file, pkgs) && k < |pkgs|
    ensures Cursor(file, k) + HEADER <= |file| && PackageAt(file, k) == pkgs[k]
  {
    hide *;
    WorkloadCursor(file, pkgs, k);
    CursorPackage(file, pkgs, k, Cursor(file, k));
  }

  // A package that does not parse is delivered over and over.
  lemma {:induction false} StuckForever(file: bytes, k: nat, j: nat)
    requires k <= j && Enough(file, j + 1)
    requires Parse(file[Cursor(file, k)..], |file| - Cursor(file, k)).pos == 0
    ensures Cursor(file, j) == Cursor(file, k) && PackageAt(file, j) == PackageAt(file, k)
    decreases j
  {
    hide Parse, Cursor;
    if k == j {
    } else {
      assert Cursor(file, j - 1) + HEADER <= |file|;
      StuckForever(file, k, j - 1);
      CursorNext(file, j - 1);
    }
  }

  class UdpHandler {
    // wl_buffer, wl_pos and wl_size, which are static in the original
    const buffer: array<byte>
    var pos: nat
    var size: nat
    var ops: nat
    var totalOps: nat

    ghost predicate Holds(file: bytes)
      reads this, buffer
    {
      buffer.Length == CAPACITY && size == |file| && FIRST <= size <= CAPACITY && buffer[..size] == file
    }

    // The handler has replayed the first `ops` packages since the last reset.
    ghost predicate Replaying(file: bytes)
      reads this, buffer
    {
      Holds(file) && Enough(file, totalOps) && ops <= totalOps && pos == Cursor(file, ops)
    }

    // The file arrives in reads of any size; of a longer one, only the first
    // 4 MiB are kept.
    constructor (file: Connection)
      requires FIRST <= |file.input|
      modifies file`input
      ensures fresh(buffer)
      ensures var kept := if |old(file.input)| <= CAPACITY then old(file.input) else old(file.input)[..CAPACITY];
              Holds(kept) && totalOps == BigEndianValue(kept[4..8]) && pos == FIRST && ops == 0
    {
      buffer := new byte[CAPACITY](_ => 0);
      pos, size, ops, totalOps := 0, 0, 0, 0;
      new;
      LoadFile(file);
      var _ := ReadWord();  // total_preins
      totalOps := ReadWord();
      assert buffer[4..8] == buffer[..size][4..8];
    }

    // The reading loop of the constructor.
    method LoadFile(file: Connection)
      requires buffer.Length == CAPACITY && size == 0
      modifies file`input, this`size, buffer
      ensures var start := old(file.input);
              size == (if |start| <= CAPACITY then |start| else CAPACITY) && buffer[..size] == start[..size]
    {
      ghost var start := file.input;
      ghost var kept: nat := if |start| <= CAPACITY then |start| else CAPACITY;
      var len := LoadSome(file);
      while len > 0
        invariant size <= kept && buffer[..size] == start[..size] && file.input == start[size..]
        invariant len == 0 ==> size == kept
        decreases kept - size + len
      {
        len := LoadSome(file);
      }
    }

    // read(fd, wl_buffer + wl_size, MAX_FILE_SIZE - wl_size), and its result
    // added to wl_size.
    method LoadSome(file: Connection) returns (len: nat)
      requires buffer.Length == CAPACITY && size <= CAPACITY
      modifies file`input, this`size, buffer
      ensures size == old(size) + len <= CAPACITY
      ensures len <= |old(file.input)| && file.input == old(file.input)[len..]
      ensures buffer[..size] == old(buffer[..size]) + old(file.input)[..len]
      ensures len == 0 ==> old(size) == CAPACITY || old(file.input) == []
    {
      ghost var input := file.input;
      var data := file.Read(CAPACITY - size);
      forall k | 0 <= k < |data| {
        buffer[size + k] := data[k];
      }
      size := size + |data|;
      assert input[..|data|] == data;
      return |data|;
    }

    // wl_read4b
    method ReadWord() returns (w: nat)
      requires pos + 4 <= buffer.Length
      modifies this`pos
      ensures w == BigEndianValue(buffer[old(pos)..old(pos) + 4]) && pos == old(pos) + 4
    {
      w := BigEndianValue(buffer[pos..pos + 4]);
      pos := pos + 4;
    }

    method Reset()
      modifies this`pos, this`ops
      ensures pos == FIRST && ops == 0
      ensures forall file :: old(Holds(file)) && Enough(file, totalOps) ==> Replaying(file)
    {
      pos, ops := FIRST, 0;
    }

    // A package that does not parse leaves the cursor where it is and is
    // returned, cut short, like any other.
    method Receive() returns (r: Received)
      requires ops < totalOps ==> pos <= size <= buffer.Length && pos + HEADER <= buffer.Length
      modifies this`pos, this`ops
      ensures old(ops) >= totalOps ==> r == Stop && pos == old(pos) && ops == old(ops)
      ensures old(ops) < totalOps ==>
                && ops == old(ops) + 1
                && var p := Parse(buffer[old(pos)..], size - old(pos));
                   r == Ready(p.pkg) && pos == old(pos) + p.pos
    {
      if ops >= totalOps {
        return Stop;
      }
      var readSize, pkg := FromBytes(buffer[pos..], size - pos);
      pos := pos + readSize;
      ops := ops + 1;
      return Ready(pkg);
    }

    // The k-th receive since the last reset returns the k-th package of the
    // file, total_ops of them, and then STOP for ever.
    method ReceiveNext(ghost file: bytes) returns (r: Received)
      requires Replaying(file)
      modifies this`pos, this`ops
      ensures Replaying(file) && ops <= totalOps
      ensures old(ops) < totalOps ==> r == Ready(PackageAt(file, old(ops))) && ops == old(ops) + 1
      ensures old(ops) >= totalOps ==> r == Stop && ops == old(ops)
    {
      if ops < totalOps {
        FileOnly(file);
      }
      hide Parse;
      r := Receive();
    }

    // What is left in the buffer behind the file plays no role.
    lemma FileOnly(file: bytes)
      requires Holds(file) && pos + HEADER <= size
      ensures Parse(buffer[pos..], size - pos) == Parse(file[pos..], |file| - pos)
    {
      hide Parse;
      assert buffer[pos..][..size - pos] == buffer[..size][pos..] == file[pos..];
      assert file[pos..][..size - pos] == file[pos..];
      ParseLocal(buffer[pos..], file[pos..], size - pos);
    }
  }
}
