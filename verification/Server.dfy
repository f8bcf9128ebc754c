/** The receive/execute/respond loop in main of apps/ycsbserver/leveldb.cc,
    over TCP and over UDP. */
module Server {

  import opened Wrappers

  import opened Bytes
  import opened Keys
  import opened Ops
  import opened Executor
  import opened Wire
  import opened Channel
  import opened Handler
  import opened Tcp
  import opened Udp

  // How the loop ends: a STOP, a response that could not be sent, or an
  // exception that nothing catches.
  datatype Outcome = Stopped | SendFailed | Crashed(error: Error)

  // The response sizes of packages that follow `history`; an exception
  // answers nothing.
  function Replies(history: seq<Package>, pkgs: seq<Package>): seq<u64> {
    if |pkgs| == 0 then []
    else
      var init := pkgs[..|pkgs| - 1];
      Replies(history, init) +
      match Response(history + init, pkgs[|pkgs| - 1])
      case Ok(size) => [size]
      case Err(_) => []
  }

  lemma NextReply(history: seq<Package>, pkgs: seq<Package>, n: nat)
    requires n < |pkgs|
    ensures Replies(history, pkgs[..n + 1]) ==
            Replies(history, pkgs[..n]) +
            match Response(history + pkgs[..n], pkgs[n])
            case Ok(size) => [size]
            case Err(_) => []
  {
    assert pkgs[..n + 1][..n] == pkgs[..n];
  }

  // The first n packages have been executed and the first m answered.
  ghost predicate Served(h: seq<Package>, pkgs: seq<Package>, n: nat, m: nat, history: seq<Package>, answers: bytes) {
    && n <= |pkgs| && m <= |pkgs|
    && history == h + pkgs[..n]
    && |Replies(h, pkgs[..m])| == m
    && answers == ResponseStream(Replies(h, pkgs[..m]))
  }

  // What the end of the loop says about the packages in the stream.
  ghost predicate Ended(o: Outcome, m: nat, h: seq<Package>, pkgs: seq<Package>, history: seq<Package>, answers: bytes) {
    match o
    case Stopped => m == |pkgs| && Served(h, pkgs, m, m, history, answers)
    case Crashed(e) =>
      m < |pkgs| && Served(h, pkgs, m + 1, m, history, answers) && Response(h + pkgs[..m], pkgs[m]) == Err(e)
    case SendFailed =>
      && m < |pkgs|
      && history == h + pkgs[..m + 1]
      && Between(ResponseStream(Replies(h, pkgs[..m])), answers, ResponseStream(Replies(h, pkgs[..m + 1])))
  }

  lemma NothingServed(h: seq<Package>, pkgs: seq<Package>)
    ensures Served(h, pkgs, 0, 0, h, [])
  {
    assert h + pkgs[..0] == h;
  }

  lemma AllServed(h: seq<Package>, pkgs: seq<Package>, n: nat, history: seq<Package>, answers: bytes)
    requires Served(h, pkgs, n, n, history, answers) && n == |pkgs|
    ensures Ended(Stopped, n, h, pkgs, history, answers)
  {
  }

  lemma Executed(h: seq<Package>, pkgs: seq<Package>, n: nat, history: seq<Package>, answers: bytes)
    requires Served(h, pkgs, n, n, history, answers) && n < |pkgs|
    ensures Served(h, pkgs, n + 1, n, history + [pkgs[n]], answers)
    ensures history == h + pkgs[..n]
  {
    hide Replies, ResponseStream;
    assert pkgs[..n + 1] == pkgs[..n] + [pkgs[n]];
    assert (h + pkgs[..n]) + [pkgs[n]] == h + (pkgs[..n] + [pkgs[n]]);
  }

  lemma Answered(h: seq<Package>, pkgs: seq<Package>, n: nat, history: seq<Package>, answers: bytes, size: u64)
    requires Served(h, pkgs, n + 1, n, history, answers) && n < |pkgs|
    requires Response(h + pkgs[..n], pkgs[n]) == Ok(size)
    ensures Served(h, pkgs, n + 1, n + 1, history, answers + ResponseBytes(size))
  {
    NextReply(h, pkgs, n);
    StreamSnoc(Replies(h, pkgs[..n]), size);
  }

  lemma NotAnswered(h: seq<Package>, pkgs: seq<Package>, n: nat, history: seq<Package>, answers: bytes, size: u64, part: bytes)
    requires Served(h, pkgs, n + 1, n, history, answers) && n < |pkgs|
    requires Response(h + pkgs[..n], pkgs[n]) == Ok(size)
    requires Between(answers, part, answers + ResponseBytes(size))
    ensures Ended(SendFailed, n, h, pkgs, history, part)
  {
    Answered(h, pkgs, n, history, answers, size);
  }

  lemma BetweenAfter(out: bytes, answers: bytes, stream: bytes, more: bytes)
    requires Between(out + answers, stream, (out + answers) + more)
    ensures out <= stream && Between(answers, stream[|out|..], answers + more)
  {
    assert (out + answers) + more == out + (answers + more);
    assert (out + answers)[|out|..] == answers && (out + (answers + more))[|out|..] == answers + more;
  }

  // A session that ran to its end answers every package once and in order: a
  // client that reads a size and skips as many bytes sees those sizes.
  lemma ClientSees(m: nat, h: seq<Package>, pkgs: seq<Package>, history: seq<Package>, answers: bytes)
    requires Ended(Stopped, m, h, pkgs, history, answers)
    ensures |ReadSizes(answers)| == |pkgs|
    ensures forall i :: 0 <= i < |pkgs| ==> Response(h + pkgs[..i], pkgs[i]) == Ok(ReadSizes(answers)[i])
  {
    assert pkgs[..m] == pkgs;
    ResponsesDelimited(Replies(h, pkgs));
    forall i | 0 <= i < |pkgs| ensures Response(h + pkgs[..i], pkgs[i]) == Ok(Replies(h, pkgs)[i]) {
      ReplyAt(h, pkgs, i);
    }
  }

  lemma {:induction false} ReplyAt(h: seq<Package>, pkgs: seq<Package>, i: nat)
    requires i < |pkgs| == |Replies(h, pkgs)|
    ensures Response(h + pkgs[..i], pkgs[i]) == Ok(Replies(h, pkgs)[i])
  {
    var n := |pkgs| - 1;
    ReplyCount(h, pkgs[..n]);
    if i == n {
    } else {
      ReplyAt(h, pkgs[..n], i);
      assert pkgs[..n][..i] == pkgs[..i];
    }
  }

  lemma {:induction false} ReplyCount(h: seq<Package>, pkgs: seq<Package>)
    ensures |Replies(h, pkgs)| <= |pkgs|
  {
    if |pkgs| == 0 {
    } else {
      ReplyCount(h, pkgs[..|pkgs| - 1]);
    }
  }

  // Execute and respond, the second half of the loop's body: goes on with the
  // next package, or ends the loop.
  method ExecuteAndRespond(conn: Connection, exec: LevelDBExecutor, pkg: Package,
                           ghost h: seq<Package>, ghost pkgs: seq<Package>, ghost n: nat, ghost out: bytes)
    returns (end: Option<Outcome>)
    requires exec.Valid() && n < |pkgs| && pkg == pkgs[n] && out <= conn.output
    requires Served(h, pkgs, n, n, exec.history, conn.output[|out|..])
    modifies exec, conn`output, conn`writes
    ensures exec.Valid() && out <= conn.output
    ensures end == None ==> Served(h, pkgs, n + 1, n + 1, exec.history, conn.output[|out|..])
    ensures end.Some? ==> Ended(end.value, n, h, pkgs, exec.history, conn.output[|out|..])
  {
    hide Served, Response, ResponseStream, ResponseBytes, Between;
    ghost var answers := conn.output[|out|..];
    assert conn.output == out + answers;
    Executed(h, pkgs, n, exec.history, answers);
    var response := exec.Execute(pkg);
    if response.Err? {
      return Some(Crashed(response.error));
    }
    var ok := Respond(conn, response.value);
    if !ok {
      BetweenAfter(out, answers, conn.output, ResponseBytes(response.value));
      NotAnswered(h, pkgs, n, exec.history, answers, response.value, conn.output[|out|..]);
      return Some(SendFailed);
    }
    Answered(h, pkgs, n, exec.history, answers, response.value);
    assert conn.output == out + (answers + ResponseBytes(response.value));
    return None;
  }

  // Whatever the sizes of the reads are, the packages decoded from the stream
  // are executed in order and answered in order. The loop ends after the last
  // one, or at the first one whose execution throws or whose answer cannot be
  // sent; `opcounter` counts the answered ones.
  method Serve(hdl: TcpHandler, exec: LevelDBExecutor) returns (outcome: Outcome, opcounter: nat)
    requires hdl.buffer.Length == Tcp.CAPACITY && Session(hdl.conn.input) && exec.Valid()
    modifies hdl.conn, hdl.buffer, exec
    ensures exec.Valid() && old(hdl.conn.output) <= hdl.conn.output
    ensures Ended(outcome, opcounter, old(exec.history), Decode(old(hdl.conn.input), old(hdl.buffer[..])),
                  exec.history, hdl.conn.output[|old(hdl.conn.output)|..])
  {
    hide Decode, Served, Session;
    opcounter := 0;
    ghost var pkgs, h, out := Decode(hdl.conn.input, hdl.buffer[..]), exec.history, hdl.conn.output;
    NothingServed(h, pkgs);
    assert out[|out|..] == [];
    while true
      invariant exec.Valid() && Session(hdl.conn.input) && out <= hdl.conn.output
      invariant opcounter <= |pkgs| && pkgs[opcounter..] == Decode(hdl.conn.input, hdl.buffer[..])
      invariant Served(h, pkgs, opcounter, opcounter, exec.history, hdl.conn.output[|out|..])
      decreases |hdl.conn.input|
    {
      DecodeStep(hdl.conn.input, hdl.buffer[..]);
      var received := hdl.Receive();
      match received {
        case Stop =>
          return Stopped, opcounter;
        case Incomplete =>
          continue;
        case Ready(pkg) =>
          assert pkg == pkgs[opcounter..][0] == pkgs[opcounter];
          assert pkgs[opcounter + 1..] == pkgs[opcounter..][1..];
          var end := ExecuteAndRespond(hdl.conn, exec, pkg, h, pkgs, opcounter, out);
          if end.Some? {
            return end.value, opcounter;
          }
          opcounter := opcounter + 1;
      }
    }
  }

  // A whole session with a client: its packages, encoded, framed and ended by
  // the end mark or a bad length, are what the server executes and answers.
  method ServeClient(hdl: TcpHandler, exec: LevelDBExecutor, ghost pkgs: seq<Package>, ghost tail: bytes)
    returns (outcome: Outcome, opcounter: nat)
    requires Sendable(pkgs) && Ends(tail) && hdl.conn.input == ClientStream(EncodeAll(pkgs), tail)
    requires hdl.buffer.Length == Tcp.CAPACITY && exec.Valid()
    modifies hdl.conn, hdl.buffer, exec
    ensures exec.Valid() && old(hdl.conn.output) <= hdl.conn.output
    ensures Ended(outcome, opcounter, old(exec.history), pkgs,
                  exec.history, hdl.conn.output[|old(hdl.conn.output)|..])
  {
    ClientToServer(pkgs, tail, hdl.buffer[..]);
    outcome, opcounter := Serve(hdl, exec);
  }

  lemma DecodeStep(input: bytes, buffer: bytes)
    requires Session(input) && |buffer| == Tcp.CAPACITY
    ensures HasFrame(input)
    ensures var (received, b) := Next(input, buffer);
            match received
            case Stop => Decode(input, buffer) == []
            case Incomplete => Session(After(input)) && Decode(input, buffer) == Decode(After(input), b)
            case Ready(pkg) => Session(After(input)) && Decode(input, buffer) == [pkg] + Decode(After(input), b)
  {
  }

  // The same loop over UDP, after its reset: exactly the first total_ops
  // packages that the file delivers, wherever the cursor was before.
  method Replay(hdl: UdpHandler, conn: Connection, exec: LevelDBExecutor, ghost file: bytes)
    returns (outcome: Outcome, opcounter: nat)
    requires hdl.Holds(file) && Enough(file, hdl.totalOps) && exec.Valid()
    modifies hdl`pos, hdl`ops, conn, exec
    ensures exec.Valid() && old(conn.output) <= conn.output && conn.input == old(conn.input)
    ensures Ended(outcome, opcounter, old(exec.history), Delivered(file, hdl.totalOps),
                  exec.history, conn.output[|old(conn.output)|..])
  {
    hide UdpHandler.Holds, UdpHandler.Replaying, Enough, PackageAt, Served, Ended;
    hdl.Reset();
    opcounter := 0;
    ghost var pkgs, h, out := Delivered(file, hdl.totalOps), exec.history, conn.output;
    NothingServed(h, pkgs);
    assert out[|out|..] == [];
    while true
      invariant exec.Valid() && hdl.Replaying(file) && opcounter == hdl.ops <= hdl.totalOps
      invariant out <= conn.output && conn.input == old(conn.input)
      invariant Served(h, pkgs, opcounter, opcounter, exec.history, conn.output[|out|..])
      decreases hdl.totalOps - hdl.ops
    {
      var received := hdl.ReceiveNext(file);
      match received {
        case Stop =>
          AllServed(h, pkgs, opcounter, exec.history, conn.output[|out|..]);
          return Stopped, opcounter;
        case Ready(pkg) =>
          var end := ExecuteAndRespond(conn, exec, pkg, h, pkgs, opcounter, out);
          if end.Some? {
            return end.value, opcounter;
          }
          opcounter := opcounter + 1;
      }
    }
  }
}
