/** The ping-pong benchmark of apps/pingpong/pingpong.c: any number of
    parent/child pairs on one System V message queue.

    The queue's key does not depend on the pair, so a message sent by one
    pair may be received by another. A process is modelled by its position in
    its two nested loops; one step is one message-queue call, or the parent's
    final waitpid. Steps of different processes interleave freely. */
module PingPong {

  const WARMUP := 100
  const COUNT := 1000
  const ROUNDS := WARMUP + COUNT

  // CLIENT_MESSAGE is what children send, SERVER_MESSAGE what parents send.
  datatype MsgType = Client | Server

  // Loop counters of one process; `mid` holds between the first and the
  // second queue call of an iteration.
  datatype Pos = Pos(runs: int, x: nat, i: nat, mid: bool) {
    predicate LoopsDone() {
      x >= runs
    }

    predicate Ok() {
      i < ROUNDS && (LoopsDone() ==> i == 0 && !mid)
    }

    function Advance(): Pos {
      if i + 1 < ROUNDS then this.(i := i + 1, mid := false)
      else this.(x := x + 1, i := 0, mid := false)
    }
  }

  // How a parent stands: still in its loops or in waitpid, returned from
  // waitpid, or ended by the exit(1) that follows a refused send.
  datatype End = Running | Reaped | Failed

  datatype State = State(parents: seq<Pos>, ends: seq<End>, children: seq<Pos>, queue: seq<MsgType>) {
    predicate Shape() {
      |parents| == |ends| == |children|
    }

    predicate AllDone() {
      && Shape()
      && (forall k :: 0 <= k < |ends| ==> ends[k] == Reaped)
      && (forall k :: 0 <= k < |children| ==> children[k].LoopsDone())
    }

    predicate SendRefused() {
      exists k :: 0 <= k < |ends| && ends[k] == Failed
    }
  }

  datatype Action = ByParent(k: nat) | ByChild(k: nat)

  // msgrcv with a positive type takes the first message of that type.
  function Receive(q: seq<MsgType>, t: MsgType): (r: seq<MsgType>)
    requires t in q
    ensures |r| == |q| - 1
  {
    if q[0] == t then q[1..] else [q[0]] + Receive(q[1..], t)
  }

  // ... and leaves all others in their order.
  lemma {:induction false} ReceiveFirst(q: seq<MsgType>, t: MsgType, i: nat)
    requires i < |q| && q[i] == t && t !in q[..i]
    ensures Receive(q, t) == q[..i] + q[i + 1..]
  {
    if i == 0 {
      assert q[..0] == [];
    } else {
      var rest := q[1..];
      assert q[0] in q[..i] && rest[..i - 1] == q[1..i];
      ReceiveFirst(rest, t, i - 1);
      assert q[..i] == [q[0]] + rest[..i - 1];
    }
  }

  // q' is q without its first message of type t.
  ghost predicate Received(q: seq<MsgType>, t: MsgType, q': seq<MsgType>) {
    exists i :: 0 <= i < |q| && q[i] == t && t !in q[..i] && q' == q[..i] + q[i + 1..]
  }

  lemma ReceiveIs(q: seq<MsgType>, t: MsgType)
    requires t in q
    ensures Received(q, t, Receive(q, t))
  {
    var i := FirstIndex(q, t);
    ReceiveFirst(q, t, i);
  }

  lemma {:induction false} FirstIndex(q: seq<MsgType>, t: MsgType) returns (i: nat)
    requires t in q
    ensures i < |q| && q[i] == t && t !in q[..i]
  {
    if q[0] == t {
      i := 0;
    } else {
      var j := FirstIndex(q[1..], t);
      i := j + 1;
      assert q[..i] == [q[0]] + q[1..][..j];
    }
  }

  lemma {:induction false} ReceiveCounts(q: seq<MsgType>, t: MsgType)
    requires t in q
    ensures multiset(q) == multiset(Receive(q, t)) + multiset{t}
  {
    assert q == [q[0]] + q[1..];
    if q[0] == t {
    } else {
      ReceiveCounts(q[1..], t);
    }
  }

  // The messages of either type, with one more and with one less of type t.
  lemma CountsAfter(q: seq<MsgType>, t: MsgType)
    ensures forall u :: multiset(q + [t])[u] == multiset(q)[u] + if t == u then 1 else 0
    ensures t in q ==> forall u :: multiset(Receive(q, t))[u] == multiset(q)[u] - if t == u then 1 else 0
  {
    assert multiset(q + [t]) == multiset(q) + multiset{t};
    if t in q {
      ReceiveCounts(q, t);
    }
  }

  predicate Enabled(cap: nat, s: State, a: Action)
    requires s.Shape()
  {
    a.k < |s.parents| &&
    match a
    case ByParent(k) =>
      var p := s.parents[k];
      s.ends[k] == Running &&
      if p.LoopsDone() then s.children[k].LoopsDone()  // waitpid
      else p.mid ==> Client in s.queue                 // the send never blocks
    case ByChild(k) =>
      var p := s.children[k];
      !p.LoopsDone() &&
      if p.mid then |s.queue| < cap else Server in s.queue
  }

  function Step(cap: nat, s: State, a: Action): (r: State)
    requires s.Shape() && Enabled(cap, s, a)
    ensures r.Shape() && |r.parents| == |s.parents|
  {
    match a
    case ByParent(k) =>
      var p := s.parents[k];
      if p.LoopsDone() then s.(ends := s.ends[k := Reaped])
      else if p.mid then
        s.(parents := s.parents[k := p.Advance()], queue := Receive(s.queue, Client))
      else if |s.queue| < cap then
        s.(parents := s.parents[k := p.(mid := true)], queue := s.queue + [Server])
      else s.(ends := s.ends[k := Failed])
    case ByChild(k) =>
      var p := s.children[k];
      if p.mid then
        s.(children := s.children[k := p.Advance()], queue := s.queue + [Client])
      else
        s.(children := s.children[k := p.(mid := true)], queue := Receive(s.queue, Server))
  }

  function Start(runs: seq<int>): (s: State)
    ensures s.Shape() && |s.parents| == |runs|
  {
    var ps := seq(|runs|, k requires 0 <= k < |runs| => Pos(runs[k], 0, 0, false));
    State(ps, seq(|runs|, _ => Running), ps, [])
  }

  ghost predicate Next(cap: nat, s: State, s': State) {
    s.Shape() && exists a :: Enabled(cap, s, a) && s' == Step(cap, s, a)
  }

  // Is some process not blocked?
  predicate CanMove(cap: nat, s: State) {
    s.Shape() &&
    exists k :: 0 <= k < |s.parents| && (Enabled(cap, s, ByParent(k)) || Enabled(cap, s, ByChild(k)))
  }

  ghost predicate Run(cap: nat, runs: seq<int>, tr: seq<State>) {
    && |tr| > 0
    && tr[0] == Start(runs)
    && forall j :: 0 < j < |tr| ==> Next(cap, tr[j - 1], tr[j])
  }

  // ----- counting

  function Total<T>(f: T -> int, s: seq<T>): int {
    if |s| == 0 then 0 else Total(f, s[..|s| - 1]) + f(s[|s| - 1])
  }

  lemma {:induction false} TotalUpdate<T>(f: T -> int, s: seq<T>, k: nat, v: T)
    requires k < |s|
    ensures Total(f, s[k := v]) == Total(f, s) - f(s[k]) + f(v)
  {
    var n := |s| - 1;
    if k < n {
      TotalUpdate(f, s[..n], k, v);
      assert s[k := v][..n] == s[..n][k := v];
    } else {
      assert s[k := v][..n] == s[..n];
    }
  }

  // Pointwise order carries over to totals, strictly where it is strict.
  lemma {:induction false} TotalLess<T>(f: T -> int, g: T -> int, s: seq<T>)
    requires forall k :: 0 <= k < |s| ==> f(s[k]) <= g(s[k])
    ensures Total(f, s) <= Total(g, s)
    ensures Total(f, s) < Total(g, s) <==> exists k :: 0 <= k < |s| && f(s[k]) < g(s[k])
  {
    if |s| == 0 {
    } else {
      var n := |s| - 1;
      var h := s[..n];
      assert forall k :: 0 <= k < n ==> h[k] == s[k];
      TotalLess(f, g, h);
      if exists k :: 0 <= k < |s| && f(s[k]) < g(s[k]) {
        var k :| 0 <= k < |s| && f(s[k]) < g(s[k]);
        assert k < n ==> f(h[k]) < g(h[k]);
      }
      if Total(f, h) < Total(g, h) {
        var k :| 0 <= k < n && f(h[k]) < g(h[k]);
        assert f(s[k]) < g(s[k]);
      }
    }
  }

  lemma {:induction false} TotalMinus<T>(f: T -> int, g: T -> int, h: T -> int, s: seq<T>)
    requires forall k :: 0 <= k < |s| ==> f(s[k]) == g(s[k]) - h(s[k])
    ensures Total(f, s) == Total(g, s) - Total(h, s)
  {
    if |s| == 0 {
    } else {
      TotalMinus(f, g, h, s[..|s| - 1]);
    }
  }

  // Iterations whose second queue call is still to come.
  function Seconds(p: Pos): int {
    if p.LoopsDone() then 0 else (p.runs - p.x) * ROUNDS - p.i
  }

  function Mid(p: Pos): int {
    if p.mid then 1 else 0
  }

  // Iterations whose first queue call is still to come.
  function Firsts(p: Pos): int {
    Seconds(p) - Mid(p)
  }

  function Calls(p: Pos): int {
    Firsts(p) + Seconds(p)
  }

  // 1 for a process that has any iteration to do.
  function Active(p: Pos): int {
    if p.runs > 0 then 1 else 0
  }

  function Open(e: End): int {
    if e == Running then 1 else 0
  }

  function Zero<T>(t: T): int {
    0
  }

  // Pairs that exchange any message at all.
  function ActivePairs(runs: seq<int>): int {
    Total(Active, Start(runs).parents)
  }

  // Operations that are still to be performed, by all processes together.
  function Remaining(s: State): int {
    Total(Calls, s.parents) + Total(Calls, s.children) + Total(Open, s.ends)
  }

  // ----- the invariant

  ghost predicate InLoops(runs: seq<int>, ps: seq<Pos>) {
    |ps| == |runs| && forall k :: 0 <= k < |runs| ==> ps[k].Ok() && ps[k].runs == runs[k]
  }

  // Where the processes can be: a parent that has given up stands before the
  // send that was refused.
  ghost predicate Placed(runs: seq<int>, s: State) {
    && s.Shape()
    && |s.parents| == |runs|
    && InLoops(runs, s.parents)
    && InLoops(runs, s.children)
    && (forall k :: 0 <= k < |runs| && s.ends[k] == Failed ==>
          !s.parents[k].LoopsDone() && !s.parents[k].mid)
    && (forall k :: 0 <= k < |runs| && s.ends[k] == Reaped ==>
          s.parents[k].LoopsDone() && s.children[k].LoopsDone())
  }

  // Every message is accounted for.
  ghost predicate Balanced(runs: seq<int>, s: State) {
    // server messages: sent and not yet received
    && Total(Firsts, s.parents) + multiset(s.queue)[Server] == Total(Firsts, s.children)
    // client messages: sent and not yet received
    && Total(Seconds, s.children) + multiset(s.queue)[Client] == Total(Seconds, s.parents)
    && Total(Active, s.parents) == ActivePairs(runs)
  }

  // What every step keeps, whatever the capacity.
  ghost predicate Inv(runs: seq<int>, s: State) {
    Placed(runs, s) && Balanced(runs, s)
  }

  lemma StartInv(runs: seq<int>)
    ensures Inv(runs, Start(runs))
  {
  }

  lemma AdvanceCounts(p: Pos)
    requires p.Ok() && !p.LoopsDone()
    ensures var q := p.Advance(); q.Ok() && q.runs == p.runs
    ensures p.mid ==> Firsts(p.Advance()) == Firsts(p) && Seconds(p.Advance()) == Seconds(p) - 1
    ensures var q := p.(mid := true);
            q.Ok() && (!p.mid ==> Firsts(q) == Firsts(p) - 1 && Seconds(q) == Seconds(p))
  {
  }

  lemma {:induction false} CountBoth(q: seq<MsgType>)
    ensures |q| == multiset(q)[Server] + multiset(q)[Client]
  {
    if q != [] {
      CountBoth(q[1..]);
      assert q == [q[0]] + q[1..];
      assert multiset(q) == multiset{q[0]} + multiset(q[1..]);
      assert q[0] == Server || q[0] == Client;
    } else {
      assert multiset(q) == multiset{};
    }
  }

  // Every message in the queue and every unanswered message a child holds
  // belongs to exactly one parent that awaits a reply; so the queue never
  // holds more messages than there are active pairs.
  lemma Conservation(runs: seq<int>, s: State)
    requires Inv(runs, s)
    ensures |s.queue| + Total(Mid, s.children) == Total(Mid, s.parents)
    ensures 0 <= Total(Mid, s.children) && Total(Mid, s.parents) <= ActivePairs(runs) <= |runs|
  {
    CountBoth(s.queue);
    TotalMinus(Firsts, Seconds, Mid, s.parents);
    TotalMinus(Firsts, Seconds, Mid, s.children);
    TotalLess(Mid, Active, s.parents);
    TotalZero(s.children);
    TotalLess(Zero<Pos>, Mid, s.children);
    ActiveBound(s.parents);
  }

  lemma {:induction false} TotalZero<T>(s: seq<T>)
    ensures Total(Zero<T>, s) == 0
  {
    if |s| == 0 {
    } else {
      TotalZero(s[..|s| - 1]);
    }
  }

  lemma {:induction false} ActiveBound(s: seq<Pos>)
    ensures Total(Active, s) <= |s|
  {
    if |s| == 0 {
    } else {
      ActiveBound(s[..|s| - 1]);
    }
  }

  // When a parent is about to send, the queue has room for one message of
  // every active pair but its own.
  lemma RoomToSend(runs: seq<int>, s: State, k: nat)
    requires Inv(runs, s) && k < |runs|
    requires !s.parents[k].LoopsDone() && !s.parents[k].mid
    ensures |s.queue| < ActivePairs(runs)
  {
    Conservation(runs, s);
    assert Mid(s.parents[k]) < Active(s.parents[k]);
    TotalLess(Mid, Active, s.parents);
  }

  // When a child is about to reply, the message it holds is not in the queue.
  lemma RoomToReply(runs: seq<int>, s: State, k: nat)
    requires Inv(runs, s) && k < |runs| && s.children[k].mid
    ensures |s.queue| < ActivePairs(runs)
  {
    Conservation(runs, s);
    TotalZero(s.children);
    assert Zero(s.children[k]) < Mid(s.children[k]);
    TotalLess(Zero<Pos>, Mid, s.children);
  }

  lemma StepInv(cap: nat, runs: seq<int>, s: State, a: Action)
    requires Inv(runs, s) && Enabled(cap, s, a)
    ensures Inv(runs, Step(cap, s, a))
    ensures Remaining(Step(cap, s, a)) == Remaining(s) - 1
  {
    match a
    case ByParent(k) =>
      var p := s.parents[k];
      if p.LoopsDone() {
        TotalUpdate(Open, s.ends, k, Reaped);
      } else if !p.mid && |s.queue| >= cap {
        TotalUpdate(Open, s.ends, k, Failed);
      } else {
        ParentCall(cap, runs, s, k);
      }
    case ByChild(k) =>
      ChildCall(cap, runs, s, k);
  }

  // A refused send is never undone, and there is none with enough room.
  lemma StepRefused(cap: nat, runs: seq<int>, s: State, a: Action)
    requires Inv(runs, s) && Enabled(cap, s, a)
    ensures s.SendRefused() ==> Step(cap, s, a).SendRefused()
    ensures ActivePairs(runs) <= cap && Step(cap, s, a).SendRefused() ==> s.SendRefused()
  {
    var s' := Step(cap, s, a);
    if k :| 0 <= k < |s.ends| && s.ends[k] == Failed {
      assert s'.ends[k] == Failed;
    }
    if a.ByParent? && !s.parents[a.k].LoopsDone() && !s.parents[a.k].mid {
      RoomToSend(runs, s, a.k);
    }
    if k :| 0 <= k < |s'.ends| && s'.ends[k] == Failed && s.ends[k] != Failed {
      assert a == ByParent(k);
    }
  }

  // A call that would overfill the queue waits or is refused.
  lemma StepFits(cap: nat, s: State, a: Action)
    requires s.Shape() && Enabled(cap, s, a)
    ensures |Step(cap, s, a).queue| <= if |s.queue| < cap then cap else |s.queue|
  {
  }

  lemma ParentCall(cap: nat, runs: seq<int>, s: State, k: nat)
    requires Inv(runs, s) && Enabled(cap, s, ByParent(k)) && !s.parents[k].LoopsDone()
    requires s.parents[k].mid || |s.queue| < cap
    ensures Inv(runs, Step(cap, s, ByParent(k)))
    ensures Remaining(Step(cap, s, ByParent(k))) == Remaining(s) - 1
  {
    var s' := Step(cap, s, ByParent(k));
    var p, p' := s.parents[k], s'.parents[k];
    AdvanceCounts(p);
    InLoopsUpdate(runs, s.parents, k, p');
    hide Total, Pos.Advance, Firsts, Seconds, Pos.Ok, InLoops, Balanced;
    assert s' == s.(parents := s.parents[k := p'], queue := s'.queue);
    Moved(s.parents, k, p');
    ParentBalance(runs, s, k, p', s'.queue);
  }

  // One message more or less, and one call less to make.
  lemma ParentBalance(runs: seq<int>, s: State, k: nat, p: Pos, q: seq<MsgType>)
    requires Balanced(runs, s) && k < |s.parents| && p.runs == s.parents[k].runs
    requires s.parents[k].mid ==>
               && Client in s.queue && q == Receive(s.queue, Client)
               && Firsts(p) == Firsts(s.parents[k]) && Seconds(p) == Seconds(s.parents[k]) - 1
    requires !s.parents[k].mid ==>
               && q == s.queue + [Server]
               && Firsts(p) == Firsts(s.parents[k]) - 1 && Seconds(p) == Seconds(s.parents[k])
    ensures Balanced(runs, s.(parents := s.parents[k := p], queue := q))
  {
    hide Total, Firsts, Seconds, Receive, ActivePairs;
    Moved(s.parents, k, p);
    CountsAfter(s.queue, if s.parents[k].mid then Client else Server);
  }

  lemma ChildCall(cap: nat, runs: seq<int>, s: State, k: nat)
    requires Inv(runs, s) && Enabled(cap, s, ByChild(k))
    ensures Inv(runs, Step(cap, s, ByChild(k)))
    ensures Remaining(Step(cap, s, ByChild(k))) == Remaining(s) - 1
  {
    var s' := Step(cap, s, ByChild(k));
    var p, p' := s.children[k], s'.children[k];
    AdvanceCounts(p);
    InLoopsUpdate(runs, s.children, k, p');
    hide Total, Pos.Advance, Firsts, Seconds, Pos.Ok, InLoops, Balanced;
    assert s' == s.(children := s.children[k := p'], queue := s'.queue);
    Moved(s.children, k, p');
    ChildBalance(runs, s, k, p', s'.queue);
  }

  lemma ChildBalance(runs: seq<int>, s: State, k: nat, p: Pos, q: seq<MsgType>)
    requires Balanced(runs, s) && k < |s.children|
    requires s.children[k].mid ==>
               && q == s.queue + [Client]
               && Firsts(p) == Firsts(s.children[k]) && Seconds(p) == Seconds(s.children[k]) - 1
    requires !s.children[k].mid ==>
               && Server in s.queue && q == Receive(s.queue, Server)
               && Firsts(p) == Firsts(s.children[k]) - 1 && Seconds(p) == Seconds(s.children[k])
    ensures Balanced(runs, s.(children := s.children[k := p], queue := q))
  {
    hide Total, Firsts, Seconds, Receive, ActivePairs;
    Moved(s.children, k, p);
    CountsAfter(s.queue, if s.children[k].mid then Client else Server);
  }

  lemma InLoopsUpdate(runs: seq<int>, ps: seq<Pos>, k: nat, p: Pos)
    requires InLoops(runs, ps) && k < |runs| && p.Ok() && p.runs == runs[k]
    ensures InLoops(runs, ps[k := p])
  {
  }

  lemma Moved(ps: seq<Pos>, k: nat, p: Pos)
    requires k < |ps|
    ensures Total(Firsts, ps[k := p]) == Total(Firsts, ps) - Firsts(ps[k]) + Firsts(p)
    ensures Total(Seconds, ps[k := p]) == Total(Seconds, ps) - Seconds(ps[k]) + Seconds(p)
    ensures Total(Calls, ps[k := p]) == Total(Calls, ps) - Calls(ps[k]) + Calls(p)
    ensures Total(Active, ps[k := p]) == Total(Active, ps) - Active(ps[k]) + Active(p)
  {
    TotalUpdate(Firsts, ps, k, p);
    TotalUpdate(Seconds, ps, k, p);
    TotalUpdate(Calls, ps, k, p);
    TotalUpdate(Active, ps, k, p);
  }

  // ----- every run

  lemma NextInv(cap: nat, runs: seq<int>, s: State, s': State)
    requires Inv(runs, s) && Next(cap, s, s')
    ensures Inv(runs, s') && Remaining(s') == Remaining(s) - 1
    ensures ActivePairs(runs) <= cap && s'.SendRefused() ==> s.SendRefused()
    ensures |s.queue| <= cap ==> |s'.queue| <= cap
  {
    var a :| Enabled(cap, s, a) && s' == Step(cap, s, a);
    StepFits(cap, s, a);
    StepInv(cap, runs, s, a);
    StepRefused(cap, runs, s, a);
  }

  lemma {:induction false} RunInv(cap: nat, runs: seq<int>, tr: seq<State>, j: nat)
    requires Run(cap, runs, tr) && j < |tr|
    ensures Inv(runs, tr[j])
    ensures Remaining(tr[j]) == Remaining(Start(runs)) - j
    ensures ActivePairs(runs) <= cap ==> !tr[j].SendRefused()
  {
    if j == 0 {
      StartInv(runs);
    } else {
      RunInv(cap, runs, tr, j - 1);
      NextInv(cap, runs, tr[j - 1], tr[j]);
    }
  }

  // waitpid returns after the parent's own loops, and after its child's.
  lemma WaitpidWaits(cap: nat, runs: seq<int>, tr: seq<State>, j: nat, k: nat)
    requires Run(cap, runs, tr) && j < |tr| && k < |tr[j].ends|
    ensures |tr[j].ends| == |tr[j].parents| == |tr[j].children| == |runs|
    ensures tr[j].ends[k] == Reaped ==> tr[j].parents[k].x >= runs[k] && tr[j].children[k].x >= runs[k]
  {
    RunInv(cap, runs, tr, j);
  }

  // The queue never holds more messages than it has room for.
  lemma {:induction false} QueueFits(cap: nat, runs: seq<int>, tr: seq<State>, j: nat)
    requires Run(cap, runs, tr) && j < |tr|
    ensures |tr[j].queue| <= cap
  {
    if j == 0 {
    } else {
      QueueFits(cap, runs, tr, j - 1);
      RunInv(cap, runs, tr, j - 1);
      NextInv(cap, runs, tr[j - 1], tr[j]);
    }
  }

  lemma AllZero(f: Pos -> int, ps: seq<Pos>)
    requires forall k :: 0 <= k < |ps| ==> f(ps[k]) == 0
    ensures Total(f, ps) == 0
  {
    TotalLess(f, Zero<Pos>, ps);
    TotalLess(Zero<Pos>, f, ps);
    TotalZero(ps);
  }

  lemma SomePositive(f: Pos -> int, ps: seq<Pos>)
    requires forall k :: 0 <= k < |ps| ==> f(ps[k]) >= 0
    ensures Total(f, ps) >= 0
    ensures Total(f, ps) > 0 <==> exists k :: 0 <= k < |ps| && f(ps[k]) > 0
  {
    TotalLess(Zero<Pos>, f, ps);
    TotalZero(ps);
  }

  // With no message call left to make, some parent can return from waitpid.
  lemma OnlyWaitpidLeft(runs: seq<int>, s: State)
    requires Inv(runs, s) && !s.AllDone() && !s.SendRefused()
    requires forall k :: 0 <= k < |runs| ==> s.parents[k].LoopsDone() && !s.children[k].mid
    requires Server !in s.queue
    ensures exists k :: 0 <= k < |runs| && s.ends[k] == Running && s.children[k].LoopsDone()
  {
    AllZero(Firsts, s.parents);
    SomePositive(Firsts, s.children);
    forall k | 0 <= k < |runs| ensures s.children[k].LoopsDone() {
      assert s.children[k].Ok() && !(Firsts(s.children[k]) > 0);
    }
  }

  lemma SomeReceiver(runs: seq<int>, s: State) returns (k: nat)
    requires Inv(runs, s) && Server in s.queue
    requires forall k :: 0 <= k < |runs| ==> !s.children[k].mid
    ensures k < |runs| && !s.children[k].LoopsDone() && !s.children[k].mid
  {
    FirstsNonNegative(runs, s.parents);
    FirstsNonNegative(runs, s.children);
    hide Firsts, Total;
    SomePositive(Firsts, s.parents);
    SomePositive(Firsts, s.children);
    k :| 0 <= k < |runs| && Firsts(s.children[k]) > 0;
    FirstsPositive(s.children[k]);
  }

  lemma FirstsNonNegative(runs: seq<int>, ps: seq<Pos>)
    requires InLoops(runs, ps)
    ensures forall k :: 0 <= k < |ps| ==> Firsts(ps[k]) >= 0
  {
  }

  lemma FirstsPositive(p: Pos)
    requires p.Ok() && Firsts(p) > 0
    ensures !p.LoopsDone()
  {
  }

  lemma ReplyQueued(runs: seq<int>, s: State, k: nat)
    requires Inv(runs, s) && k < |runs| && s.parents[k].mid
    requires forall k :: 0 <= k < |runs| ==> !s.children[k].mid
    requires Server !in s.queue
    ensures Client in s.queue
  {
    Conservation(runs, s);
    SomePositive(Mid, s.parents);
    AllZero(Mid, s.children);
    assert Mid(s.parents[k]) > 0;
    assert s.queue[0] == Client;
  }

  // A child holds a reply that the queue has no room for.
  predicate Clogged(cap: nat, s: State) {
    cap <= |s.queue| && exists k :: 0 <= k < |s.children| && s.children[k].mid
  }

  // Nothing but a refused send or a full queue can stop the benchmark before
  // it is finished; with room for one message of every active pair, the queue
  // is never full when a child replies.
  lemma NoDeadlock(cap: nat, runs: seq<int>, s: State)
    requires Inv(runs, s)
    ensures s.AllDone() ==> !CanMove(cap, s)
    ensures CanMove(cap, s) || s.AllDone() || s.SendRefused() || Clogged(cap, s)
    ensures ActivePairs(runs) <= cap ==> !Clogged(cap, s)
  {
    if k :| 0 <= k < |runs| && s.children[k].mid {
      RoomToReply(runs, s, k);
      assert |s.queue| < cap ==> Enabled(cap, s, ByChild(k));
    } else if !s.AllDone() && !s.SendRefused() {
      Unclogged(cap, runs, s);
    }
  }

  lemma Unclogged(cap: nat, runs: seq<int>, s: State)
    requires Inv(runs, s) && !s.AllDone() && !s.SendRefused()
    requires forall k :: 0 <= k < |runs| ==> !s.children[k].mid
    ensures CanMove(cap, s)
  {
    if k :| 0 <= k < |runs| && !s.parents[k].LoopsDone() && !s.parents[k].mid {
      assert Enabled(cap, s, ByParent(k));
    } else if Server in s.queue {
      var k := SomeReceiver(runs, s);
      assert Enabled(cap, s, ByChild(k));
    } else if k :| 0 <= k < |runs| && s.parents[k].mid {
      ReplyQueued(runs, s, k);
      assert Enabled(cap, s, ByParent(k));
    } else {
      OnlyWaitpidLeft(runs, s);
      var k :| 0 <= k < |runs| && s.ends[k] == Running && s.children[k].LoopsDone();
      assert Enabled(cap, s, ByParent(k));
    }
  }

  lemma CallsNonNegative(runs: seq<int>, ps: seq<Pos>)
    requires InLoops(runs, ps)
    ensures forall k :: 0 <= k < |ps| ==> Calls(ps[k]) >= 0
  {
  }

  lemma RemainingBound(runs: seq<int>, s: State)
    requires Inv(runs, s)
    ensures Remaining(s) >= 0
  {
    CallsNonNegative(runs, s.parents);
    CallsNonNegative(runs, s.children);
    hide Inv, Calls, Total;
    SomePositive(Calls, s.parents);
    SomePositive(Calls, s.children);
    TotalLess(Zero<End>, Open, s.ends);
    TotalZero(s.ends);
  }

  lemma DoneMeansEmpty(runs: seq<int>, s: State)
    requires Inv(runs, s) && s.AllDone()
    ensures s.queue == [] && Remaining(s) == 0
  {
    AllZero(Calls, s.parents);
    AllZero(Calls, s.children);
    AllZero(Mid, s.parents);
    AllZero(Mid, s.children);
    Conservation(runs, s);
    RemainingBound(runs, s);
    TotalZero(s.ends);
    TotalLess(Open, Zero<End>, s.ends);
  }

  // Queue calls and waitpids that the pairs perform altogether.
  function Workload(runs: seq<int>): int {
    if |runs| == 0 then 0
    else
      var last := runs[|runs| - 1];
      Workload(runs[..|runs| - 1]) + (if last > 0 then 4 * ROUNDS * last else 0) + 1
  }

  lemma {:induction false} StartWorkload(runs: seq<int>)
    ensures Remaining(Start(runs)) == Workload(runs)
  {
    if |runs| == 0 {
    } else {
      var n := |runs| - 1;
      StartWorkload(runs[..n]);
      assert Start(runs).parents[..n] == Start(runs[..n]).parents;
      assert Start(runs).ends[..n] == Start(runs[..n]).ends;
    }
  }

  // No run is longer than the workload, whatever the capacity. A run that
  // finishes is exactly that long and leaves the queue empty, ready for the
  // next start of the benchmark; with enough room, a run that cannot be
  // extended has finished.
  lemma RunsEnd(cap: nat, runs: seq<int>, tr: seq<State>)
    requires Run(cap, runs, tr)
    ensures |tr| - 1 <= Workload(runs)
    ensures tr[|tr| - 1].AllDone() ==> |tr| - 1 == Workload(runs) && tr[|tr| - 1].queue == []
    ensures ActivePairs(runs) <= cap ==> (CanMove(cap, tr[|tr| - 1]) <==> !tr[|tr| - 1].AllDone())
  {
    var s := tr[|tr| - 1];
    RunInv(cap, runs, tr, |tr| - 1);
    StartWorkload(runs);
    RemainingBound(runs, s);
    NoDeadlock(cap, runs, s);
    if s.AllDone() {
      DoneMeansEmpty(runs, s);
    }
  }

  // ----- when a send can be refused

  ghost predicate Refusable(cap: nat, runs: seq<int>) {
    exists tr: seq<State> :: Run(cap, runs, tr) && tr[|tr| - 1].SendRefused()
  }

  // Parents before j have sent their first message, nobody else has moved.
  ghost predicate FirstSends(runs: seq<int>, s: State, j: nat) {
    && s.Shape()
    && |s.parents| == |runs| && j <= |runs|
    && (forall k :: j <= k < |runs| ==> s.ends[k] == Running && s.parents[k] == Pos(runs[k], 0, 0, false))
    && |s.queue| == Total(Active, Start(runs).parents[..j])
  }

  lemma Flood(cap: nat, runs: seq<int>, j: nat, tr: seq<State>)
    requires cap < ActivePairs(runs) && Run(cap, runs, tr)
    requires FirstSends(runs, tr[|tr| - 1], j) && |tr[|tr| - 1].queue| <= cap
    ensures Refusable(cap, runs)
    decreases |runs| - j
  {
    var s, ps := tr[|tr| - 1], Start(runs).parents;
    assert ps[..|runs|] == ps;
    if j < |runs| {
      assert ps[..j + 1][..j] == ps[..j];
      if runs[j] <= 0 {
        Flood(cap, runs, j + 1, tr);
      } else {
        var s' := Step(cap, s, ByParent(j));
        assert Next(cap, s, s');
        var tr' := tr + [s'];
        assert Run(cap, runs, tr');
        if |s.queue| < cap {
          Flood(cap, runs, j + 1, tr');
        } else {
          assert tr'[|tr'| - 1].ends[j] == Failed;
        }
      }
    }
  }

  // Some interleaving makes a parent give up exactly when the queue has no
  // room for one message of every active pair.
  lemma RefusableExactly(cap: nat, runs: seq<int>)
    ensures Refusable(cap, runs) <==> cap < ActivePairs(runs)
  {
    if cap < ActivePairs(runs) {
      assert Start(runs).parents[..0] == [];
      Flood(cap, runs, 0, [Start(runs)]);
    } else {
      forall tr: seq<State> | Run(cap, runs, tr) ensures !tr[|tr| - 1].SendRefused() {
        RunInv(cap, runs, tr, |tr| - 1);
      }
    }
  }

  // ----- when the benchmark can hang

  // Nobody can move, yet a parent waits or a child is not through.
  predicate Stuck(cap: nat, s: State) {
    s.Shape() && !CanMove(cap, s) &&
    exists k :: 0 <= k < |s.ends| && (s.ends[k] == Running || !s.children[k].LoopsDone())
  }

  ghost predicate Hangs(cap: nat, runs: seq<int>) {
    exists tr: seq<State> :: Run(cap, runs, tr) && Stuck(cap, tr[|tr| - 1])
  }

  // The messages of a parent that has given up never come.
  lemma RefusedNeverFinishes(runs: seq<int>, s: State)
    requires Inv(runs, s) && s.SendRefused()
    ensures exists k :: 0 <= k < |runs| && !s.children[k].LoopsDone()
  {
    hide Total;
    SomePositive(Firsts, s.parents);
    SomePositive(Firsts, s.children);
    var f :| 0 <= f < |runs| && s.ends[f] == Failed;
    assert Firsts(s.parents[f]) > 0;
    var k :| 0 <= k < |runs| && Firsts(s.children[k]) > 0;
    assert !s.children[k].LoopsDone();
  }

  // Go on until nobody can move.
  lemma {:induction false} RunOn(cap: nat, runs: seq<int>, tr: seq<State>) returns (tr': seq<State>)
    requires Run(cap, runs, tr)
    ensures Run(cap, runs, tr') && !CanMove(cap, tr'[|tr'| - 1])
    ensures tr[|tr| - 1].SendRefused() ==> tr'[|tr'| - 1].SendRefused()
    decreases Workload(runs) - |tr|
  {
    hide Inv, Start, Workload;
    var s := tr[|tr| - 1];
    RunInv(cap, runs, tr, |tr| - 1);
    if !CanMove(cap, s) {
      tr' := tr;
    } else {
      var k :| 0 <= k < |s.parents| && (Enabled(cap, s, ByParent(k)) || Enabled(cap, s, ByChild(k)));
      var a := if Enabled(cap, s, ByParent(k)) then ByParent(k) else ByChild(k);
      StepRefused(cap, runs, s, a);
      assert Next(cap, s, Step(cap, s, a));
      var longer := tr + [Step(cap, s, a)];
      assert Run(cap, runs, longer);
      RunsEnd(cap, runs, longer);
      tr' := RunOn(cap, runs, longer);
    }
  }

  // Some interleaving makes the benchmark hang exactly when the queue has no
  // room for one message of every active pair.
  lemma HangsExactly(cap: nat, runs: seq<int>)
    ensures Hangs(cap, runs) <==> cap < ActivePairs(runs)
  {
    RefusableExactly(cap, runs);
    if cap < ActivePairs(runs) {
      var tr: seq<State> :| Run(cap, runs, tr) && tr[|tr| - 1].SendRefused();
      var tr' := RunOn(cap, runs, tr);
      RunInv(cap, runs, tr', |tr'| - 1);
      RefusedNeverFinishes(runs, tr'[|tr'| - 1]);
      assert Stuck(cap, tr'[|tr'| - 1]);
    } else {
      forall tr: seq<State> | Run(cap, runs, tr) ensures !Stuck(cap, tr[|tr| - 1]) {
        RunsEnd(cap, runs, tr);
      }
    }
  }

  // ----- the processes as they change the shared state

  class System {
    const cap: nat
    ghost const runs: seq<int>
    var parents: seq<Pos>
    var ends: seq<End>
    var children: seq<Pos>
    var queue: seq<MsgType>

    constructor (cap: nat, runs: seq<int>)
      ensures this.cap == cap && this.runs == runs
      ensures View() == Start(runs)
    {
      this.cap, this.runs := cap, runs;
      parents := Start(runs).parents;
      children := parents;
      ends := Start(runs).ends;
      queue := [];
    }

    function View(): State
      reads this
    {
      State(parents, ends, children, queue)
    }

    // One iteration half of the parent's loops, or its waitpid.
    method ParentStep(k: nat)
      requires View().Shape() && Enabled(cap, View(), ByParent(k))
      modifies this
      ensures View() == Step(cap, old(View()), ByParent(k))
      ensures children == old(children)
      ensures var p := old(parents[k]);
              if p.x >= p.runs then queue == old(queue) && ends == old(ends)[k := Reaped]
              else if p.mid then Received(old(queue), Client, queue) && ends == old(ends)
              else if |old(queue)| < cap then queue == old(queue) + [Server] && ends == old(ends)
              else queue == old(queue) && ends == old(ends)[k := Failed]
    {
      var p := parents[k];
      if p.x < p.runs {
        if !p.mid {
          if |queue| < cap {
            queue := queue + [Server];
            parents := parents[k := p.(mid := true)];
          } else {
            ends := ends[k := Failed];
          }
        } else {
          ReceiveIs(queue, Client);
          queue := Receive(queue, Client);
          parents := parents[k := p.Advance()];
        }
      } else {
        ends := ends[k := Reaped];
      }
    }

    method ChildStep(k: nat)
      requires View().Shape() && Enabled(cap, View(), ByChild(k))
      modifies this
      ensures View() == Step(cap, old(View()), ByChild(k))
      ensures parents == old(parents) && ends == old(ends)
      ensures if old(children[k]).mid then queue == old(queue) + [Client] && |queue| <= cap
              else Received(old(queue), Server, queue)
    {
      var p := children[k];
      if !p.mid {
        ReceiveIs(queue, Server);
        queue := Receive(queue, Server);
        children := children[k := p.(mid := true)];
      } else {
        queue := queue + [Client];
        children := children[k := p.Advance()];
      }
    }

    // Any scheduler: let some process that is not blocked make its next call.
    method StepSome()
      requires CanMove(cap, View())
      modifies this
      ensures Next(cap, old(View()), View())
    {
      var k, parent :| 0 <= k < |parents| && Enabled(cap, View(), if parent then ByParent(k) else ByChild(k));
      if parent {
        ParentStep(k);
      } else {
        ChildStep(k);
      }
    }

    // It goes on until all processes are blocked or done. With enough room no
    // send is refused and all the work gets done.
    method RunAll() returns (steps: nat)
      requires View() == Start(runs)
      modifies this
      ensures !CanMove(cap, View())
      ensures |queue| <= cap
      ensures steps <= Workload(runs)
      ensures View().AllDone() ==> queue == [] && steps == Workload(runs)
      ensures View().AllDone() || View().SendRefused() || Clogged(cap, View())
      ensures ActivePairs(runs) <= cap ==> View().AllDone()
    {
      assert !View().SendRefused();
      hide Inv, Remaining, Workload, Start, CanMove, Next, Clogged;
      steps := 0;
      StartInv(runs);
      StartWorkload(runs);
      while CanMove(cap, View())
        invariant Inv(runs, View())
        invariant |queue| <= cap
        invariant steps + Remaining(View()) == Workload(runs)
        invariant ActivePairs(runs) <= cap ==> !View().SendRefused()
        decreases Remaining(View())
      {
        ghost var s := View();
        RemainingBound(runs, s);
        StepSome();
        NextInv(cap, runs, s, View());
        RemainingBound(runs, View());
        steps := steps + 1;
      }
      RemainingBound(runs, View());
      NoDeadlock(cap, runs, View());
      if View().AllDone() {
        DoneMeansEmpty(runs, View());
      }
    }
  }
}
