/** What a full queue does to the ping-pong benchmark. A child whose reply
    does not fit waits, unlike a parent, whose send is refused; so there are
    deadlocks in which no process has reported an error. */
module Deadlock {

  import opened PingPong

  // ----- a child waits for room

  // As long as the queue is full, a child that holds a reply does not go on.
  lemma FullQueueBlocks(cap: nat, s: State, s': State, k: nat)
    requires Next(cap, s, s') && k < |s.children| && s.children[k].mid && cap <= |s.queue|
    ensures s'.Shape() && |s'.children| == |s.children| && s'.children[k] == s.children[k]
    ensures |s'.queue| <= |s.queue|
  {
  }

  // ----- reachable states

  ghost predicate Reach(cap: nat, runs: seq<int>, s: State) {
    exists tr: seq<State> :: Run(cap, runs, tr) && tr[|tr| - 1] == s
  }

  lemma ReachStart(cap: nat, runs: seq<int>)
    ensures Reach(cap, runs, Start(runs))
  {
    assert Run(cap, runs, [Start(runs)]);
  }

  lemma ReachInv(cap: nat, runs: seq<int>, s: State)
    requires Reach(cap, runs, s)
    ensures Inv(runs, s) && |s.queue| <= cap
  {
    var tr: seq<State> :| Run(cap, runs, tr) && tr[|tr| - 1] == s;
    RunInv(cap, runs, tr, |tr| - 1);
    QueueFits(cap, runs, tr, |tr| - 1);
  }

  lemma ReachStep(cap: nat, runs: seq<int>, s: State, a: Action) returns (s': State)
    requires Reach(cap, runs, s) && s.Shape() && Enabled(cap, s, a)
    ensures s' == Step(cap, s, a) && Reach(cap, runs, s')
  {
    var tr: seq<State> :| Run(cap, runs, tr) && tr[|tr| - 1] == s;
    s' := Step(cap, s, a);
    assert Next(cap, s, s');
    assert Run(cap, runs, tr + [s']);
  }

  // ----- part of a total

  // The total over the chosen places.
  function Part<T>(f: T -> int, chosen: seq<bool>, s: seq<T>): int
    requires |chosen| == |s|
  {
    if |s| == 0 then 0
    else Part(f, chosen[..|s| - 1], s[..|s| - 1]) + if chosen[|s| - 1] then f(s[|s| - 1]) else 0
  }

  lemma {:induction false} PartUpdate<T>(f: T -> int, chosen: seq<bool>, s: seq<T>, k: nat, v: T)
    requires |chosen| == |s| && k < |s|
    ensures Part(f, chosen, s[k := v]) == Part(f, chosen, s) + if chosen[k] then f(v) - f(s[k]) else 0
  {
    var n := |s| - 1;
    if k < n {
      PartUpdate(f, chosen[..n], s[..n], k, v);
      assert s[k := v][..n] == s[..n][k := v];
    } else {
      assert s[k := v][..n] == s[..n];
    }
  }

  lemma {:induction false} PartLess<T>(f: T -> int, s: seq<T>, g: T -> int, t: seq<T>, chosen: seq<bool>)
    requires |chosen| == |s| == |t|
    requires forall k :: 0 <= k < |s| && chosen[k] ==> f(s[k]) <= g(t[k])
    ensures Part(f, chosen, s) <= Part(g, chosen, t)
    ensures Part(f, chosen, s) < Part(g, chosen, t) <==> exists k :: 0 <= k < |s| && chosen[k] && f(s[k]) < g(t[k])
  {
    if |s| == 0 {
    } else {
      var n := |s| - 1;
      var x, y, c := s[..n], t[..n], chosen[..n];
      assert forall k :: 0 <= k < n ==> x[k] == s[k] && y[k] == t[k] && c[k] == chosen[k];
      PartLess(f, x, g, y, c);
      if k :| 0 <= k < |s| && chosen[k] && f(s[k]) < g(t[k]) {
        assert k < n ==> c[k] && f(x[k]) < g(y[k]);
      }
      if Part(f, c, x) < Part(g, c, y) {
        var k :| 0 <= k < n && c[k] && f(x[k]) < g(y[k]);
        assert chosen[k] && f(s[k]) < g(t[k]);
      }
    }
  }

  // What the chosen places leave out.
  lemma {:induction false} PartOfTotal<T>(f: T -> int, chosen: seq<bool>, s: seq<T>)
    requires |chosen| == |s|
    requires forall k :: 0 <= k < |s| ==> f(s[k]) >= 0
    ensures Part(f, chosen, s) <= Total(f, s)
    ensures Part(f, chosen, s) == Total(f, s) <==> forall k :: 0 <= k < |s| && !chosen[k] ==> f(s[k]) == 0
  {
    if |s| == 0 {
    } else {
      var n := |s| - 1;
      var x, c := s[..n], chosen[..n];
      assert forall k :: 0 <= k < n ==> x[k] == s[k] && c[k] == chosen[k];
      PartOfTotal(f, c, x);
      assert (forall k :: 0 <= k < n && !c[k] ==> f(x[k]) == 0) <==> forall k :: 0 <= k < n && !chosen[k] ==> f(s[k]) == 0;
    }
  }

  // ----- filling the queue

  // 1 for a process that is not through its loops.
  function Alive(p: Pos): int {
    if p.LoopsDone() then 0 else 1
  }

  predicate OnlyServer(q: seq<MsgType>) {
    forall i :: 0 <= i < |q| ==> q[i] == Server
  }

  // One step of a run without a refused send.
  lemma Proceed(cap: nat, runs: seq<int>, s: State, a: Action) returns (s': State)
    requires Reach(cap, runs, s) && !s.SendRefused() && s.Shape() && Enabled(cap, s, a)
    requires a.ByParent? && !s.parents[a.k].LoopsDone() && !s.parents[a.k].mid ==> |s.queue| < cap
    ensures s' == Step(cap, s, a) && Reach(cap, runs, s') && !s'.SendRefused()
    ensures Remaining(s') == Remaining(s) - 1
  {
    ReachInv(cap, runs, s);
    StepInv(cap, runs, s, a);
    s' := ReachStep(cap, runs, s, a);
    hide Reach, Inv, Remaining;
    assert forall k :: 0 <= k < |s.ends| ==> s'.ends[k] == s.ends[k] || s'.ends[k] == Reaped;
  }

  // A parent that is not through sends a message.
  lemma Send(cap: nat, runs: seq<int>, s: State, k: nat) returns (s': State)
    requires Reach(cap, runs, s) && !s.SendRefused() && |s.queue| < cap
    requires k < |s.parents| && !s.parents[k].LoopsDone() && !s.parents[k].mid
    ensures Reach(cap, runs, s') && !s'.SendRefused() && Remaining(s') == Remaining(s) - 1
    ensures s' == s.(parents := s.parents[k := s.parents[k].(mid := true)], queue := s.queue + [Server])
  {
    ReachInv(cap, runs, s);
    assert s.ends[k] == Running;
    hide Reach, Inv, Remaining;
    s' := Proceed(cap, runs, s, ByParent(k));
  }

  // A child takes the only message.
  lemma Take(cap: nat, runs: seq<int>, s: State, k: nat) returns (s': State)
    requires Reach(cap, runs, s) && !s.SendRefused() && s.queue == [Server]
    requires k < |s.children| && !s.children[k].mid && !s.children[k].LoopsDone()
    ensures Reach(cap, runs, s') && !s'.SendRefused() && Remaining(s') == Remaining(s) - 1
    ensures s' == s.(children := s.children[k := s.children[k].(mid := true)], queue := [])
  {
    ReachInv(cap, runs, s);
    hide Reach, Inv, Remaining;
    s' := Proceed(cap, runs, s, ByChild(k));
  }

  // It replies to it.
  lemma Reply(cap: nat, runs: seq<int>, s: State, k: nat) returns (s': State)
    requires Reach(cap, runs, s) && !s.SendRefused() && s.queue == [] && 0 < cap
    requires k < |s.children| && s.children[k].mid && !s.children[k].LoopsDone()
    ensures Reach(cap, runs, s') && !s'.SendRefused() && Remaining(s') == Remaining(s) - 1
    ensures s' == s.(children := s.children[k := s.children[k].Advance()], queue := [Client])
  {
    ReachInv(cap, runs, s);
    hide Reach, Inv, Remaining, Pos.Advance;
    s' := Proceed(cap, runs, s, ByChild(k));
  }

  // A parent takes the reply.
  lemma TakeReply(cap: nat, runs: seq<int>, s: State, k: nat) returns (s': State)
    requires Reach(cap, runs, s) && !s.SendRefused() && s.queue == [Client]
    requires k < |s.parents| && s.parents[k].mid && !s.parents[k].LoopsDone()
    ensures Reach(cap, runs, s') && !s'.SendRefused() && Remaining(s') == Remaining(s) - 1
    ensures s' == s.(parents := s.parents[k := s.parents[k].Advance()], queue := [])
  {
    ReachInv(cap, runs, s);
    assert s.ends[k] == Running;
    hide Reach, Inv, Remaining, Pos.Advance;
    s' := Proceed(cap, runs, s, ByParent(k));
  }

  // Some parent that is not through sends a message.
  lemma SendOne(cap: nat, runs: seq<int>, s: State) returns (s': State)
    requires Reach(cap, runs, s) && !s.SendRefused() && |s.queue| < cap
    requires Total(Mid, s.parents) < Total(Alive, s.parents)
    ensures Reach(cap, runs, s') && !s'.SendRefused()
    ensures s'.children == s.children && s'.queue == s.queue + [Server]
    ensures Total(Alive, s'.parents) == Total(Alive, s.parents) && Remaining(s') < Remaining(s)
  {
    ReachInv(cap, runs, s);
    TotalLess(Mid, Alive, s.parents);
    hide Total, Reach, Remaining;
    var k :| 0 <= k < |s.parents| && Mid(s.parents[k]) < Alive(s.parents[k]);
    s' := Send(cap, runs, s, k);
    TotalUpdate(Alive, s.parents, k, s'.parents[k]);
  }

  // With enough parents that are not through, the queue fills up.
  lemma {:induction false} Fill(cap: nat, runs: seq<int>, s: State) returns (s': State)
    requires Reach(cap, runs, s) && !s.SendRefused() && OnlyServer(s.queue)
    requires cap + Total(Mid, s.children) <= Total(Alive, s.parents)
    ensures Reach(cap, runs, s') && !s'.SendRefused() && OnlyServer(s'.queue) && |s'.queue| == cap
    ensures s'.children == s.children && Total(Alive, s'.parents) == Total(Alive, s.parents)
    decreases cap - |s.queue|
  {
    ReachInv(cap, runs, s);
    Conservation(runs, s);
    if |s.queue| == cap {
      s' := s;
    } else {
      var t := SendOne(cap, runs, s);
      ReachInv(cap, runs, t);
      s' := Fill(cap, runs, t);
    }
  }

  lemma StartTotals(runs: seq<int>)
    ensures Total(Mid, Start(runs).children) == 0
    ensures Total(Alive, Start(runs).parents) == ActivePairs(runs)
  {
    AllZero(Mid, Start(runs).children);
    TotalLess(Alive, Active, Start(runs).parents);
    TotalLess(Active, Alive, Start(runs).parents);
  }

  // Some interleaving leads to a child whose reply does not fit exactly when
  // the queue has room for some message but not for one of every active pair.
  lemma CloggedExactly(cap: nat, runs: seq<int>)
    ensures (exists s :: Reach(cap, runs, s) && Clogged(cap, s)) <==> 0 < cap < ActivePairs(runs)
  {
    if 0 < cap < ActivePairs(runs) {
      var s := CloggedState(cap, runs);
    } else if s :| Reach(cap, runs, s) && Clogged(cap, s) {
      ReachInv(cap, runs, s);
      NoDeadlock(cap, runs, s);
      if cap == 0 {
        NothingSent(runs, s);
        Conservation(runs, s);
        SomePositive(Mid, s.children);
        AllZero(Mid, s.parents);
      }
      assert false;
    }
  }

  lemma CloggedState(cap: nat, runs: seq<int>) returns (s: State)
    requires 0 < cap < ActivePairs(runs)
    ensures Reach(cap, runs, s) && Clogged(cap, s) && !s.SendRefused()
  {
    var s0 := Start(runs);
    ReachStart(cap, runs);
    StartTotals(runs);
    SomePositive(Active, s0.parents);
    var k :| 0 <= k < |s0.parents| && Active(s0.parents[k]) > 0;
    AllZero(Mid, s0.parents);
    var s1 := SendOne(cap, runs, s0);
    var s2 := Take(cap, runs, s1, k);
    TotalUpdate(Mid, s1.children, k, s2.children[k]);
    hide Reach, Total, ActivePairs;
    s := Fill(cap, runs, s2);
    assert s.children[k].mid;
  }

  // Without any room no message is ever sent.
  lemma NothingSent(runs: seq<int>, s: State)
    requires Reach(0, runs, s)
    ensures forall k :: 0 <= k < |s.parents| ==> !s.parents[k].mid
  {
    var tr: seq<State> :| Run(0, runs, tr) && tr[|tr| - 1] == s;
    NothingSentYet(runs, tr, |tr| - 1);
  }

  lemma {:induction false} NothingSentYet(runs: seq<int>, tr: seq<State>, j: nat)
    requires Run(0, runs, tr) && j < |tr|
    ensures forall k :: 0 <= k < |tr[j].parents| ==> !tr[j].parents[k].mid
  {
    if j == 0 {
    } else {
      NothingSentYet(runs, tr, j - 1);
      assert Next(0, tr[j - 1], tr[j]);
      var a :| Enabled(0, tr[j - 1], a) && tr[j] == Step(0, tr[j - 1], a);
    }
  }

  // ----- deadlocks

  // Nobody can move, nobody has given up, and yet it is not finished.
  predicate Deadlocked(cap: nat, s: State) {
    s.Shape() && !CanMove(cap, s) && !s.SendRefused() && !s.AllDone()
  }

  // The queue is full of messages for children that are through; those that
  // are not hold a reply, and the parents that are not wait for one.
  ghost predicate Jammed(cap: nat, s: State) {
    && s.Shape() && !s.SendRefused()
    && cap <= |s.queue| && OnlyServer(s.queue)
    && (forall k :: 0 <= k < |s.parents| ==> s.parents[k].mid || s.parents[k].LoopsDone())
    && (forall k :: 0 <= k < |s.children| ==> s.children[k].mid || s.children[k].LoopsDone())
    && (exists k :: 0 <= k < |s.children| && s.children[k].mid)
  }

  // No message is ever sent or received again.
  lemma JamLasts(cap: nat, runs: seq<int>, s: State, s': State)
    requires Inv(runs, s) && Jammed(cap, s) && Next(cap, s, s')
    ensures Jammed(cap, s') && s'.parents == s.parents && s'.children == s.children && s'.queue == s.queue
  {
    var a :| Enabled(cap, s, a) && s' == Step(cap, s, a);
    assert Client !in s.queue;
    assert a.ByParent? && s.parents[a.k].LoopsDone();
  }

  lemma {:induction false} RunJam(cap: nat, runs: seq<int>, s: State) returns (s': State)
    requires Reach(cap, runs, s) && Jammed(cap, s)
    ensures Reach(cap, runs, s') && Deadlocked(cap, s')
    decreases if Inv(runs, s) then Remaining(s) else 0
  {
    ReachInv(cap, runs, s);
    RemainingBound(runs, s);
    if CanMove(cap, s) {
      var k :| 0 <= k < |s.parents| && (Enabled(cap, s, ByParent(k)) || Enabled(cap, s, ByChild(k)));
      var a := if Enabled(cap, s, ByParent(k)) then ByParent(k) else ByChild(k);
      var t := ReachStep(cap, runs, s, a);
      StepInv(cap, runs, s, a);
      assert Next(cap, s, t);
      JamLasts(cap, runs, s, t);
      RemainingBound(runs, t);
      s' := RunJam(cap, runs, t);
    } else {
      s' := s;
      var k :| 0 <= k < |s.children| && s.children[k].mid;
      assert s.children[k].Ok();
    }
  }

  function One(p: Pos): int {
    1
  }

  // Some children, chosen among those with loops to do, that can end up
  // holding a reply each: besides a message for every place in the queue, one
  // for each of them can be under way, and they can be the last receivers.
  ghost predicate CanJam(cap: nat, runs: seq<int>, chosen: seq<bool>) {
    && 0 < cap && |chosen| == |runs|
    && (exists k :: 0 <= k < |runs| && chosen[k])
    && (forall k :: 0 <= k < |runs| && chosen[k] ==> runs[k] > 0)
    && var children := Start(runs).children;
       var under := cap + Part(One, chosen, children);
       under <= ActivePairs(runs) && under <= Part(Firsts, chosen, children)
  }

  // A deadlock leaves such a choice: the children that hold a reply.
  lemma DeadlockJams(cap: nat, runs: seq<int>, s: State) returns (chosen: seq<bool>)
    requires Reach(cap, runs, s) && Deadlocked(cap, s)
    ensures CanJam(cap, runs, chosen)
  {
    ReachInv(cap, runs, s);
    NoDeadlock(cap, runs, s);
    assert Clogged(cap, s);
    CloggedExactly(cap, runs);
    chosen := seq(|runs|, k requires 0 <= k < |runs| => s.children[k].mid);
    DeadlockIsJam(cap, runs, s);
    Conservation(runs, s);
    hide Total, Part;
    HoldersCount(runs, s, chosen);
    HoldersFirsts(cap, runs, s, chosen);
    var k :| 0 <= k < |s.children| && s.children[k].mid;
    assert chosen[k];
  }

  lemma HoldersCount(runs: seq<int>, s: State, chosen: seq<bool>)
    requires Inv(runs, s) && |chosen| == |runs|
    requires forall k :: 0 <= k < |runs| ==> chosen[k] == s.children[k].mid
    ensures Part(One, chosen, Start(runs).children) == Total(Mid, s.children)
    ensures forall k :: 0 <= k < |runs| && chosen[k] ==> runs[k] > 0
  {
    var ps := Start(runs).children;
    PartOfTotal(Mid, chosen, s.children);
    PartLess(One, ps, Mid, s.children, chosen);
    PartLess(Mid, s.children, One, ps, chosen);
  }

  lemma HoldersFirsts(cap: nat, runs: seq<int>, s: State, chosen: seq<bool>)
    requires Inv(runs, s) && Jammed(cap, s) && Client !in s.queue && |chosen| == |runs|
    requires forall k :: 0 <= k < |runs| ==> chosen[k] == s.children[k].mid
    ensures Total(Mid, s.parents) <= Part(Firsts, chosen, Start(runs).children)
  {
    var ps := Start(runs).children;
    JamSeconds(runs, s);
    forall k | 0 <= k < |runs|
      ensures !chosen[k] ==> Seconds(s.children[k]) == 0
      ensures chosen[k] ==> Seconds(s.children[k]) <= Firsts(ps[k])
    {
      SecondsBound(s.children[k], ps[k]);
    }
    hide Seconds, Firsts, Total, Part;
    PartOfTotal(Seconds, chosen, s.children);
    PartLess(Seconds, s.children, Firsts, ps, chosen);
  }

  lemma SecondsBound(p: Pos, start: Pos)
    requires p.Ok() && start == Pos(p.runs, 0, 0, false)
    ensures p.LoopsDone() ==> Seconds(p) == 0
    ensures Seconds(p) <= Firsts(start)
  {
  }

  // The reply that every waiting parent awaits is still to be sent.
  lemma JamSeconds(runs: seq<int>, s: State)
    requires Inv(runs, s) && Client !in s.queue
    ensures forall k :: 0 <= k < |runs| ==> Seconds(s.children[k]) >= 0
    ensures Total(Mid, s.parents) <= Total(Seconds, s.children)
  {
    TotalLess(Mid, Seconds, s.parents);
  }

  lemma DeadlockIsJam(cap: nat, runs: seq<int>, s: State)
    requires 0 < cap && Inv(runs, s) && Deadlocked(cap, s) && Clogged(cap, s)
    ensures Jammed(cap, s) && Client !in s.queue
  {
    Conservation(runs, s);
    SomePositive(Mid, s.children);
    SomePositive(Mid, s.parents);
    hide Total;
    forall k | 0 <= k < |runs|
      ensures s.parents[k].mid || s.parents[k].LoopsDone()
      ensures s.parents[k].mid ==> Client !in s.queue
      ensures s.children[k].mid || s.children[k].LoopsDone() || Server !in s.queue
    {
      assert !Enabled(cap, s, ByParent(k)) && !Enabled(cap, s, ByChild(k));
    }
    var k :| 0 <= k < |runs| && Mid(s.parents[k]) > 0;
    assert s.queue[0] == Server;
  }

  // ----- leading there

  // Nothing is under way.
  ghost predicate Quiet(s: State) {
    && s.Shape() && !s.SendRefused() && s.queue == []
    && (forall k :: 0 <= k < |s.parents| ==> !s.parents[k].mid && !s.children[k].mid)
  }

  // Parent a and child b do one iteration together.
  lemma Round(cap: nat, runs: seq<int>, s: State, a: nat, b: nat) returns (s': State)
    requires 0 < cap && Reach(cap, runs, s) && Quiet(s)
    requires a < |s.parents| && !s.parents[a].LoopsDone()
    requires b < |s.children| && !s.children[b].LoopsDone()
    ensures Reach(cap, runs, s') && Quiet(s')
    ensures s'.parents == s.parents[a := s.parents[a].Advance()]
    ensures s'.children == s.children[b := s.children[b].Advance()]
    ensures Remaining(s') < Remaining(s)
  {
    hide Reach, Pos.Advance, Remaining;
    var p, c := s.parents[a], s.children[b];
    var s1 := Send(cap, runs, s, a);
    var s2 := Take(cap, runs, s1, b);
    var s3 := Reply(cap, runs, s2, b);
    s' := TakeReply(cap, runs, s3, a);
    MidAdvance(p);
    MidAdvance(c);
  }

  lemma MidAdvance(p: Pos)
    ensures p.(mid := true).Advance() == p.Advance() && !p.Advance().mid
  {
  }

  lemma AdvanceLeft(p: Pos)
    requires p.Ok() && !p.mid && !p.LoopsDone()
    ensures Firsts(p) >= 1 && Firsts(p.Advance()) == Firsts(p) - 1
    ensures Alive(p.Advance()) == if Firsts(p) == 1 then 0 else 1
  {
  }

  // Messages that can be under way at the end.
  ghost function Under(cap: nat, chosen: seq<bool>, s: State): int
    requires |chosen| == |s.children|
  {
    cap + Part(One, chosen, s.children)
  }

  // Some children are chosen, and none of them is through its loops.
  ghost predicate ChosenAlive(chosen: seq<bool>, ps: seq<Pos>) {
    && |chosen| == |ps|
    && (exists k :: 0 <= k < |chosen| && chosen[k])
    && (forall k :: 0 <= k < |chosen| && chosen[k] ==> !ps[k].LoopsDone())
  }

  // Enough parents, and enough loops of the chosen children, are left.
  ghost predicate Left(cap: nat, runs: seq<int>, chosen: seq<bool>, s: State) {
    && 0 < cap && Reach(cap, runs, s) && Quiet(s)
    && |chosen| == |runs| == |s.children| && ChosenAlive(chosen, s.children)
    && Under(cap, chosen, s) <= Total(Alive, s.parents)
    && Under(cap, chosen, s) <= Part(Firsts, chosen, s.children)
  }

  lemma LeftRound(cap: nat, runs: seq<int>, chosen: seq<bool>, s: State, a: nat, b: nat) returns (s': State)
    requires Left(cap, runs, chosen, s) && a < |runs| && b < |runs| && |s.parents| == |runs|
    requires !s.parents[a].LoopsDone() && !s.children[b].LoopsDone()
    requires Firsts(s.parents[a]) >= 2 || Under(cap, chosen, s) < Total(Alive, s.parents)
    requires chosen[b] ==> Firsts(s.children[b]) >= 2 && Under(cap, chosen, s) < Part(Firsts, chosen, s.children)
    ensures Left(cap, runs, chosen, s') && Remaining(s') < Remaining(s)
  {
    ReachInv(cap, runs, s);
    assert InLoops(runs, s.parents) && InLoops(runs, s.children);
    assert !s.parents[a].mid && !s.children[b].mid;
    hide Reach, Inv, Quiet, InLoops, ChosenAlive, Pos.Advance, Pos.LoopsDone, Remaining, Firsts, Total, Part;
    s' := Round(cap, runs, s, a, b);
    AliveRound(runs, s.parents, a);
    ChosenRound(runs, chosen, s.children, b);
  }

  lemma AliveRound(runs: seq<int>, ps: seq<Pos>, a: nat)
    requires InLoops(runs, ps) && a < |ps| && !ps[a].mid && !ps[a].LoopsDone()
    ensures Total(Alive, ps[a := ps[a].Advance()]) == Total(Alive, ps) - if Firsts(ps[a]) >= 2 then 0 else 1
  {
    AdvanceLeft(ps[a]);
    TotalUpdate(Alive, ps, a, ps[a].Advance());
  }

  lemma ChosenRound(runs: seq<int>, chosen: seq<bool>, ps: seq<Pos>, b: nat)
    requires InLoops(runs, ps) && |chosen| == |ps| && b < |ps| && !ps[b].mid && !ps[b].LoopsDone()
    ensures var qs := ps[b := ps[b].Advance()];
            && Part(One, chosen, qs) == Part(One, chosen, ps)
            && Part(Firsts, chosen, qs) == Part(Firsts, chosen, ps) - (if chosen[b] then 1 else 0)
            && (ChosenAlive(chosen, ps) && (chosen[b] ==> Firsts(ps[b]) >= 2) ==> ChosenAlive(chosen, qs))
  {
    AdvanceLeft(ps[b]);
    PartUpdate(One, chosen, ps, b, ps[b].Advance());
    PartUpdate(Firsts, chosen, ps, b, ps[b].Advance());
  }

  lemma FirstsLeft(runs: seq<int>, chosen: seq<bool>, s: State)
    requires Inv(runs, s) && Quiet(s) && |chosen| == |runs|
    ensures Total(Firsts, s.parents) == Total(Firsts, s.children)
    ensures Total(Alive, s.parents) <= Total(Firsts, s.parents)
    ensures Total(Alive, s.parents) < Total(Firsts, s.parents) <==>
            exists a :: 0 <= a < |runs| && Firsts(s.parents[a]) >= 2
    ensures Part(Firsts, chosen, s.children) <= Total(Firsts, s.children)
    ensures Part(Firsts, chosen, s.children) == Total(Firsts, s.children) <==>
            forall b :: 0 <= b < |runs| && !chosen[b] ==> s.children[b].LoopsDone()
  {
    AliveFirsts(runs, s.parents);
    AliveFirsts(runs, s.children);
    TotalLess(Alive, Firsts, s.parents);
    hide Firsts, Alive;
    PartOfTotal(Firsts, chosen, s.children);
  }

  lemma AliveFirsts(runs: seq<int>, ps: seq<Pos>)
    requires InLoops(runs, ps) && forall k :: 0 <= k < |ps| ==> !ps[k].mid
    ensures forall k :: 0 <= k < |ps| ==>
              && 0 <= Alive(ps[k]) <= Firsts(ps[k])
              && (Alive(ps[k]) < Firsts(ps[k]) <==> Firsts(ps[k]) >= 2)
              && (Firsts(ps[k]) == 0 <==> ps[k].LoopsDone())
  {
  }

  // Only the chosen children have loops to do, and only as many parents as
  // can have a message under way.
  ghost predicate Drained(cap: nat, runs: seq<int>, chosen: seq<bool>, s: State) {
    && Left(cap, runs, chosen, s)
    && (forall k :: 0 <= k < |runs| && !chosen[k] ==> s.children[k].LoopsDone())
    && Under(cap, chosen, s) == Total(Alive, s.parents)
  }

  lemma SomeParent(cap: nat, runs: seq<int>, chosen: seq<bool>, s: State) returns (a: nat)
    requires Left(cap, runs, chosen, s) && Inv(runs, s)
    ensures a < |runs| && !s.parents[a].LoopsDone()
    ensures Total(Alive, s.parents) < Total(Firsts, s.parents) ==> Firsts(s.parents[a]) >= 2
  {
    FirstsLeft(runs, chosen, s);
    AliveFirsts(runs, s.parents);
    AliveFirsts(runs, s.children);
    hide Reach, Total, Part, Firsts;
    if Total(Alive, s.parents) < Total(Firsts, s.parents) {
      a :| 0 <= a < |runs| && Firsts(s.parents[a]) >= 2;
    } else {
      SomePositive(Firsts, s.children);
      SomePositive(Firsts, s.parents);
      a :| 0 <= a < |runs| && Firsts(s.parents[a]) > 0;
    }
  }

  lemma SomeChild(cap: nat, runs: seq<int>, chosen: seq<bool>, s: State) returns (b: nat)
    requires Left(cap, runs, chosen, s) && Under(cap, chosen, s) < Part(Firsts, chosen, s.children)
    ensures b < |runs| && chosen[b] && Firsts(s.children[b]) >= 2
  {
    ReachInv(cap, runs, s);
    AliveFirsts(runs, s.children);
    hide Reach, Firsts;
    PartLess(One, s.children, Firsts, s.children, chosen);
    b :| 0 <= b < |runs| && chosen[b] && One(s.children[b]) < Firsts(s.children[b]);
  }

  lemma DrainStep(cap: nat, runs: seq<int>, chosen: seq<bool>, s: State) returns (s': State)
    requires Left(cap, runs, chosen, s) && !Drained(cap, runs, chosen, s)
    ensures Left(cap, runs, chosen, s') && Remaining(s') < Remaining(s)
  {
    ReachInv(cap, runs, s);
    FirstsLeft(runs, chosen, s);
    hide Reach, Total, Part, Remaining, Firsts, Under;
    var a := SomeParent(cap, runs, chosen, s);
    var b: nat;
    if k :| 0 <= k < |runs| && !chosen[k] && !s.children[k].LoopsDone() {
      b := k;
    } else {
      b := SomeChild(cap, runs, chosen, s);
    }
    s' := LeftRound(cap, runs, chosen, s, a, b);
  }

  lemma {:induction false} Drain(cap: nat, runs: seq<int>, chosen: seq<bool>, s: State) returns (s': State)
    requires Left(cap, runs, chosen, s)
    ensures Drained(cap, runs, chosen, s')
    decreases if Inv(runs, s) then Remaining(s) else 0
  {
    if Drained(cap, runs, chosen, s) {
      s' := s;
    } else {
      var t := DrainStep(cap, runs, chosen, s);
      ReachInv(cap, runs, s);
      ReachInv(cap, runs, t);
      RemainingBound(runs, t);
      s' := Drain(cap, runs, chosen, t);
    }
  }

  // The chosen children are the ones that are not through their loops.
  ghost predicate ChosenAlone(chosen: seq<bool>, ps: seq<Pos>) {
    ChosenAlive(chosen, ps) && forall k :: 0 <= k < |ps| && !chosen[k] ==> ps[k].LoopsDone()
  }

  // One by one, the chosen children take a message each.
  ghost predicate Holding(cap: nat, runs: seq<int>, chosen: seq<bool>, s: State) {
    && 0 < cap && Reach(cap, runs, s) && !s.SendRefused() && s.queue == []
    && |chosen| == |runs| == |s.children| && ChosenAlone(chosen, s.children)
    && Under(cap, chosen, s) == Total(Alive, s.parents)
  }

  lemma HoldCount(cap: nat, runs: seq<int>, chosen: seq<bool>, s: State)
    requires Holding(cap, runs, chosen, s) && Inv(runs, s)
    ensures Total(Mid, s.parents) == Total(Mid, s.children) <= Part(One, chosen, s.children)
    ensures (forall k :: 0 <= k < |runs| && chosen[k] ==> s.children[k].mid) ==>
              Total(Mid, s.children) == Part(One, chosen, s.children)
  {
    Conservation(runs, s);
    PartOfTotal(Mid, chosen, s.children);
    PartLess(Mid, s.children, One, s.children, chosen);
  }

  lemma HoldOne(cap: nat, runs: seq<int>, chosen: seq<bool>, s: State, k: nat) returns (s': State)
    requires Holding(cap, runs, chosen, s) && k < |runs| && chosen[k] && !s.children[k].mid
    ensures Holding(cap, runs, chosen, s') && Remaining(s') < Remaining(s)
  {
    ReachInv(cap, runs, s);
    HoldCount(cap, runs, chosen, s);
    hide Reach, Total, Part, Remaining, Inv, Alive, One, ChosenAlone;
    ChosenTakes(chosen, s.children, k);
    var t := SendOne(cap, runs, s);
    assert t.queue == [Server];
    s' := Take(cap, runs, t, k);
  }

  lemma ChosenTakes(chosen: seq<bool>, ps: seq<Pos>, k: nat)
    requires ChosenAlone(chosen, ps) && k < |ps| && chosen[k]
    ensures !ps[k].LoopsDone()
    ensures ChosenAlone(chosen, ps[k := ps[k].(mid := true)])
    ensures Part(One, chosen, ps[k := ps[k].(mid := true)]) == Part(One, chosen, ps)
  {
    PartUpdate(One, chosen, ps, k, ps[k].(mid := true));
  }

  lemma {:induction false} Hold(cap: nat, runs: seq<int>, chosen: seq<bool>, s: State) returns (s': State)
    requires Holding(cap, runs, chosen, s)
    ensures Holding(cap, runs, chosen, s') && forall k :: 0 <= k < |runs| && chosen[k] ==> s'.children[k].mid
    decreases if Inv(runs, s) then Remaining(s) else 0
  {
    if k :| 0 <= k < |runs| && chosen[k] && !s.children[k].mid {
      var t := HoldOne(cap, runs, chosen, s, k);
      ReachInv(cap, runs, s);
      ReachInv(cap, runs, t);
      RemainingBound(runs, t);
      s' := Hold(cap, runs, chosen, t);
    } else {
      s' := s;
    }
  }

  // With the chosen children waiting to reply, the other parents that are not
  // through fill the queue.
  lemma FillUp(cap: nat, runs: seq<int>, chosen: seq<bool>, s: State) returns (s': State)
    requires Holding(cap, runs, chosen, s)
    requires forall k :: 0 <= k < |runs| && chosen[k] ==> s.children[k].mid
    ensures Reach(cap, runs, s') && Jammed(cap, s')
  {
    ReachInv(cap, runs, s);
    HoldCount(cap, runs, chosen, s);
    hide Reach, Total, Part;
    s' := Fill(cap, runs, s);
    ReachInv(cap, runs, s');
    Conservation(runs, s');
    AllMid(runs, s');
  }

  lemma AllMid(runs: seq<int>, s: State)
    requires Inv(runs, s) && Total(Mid, s.parents) == Total(Alive, s.parents)
    ensures forall k :: 0 <= k < |runs| ==> s.parents[k].mid || s.parents[k].LoopsDone()
  {
    TotalLess(Mid, Alive, s.parents);
    forall k | 0 <= k < |runs| ensures s.parents[k].mid || s.parents[k].LoopsDone() {
      assert !(Mid(s.parents[k]) < Alive(s.parents[k]));
    }
  }

  lemma JamReached(cap: nat, runs: seq<int>, chosen: seq<bool>) returns (s: State)
    requires CanJam(cap, runs, chosen)
    ensures Reach(cap, runs, s) && Deadlocked(cap, s)
  {
    ReachStart(cap, runs);
    StartTotals(runs);
    hide Reach, Total, Part;
    assert Left(cap, runs, chosen, Start(runs));
    var s1 := Drain(cap, runs, chosen, Start(runs));
    var s2 := Hold(cap, runs, chosen, s1);
    var s3 := FillUp(cap, runs, chosen, s2);
    s := RunJam(cap, runs, s3);
  }

  // Some interleaving ends in a deadlock without any error being reported
  // exactly when some children can end up holding a reply that does not fit.
  lemma DeadlocksExactly(cap: nat, runs: seq<int>)
    ensures (exists s :: Reach(cap, runs, s) && Deadlocked(cap, s)) <==> exists chosen :: CanJam(cap, runs, chosen)
  {
    if s :| Reach(cap, runs, s) && Deadlocked(cap, s) {
      var chosen := DeadlockJams(cap, runs, s);
    }
    if chosen :| CanJam(cap, runs, chosen) {
      var s := JamReached(cap, runs, chosen);
    }
  }

  // With no more active pairs than iterations in a loop, that is when the
  // queue has room for some message but not for one of every active pair.
  lemma FewPairsDeadlock(cap: nat, runs: seq<int>)
    requires ActivePairs(runs) <= ROUNDS
    ensures (exists s :: Reach(cap, runs, s) && Deadlocked(cap, s)) <==> 0 < cap < ActivePairs(runs)
  {
    if s :| Reach(cap, runs, s) && Deadlocked(cap, s) {
      ReachInv(cap, runs, s);
      NoDeadlock(cap, runs, s);
      CloggedExactly(cap, runs);
    }
    if 0 < cap < ActivePairs(runs) {
      var chosen := ChooseOne(cap, runs);
      var s := JamReached(cap, runs, chosen);
    }
  }

  lemma ChooseOne(cap: nat, runs: seq<int>) returns (chosen: seq<bool>)
    requires 0 < cap < ActivePairs(runs) <= ROUNDS
    ensures CanJam(cap, runs, chosen)
  {
    var ps := Start(runs).children;
    SomePositive(Active, ps);
    var k :| 0 <= k < |runs| && Active(ps[k]) > 0;
    chosen := seq(|runs|, i => i == k);
    PartOne(One, chosen, ps, k);
    PartOne(Firsts, chosen, ps, k);
    assert chosen[k];
  }

  lemma {:induction false} PartOne<T>(f: T -> int, chosen: seq<bool>, s: seq<T>, k: nat)
    requires |chosen| == |s| && forall i :: 0 <= i < |s| ==> (chosen[i] <==> i == k)
    ensures Part(f, chosen, s) == if k < |s| then f(s[k]) else 0
  {
    if |s| == 0 {
    } else {
      PartOne(f, chosen[..|s| - 1], s[..|s| - 1], k);
    }
  }
}
