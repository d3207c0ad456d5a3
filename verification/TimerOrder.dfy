// Callbacks come in the order of registration.
module TimerOrder {
  import opened Basics
  import opened Timers
  import opened TimerRuns

  // The list is in the order in which its timers were registered.
  ghost predicate Rising(owner: seq<nat>, list: seq<nat>) {
    && (forall i | 0 <= i < |list| :: list[i] < |owner|)
    && (forall i, j | 0 <= i < j < |list| :: owner[list[i]] < owner[list[j]])
  }

  ghost predicate Strict(fired: seq<nat>, from: nat) {
    from <= |fired| && forall i, j | from <= i < j < |fired| :: fired[i] < fired[j]
  }

  // Both lists are in order, and so are the callbacks of this call, which come before what
  // is still to be called (all but cur).
  ghost predicate InOrder(s: State, from: nat, cur: int) {
    && Rising(s.owner, s.timers) && Rising(s.owner, s.expired) && Strict(s.fired, from)
    && forall i, k | from <= i < |s.fired| && 0 <= k < |s.expired| && s.expired[k] != cur ::
         s.fired[i] < s.owner[s.expired[k]]
  }

  lemma {:induction false} DropRising(owner: seq<nat>, list: seq<nat>, e: nat)
    requires Rising(owner, list)
    ensures Rising(owner, Drop(list, e))
  {
    if list != [] && list[0] != e {
      DropRising(owner, list[1..], e);
      var rest := Drop(list[1..], e);
      forall i | 0 <= i < |rest|
        ensures owner[list[0]] < owner[rest[i]]
      {
        assert rest[i] in list[1..];
      }
      assert forall i | 0 < i < |Drop(list, e)| :: Drop(list, e)[i] == rest[i - 1];
    }
  }

  lemma {:induction false} PartsRising(owner: seq<nat>, list: seq<nat>, infos: seq<Info>, count: nat)
    requires Rising(owner, list) && |owner| == |infos|
    ensures Rising(owner, Going(list, infos, count)) && Rising(owner, Over(list, infos, count))
  {
    if list != [] {
      var n := |list| - 1;
      PartsRising(owner, list[..n], infos, count);
      LastRising(owner, list, Going(list[..n], infos, count));
      LastRising(owner, list, Over(list[..n], infos, count));
    }
  }

  lemma LastRising(owner: seq<nat>, list: seq<nat>, part: seq<nat>)
    requires Rising(owner, list) && list != [] && Rising(owner, part)
    requires forall i | 0 <= i < |part| :: part[i] in list[..|list| - 1]
    ensures Rising(owner, part + [list[|list| - 1]])
  {
  }

  lemma RegOrder(s: State, time: int, from: nat, cur: int)
    requires Inv(s, cur) && InOrder(s, from, cur)
    ensures InOrder(RegStep(s, time), from, cur)
  {
    if s.pool != [] {
      var e, t := s.pool[0], RegStep(s, time);
      assert e in s.pool;
      InfoPlaced(s, e, cur);
      forall i | 0 <= i < |s.timers|
        ensures s.timers[i] != e && s.owner[s.timers[i]] < |s.regs|
      {
        assert s.timers[i] in s.timers;
        InfoPlaced(s, s.timers[i], cur);
      }
      forall i | 0 <= i < |s.expired|
        ensures s.expired[i] != e
      {
        assert s.expired[i] in s.expired;
      }
    }
  }

  lemma RmvOrder(s: State, e: nat, fate: Fate, from: nat, cur: int)
    requires Inv(s, cur) && InOrder(s, from, cur)
    ensures InOrder(RmvStep(s, e, fate), from, cur)
  {
    hide Drop;
    if e < |s.infos| && s.infos[e].used {
      DropRising(s.owner, s.timers, e);
      DropRising(s.owner, s.expired, e);
      var t := RmvStep(s, e, fate);
      forall i, k | from <= i < |t.fired| && 0 <= k < |t.expired| && t.expired[k] != cur
        ensures t.fired[i] < t.owner[t.expired[k]]
      {
        assert t.expired[k] in s.expired;
      }
    }
  }

  lemma {:induction false} ActedOrder(s: State, acts: seq<Act>, from: nat, cur: int)
    requires Shape(s) && Inv(s, cur) && InOrder(s, from, cur)
    ensures InOrder(Acted(s, acts), from, cur)
    decreases |acts|
  {
    hide Inv, InOrder, RegStep, RmvStep;
    if acts != [] {
      var n := |acts| - 1;
      var t := Acted(s, acts[..n]);
      ActedOrder(s, acts[..n], from, cur);
      ActedInv(s, acts[..n], cur);
      match acts[n]
      case Register(time) => RegOrder(t, time, from, cur);
      case Remove(e) => RmvOrder(t, e, Removed, from, cur);
    }
  }

  lemma FireOrder(s: State, from: nat)
    requires Inv(s, -1) && s.expired != [] && s.infos[s.expired[0]].used && InOrder(s, from, -1)
    ensures InOrder(FireStep(s), from, s.expired[0])
  {
    hide InfoOk, RegOk, Ended;
  }

  lemma CallbackOrder(s: State, acts: seq<Act>, from: nat)
    requires Shape(s) && Inv(s, -1) && s.expired != [] && s.infos[s.expired[0]].used && InOrder(s, from, -1)
    ensures InOrder(Callback(s, acts), from, -1)
  {
    hide Inv, InOrder, Acted, RmvStep;
    var e := s.expired[0];
    FireOrder(s, from);
    FireInv(s);
    ActedOrder(FireStep(s), acts, from, e);
    ActedInv(FireStep(s), acts, e);
    RmvOrder(Acted(FireStep(s), acts), e, Lost, from, e);
    RmvInv(Acted(FireStep(s), acts), e, Lost, e);
    NoneCurrent(Callback(s, acts), from, e);
  }

  lemma NoneCurrent(s: State, from: nat, cur: nat)
    requires InOrder(s, from, cur) && cur !in s.expired
    ensures InOrder(s, from, -1)
  {
  }

  lemma {:induction false} FireAllOrder(s: State, script: seq<seq<Act>>, n: nat, from: nat)
    requires Shape(s) && Inv(s, -1) && InOrder(s, from, -1)
    ensures InOrder(FireAll(s, script, n), from, -1)
    decreases n
  {
    hide Inv, InOrder, Callback;
    if n > 0 && s.expired != [] && s.infos[s.expired[0]].used {
      var acts, rest := if script == [] then [] else script[0], if script == [] then [] else script[1..];
      CallbackInv(s, acts);
      CallbackOrder(s, acts, from);
      FireAllOrder(Callback(s, acts), rest, n - 1, from);
    }
  }

  lemma SweepOrder(s: State, count: nat)
    requires Shape(s) && Rising(s.owner, s.timers) && s.expired == []
    ensures InOrder(Sweep(s, count), |s.fired|, -1)
  {
    hide Going, Over, Counted, Rising;
    PartsRising(s.owner, s.timers, s.infos, count);
    assert s.expired + Over(s.timers, s.infos, count) == Over(s.timers, s.infos, count);
  }

  lemma OpOrder(s: State, op: Op)
    requires Shape(s) && Inv(s, -1) && s.expired == [] && Rising(s.owner, s.timers)
    ensures InOrder(OpStep(s, op), |s.fired|, -1)
  {
    hide Inv, InOrder, FireAll, Sweep, RegStep, RmvStep;
    match op
    case Do(act) =>
      Ordered(s);
      match act {
        case Register(time) => RegOrder(s, time, |s.fired|, -1);
        case Remove(e) => RmvOrder(s, e, Removed, |s.fired|, -1);
      }
    case Ticks(count, script) =>
      SweepInv(s, count);
      SweepOrder(s, count);
      FireAllOrder(Sweep(s, count), script, |s.infos|, |s.fired|);
  }

  lemma Ordered(s: State)
    requires s.expired == [] && Rising(s.owner, s.timers)
    ensures InOrder(s, |s.fired|, -1)
  {
  }

  lemma {:induction false} TimersRising(size: nat, ops: seq<Op>)
    ensures Rising(Run(size, ops).owner, Run(size, ops).timers)
    decreases |ops|
  {
    hide Run, Inv, OpStep, Rising;
    if ops == [] {
      NoOps(size);
      EmptyRising(size);
    } else {
      var init := ops[..|ops| - 1];
      TimersRising(size, init);
      RunInv(size, init);
      OneMore(size, ops);
      OpOrder(Run(size, init), ops[|ops| - 1]);
    }
  }

  lemma EmptyRising(size: nat)
    ensures Rising(Init(size).owner, Init(size).timers)
  {
  }

  /** In every run the callbacks of one call come in the order of their registrations. */
  lemma CallOrder(size: nat, ops: seq<Op>, q: nat)
    requires q < |ops|
    ensures Strict(Run(size, ops[..q + 1]).fired, |Run(size, ops[..q]).fired|)
  {
    hide Run, Inv, OpStep, Rising, Strict;
    var s := Run(size, ops[..q]);
    TimersRising(size, ops[..q]);
    RunInv(size, ops[..q]);
    OneMore(size, ops[..q + 1]);
    assert ops[..q + 1][..q] == ops[..q];
    OpOrder(s, ops[q]);
  }
}
