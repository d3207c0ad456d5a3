// When timers fire, in terms of the operations alone: the times asked for and the ticks
// counted by the calls.
module TimerRuns {
  import opened Basics
  import opened Timers

  // A registration that found a free info: the time asked for, and the number of
  // operations up to the one in which it was made.
  datatype Wish = Wish(time: int, op: nat)

  // The times of the registrations that these actions make.
  function AskedActs(s: State, acts: seq<Act>): seq<int>
    requires Shape(s)
    decreases |acts|
  {
    if acts == [] then []
    else
      var n := |acts| - 1;
      AskedActs(s, acts[..n]) +
      if acts[n].Register? && Acted(s, acts[..n]).pool != [] then [acts[n].time] else []
  }

  function AskedFire(s: State, script: seq<seq<Act>>, n: nat): seq<int>
    requires Shape(s)
    decreases n
  {
    if n == 0 || s.expired == [] || !s.infos[s.expired[0]].used then []
    else
      var acts, rest := if script == [] then [] else script[0], if script == [] then [] else script[1..];
      AskedActs(FireStep(s), acts) + AskedFire(Callback(s, acts), rest, n - 1)
  }

  function Wishes(times: seq<int>, op: nat): (w: seq<Wish>)
    ensures |w| == |times|
  {
    seq(|times|, i requires 0 <= i < |times| => Wish(times[i], op))
  }

  function AskedOp(s: State, op: Op): seq<int>
    requires Shape(s)
  {
    match op
    case Do(act) => AskedActs(s, [act])
    case Ticks(count, script) => AskedFire(Sweep(s, count), script, |s.infos|)
  }

  function Asked(size: nat, ops: seq<Op>): seq<Wish>
    decreases |ops|
  {
    if ops == [] then []
    else
      var n := |ops| - 1;
      Asked(size, ops[..n]) + Wishes(AskedOp(Run(size, ops[..n]), ops[n]), n + 1)
  }

  // The tick calls among the operations, and the ticks they count.

  function TickOps(ops: seq<Op>): nat
    decreases |ops|
  {
    if ops == [] then 0 else TickOps(ops[..|ops| - 1]) + if ops[|ops| - 1].Ticks? then 1 else 0
  }

  function Total(ops: seq<Op>): nat
    decreases |ops|
  {
    if ops == [] then 0
    else Total(ops[..|ops| - 1]) + if ops[|ops| - 1].Ticks? then ops[|ops| - 1].count else 0
  }

  // Operation q is the first call after operation p by which the time is counted.
  ghost predicate Reaches(ops: seq<Op>, p: nat, q: nat, time: int) {
    && p <= q < |ops| && ops[q].Ticks? && time <= Total(ops[p..q + 1])
    && forall x | p <= x < q && ops[x].Ticks? :: Total(ops[p..x + 1]) < time
  }

  // The callback of registration n is called in operation q.
  ghost predicate FiresIn(size: nat, ops: seq<Op>, q: nat, n: nat)
    requires q < |ops|
  {
    n !in Run(size, ops[..q]).fired && n in Run(size, ops[..q + 1]).fired
  }

  // The registrations on record are those from index m on; times are what they asked for.
  ghost predicate Recorded(s: State, m: nat, times: seq<int>, since: nat) {
    && |s.regs| == m + |times|
    && forall i | 0 <= i < |times| :: s.regs[m + i].time == times[i] && s.regs[m + i].since == since
  }

  // What a step leaves of the record: earlier registrations keep all but their fate, and
  // that only changes from waiting.
  ghost predicate Later(s: State, t: State) {
    && |s.regs| <= |t.regs| && |s.fired| <= |t.fired| && t.fired[..|s.fired|] == s.fired
    && forall n | 0 <= n < |s.regs| :: LaterReg(s.regs[n], t.regs[n])
  }

  predicate LaterReg(r: Reg, q: Reg) { q == r.(fate := q.fate) && (r.fate.Waiting? || q.fate == r.fate) }

  lemma LaterThen(s: State, t: State, u: State)
    requires Later(s, t) && Later(t, u)
    ensures Later(s, u)
  {
    assert u.fired[..|s.fired|] == u.fired[..|t.fired|][..|s.fired|];
    forall n | 0 <= n < |s.regs|
      ensures LaterReg(s.regs[n], u.regs[n])
    {
      assert LaterReg(s.regs[n], t.regs[n]) && LaterReg(t.regs[n], u.regs[n]);
    }
  }

  lemma LaterRecorded(s: State, t: State, m: nat, times: seq<int>, since: nat)
    requires Later(s, t) && |t.regs| == |s.regs| && Recorded(s, m, times, since)
    ensures Recorded(t, m, times, since)
  {
    forall i | 0 <= i < |times|
      ensures t.regs[m + i].time == times[i] && t.regs[m + i].since == since
    {
      assert LaterReg(s.regs[m + i], t.regs[m + i]);
    }
  }

  lemma ActLater(s: State, act: Act)
    requires Shape(s)
    ensures Later(s, ActStep(s, act)) && ActStep(s, act).clocks == s.clocks
    ensures Recorded(ActStep(s, act), |s.regs|, if act.Register? && s.pool != [] then [act.time] else [], Calls(s))
  {
    hide Drop;
  }

  lemma {:induction false} ActedLater(s: State, acts: seq<Act>)
    requires Shape(s)
    ensures Later(s, Acted(s, acts)) && Acted(s, acts).clocks == s.clocks
    ensures Recorded(Acted(s, acts), |s.regs|, AskedActs(s, acts), Calls(s))
    decreases |acts|
  {
    hide Later, ActStep;
    if acts == [] {
      LaterSame(s);
    } else {
      var n := |acts| - 1;
      ActedLater(s, acts[..n]);
      var t := Acted(s, acts[..n]);
      ActLater(t, acts[n]);
      LaterThen(s, t, Acted(s, acts));
      RecordedMore(t, Acted(s, acts), |s.regs|, AskedActs(s, acts[..n]), Calls(s),
                   if acts[n].Register? && t.pool != [] then [acts[n].time] else []);
    }
  }

  lemma LaterSame(s: State)
    ensures Later(s, s)
  {
  }

  lemma RecordedMore(s: State, t: State, m: nat, times: seq<int>, since: nat, more: seq<int>)
    requires Later(s, t) && Recorded(s, m, times, since) && Recorded(t, |s.regs|, more, since)
    ensures Recorded(t, m, times + more, since)
  {
    forall i | 0 <= i < |times + more|
      ensures t.regs[m + i].time == (times + more)[i] && t.regs[m + i].since == since
    {
      if i < |times| {
        assert LaterReg(s.regs[m + i], t.regs[m + i]);
      } else {
        assert t.regs[|s.regs| + (i - |times|)].time == more[i - |times|];
      }
    }
  }

  lemma CallbackLater(s: State, acts: seq<Act>)
    requires Shape(s) && s.expired != [] && s.infos[s.expired[0]].used
    ensures Later(s, Callback(s, acts)) && Callback(s, acts).clocks == s.clocks
    ensures Recorded(Callback(s, acts), |s.regs|, AskedActs(FireStep(s), acts), Calls(s))
  {
    hide Acted, AskedActs, Drop;
    var t := FireStep(s);
    ActedLater(t, acts);
    var u := Acted(t, acts);
    assert Later(s, t);
    LaterThen(s, t, u);
    assert Later(u, Callback(s, acts));
    LaterThen(s, u, Callback(s, acts));
    LaterRecorded(u, Callback(s, acts), |s.regs|, AskedActs(t, acts), Calls(s));
  }

  lemma {:induction false} FireAllLater(s: State, script: seq<seq<Act>>, n: nat)
    requires Shape(s)
    ensures Later(s, FireAll(s, script, n)) && FireAll(s, script, n).clocks == s.clocks
    ensures Recorded(FireAll(s, script, n), |s.regs|, AskedFire(s, script, n), Calls(s))
    decreases n
  {
    hide Later, Callback, AskedActs, Recorded;
    if n > 0 && s.expired != [] && s.infos[s.expired[0]].used {
      var acts, rest := if script == [] then [] else script[0], if script == [] then [] else script[1..];
      CallbackLater(s, acts);
      var t := Callback(s, acts);
      FireAllLater(t, rest, n - 1);
      LaterThen(s, t, FireAll(s, script, n));
      RecordedMore(t, FireAll(s, script, n), |s.regs|, AskedActs(FireStep(s), acts), Calls(s),
                   AskedFire(t, rest, n - 1));
    } else {
      LaterSame(s);
      NothingAsked(s);
    }
  }

  lemma NothingAsked(s: State)
    requires Shape(s)
    ensures Recorded(s, |s.regs|, [], Calls(s))
  {
  }

  lemma SweepLater(s: State, count: nat)
    requires Shape(s)
    ensures Later(s, Sweep(s, count)) && |Sweep(s, count).regs| == |s.regs|
    ensures Sweep(s, count).clocks == s.clocks + [Clock(s) + count]
  {
    hide Going, Over, Counted;
  }

  // ---------- whole runs ----------

  function Clocked(clocks: seq<nat>, op: Op): seq<nat>
    requires clocks != []
  {
    if op.Ticks? then clocks + [clocks[|clocks| - 1] + op.count] else clocks
  }

  lemma OpLater(s: State, op: Op)
    requires Shape(s)
    ensures Later(s, OpStep(s, op)) && OpStep(s, op).clocks == Clocked(s.clocks, op)
    ensures Recorded(OpStep(s, op), |s.regs|, AskedOp(s, op), Calls(OpStep(s, op)))
  {
    hide Later, Acted, AskedActs, AskedFire, FireAll, Sweep, ActStep, Recorded;
    match op
    case Do(act) =>
      ActedOne(s, act);
      ActedLater(s, [act]);
    case Ticks(count, script) =>
      SweepLater(s, count);
      var u := Sweep(s, count);
      FireAllLater(u, script, |s.infos|);
      LaterThen(s, u, FireAll(u, script, |s.infos|));
  }

  lemma FromRecorded(s: State, m: nat, times: seq<int>, since: nat)
    requires Recorded(s, m, times, since)
    ensures |s.regs| == m + |times|
    ensures forall i | m <= i < |s.regs| :: s.regs[i].time == times[i - m] && s.regs[i].since == since
  {
    forall i | m <= i < |s.regs|
      ensures s.regs[i].time == times[i - m] && s.regs[i].since == since
    {
      assert s.regs[m + (i - m)].time == times[i - m];
    }
  }

  // What the record holds of registration n is what was asked for.
  ghost predicate AsAsked(size: nat, ops: seq<Op>, n: nat)
    requires n < |Asked(size, ops)|
  {
    var s, w := Run(size, ops), Asked(size, ops)[n];
    n < |s.regs| && 1 <= w.op <= |ops| && s.regs[n].time == w.time && s.regs[n].since == TickOps(ops[..w.op])
  }

  lemma OneMore(size: nat, ops: seq<Op>)
    requires ops != []
    ensures Run(size, ops) == OpStep(Run(size, ops[..|ops| - 1]), ops[|ops| - 1])
    ensures Asked(size, ops) ==
            Asked(size, ops[..|ops| - 1]) + Wishes(AskedOp(Run(size, ops[..|ops| - 1]), ops[|ops| - 1]), |ops|)
  {
    hide OpStep, AskedOp, Wishes;
  }

  lemma {:induction false} RunClock(size: nat, ops: seq<Op>)
    ensures Calls(Run(size, ops)) == TickOps(ops) && Clock(Run(size, ops)) == Total(ops)
    decreases |ops|
  {
    hide Later, OpStep, AskedOp, Run, Asked, Shape, Recorded;
    if ops == [] {
      NoOps(size);
    } else {
      RunClock(size, ops[..|ops| - 1]);
      OneMore(size, ops);
      OpLater(Run(size, ops[..|ops| - 1]), ops[|ops| - 1]);
    }
  }

  lemma {:induction false} RunAsked(size: nat, ops: seq<Op>)
    ensures |Run(size, ops).regs| == |Asked(size, ops)|
    ensures forall n | 0 <= n < |Asked(size, ops)| :: AsAsked(size, ops, n)
    decreases |ops|
  {
    hide Later, OpStep, AskedOp, Run, Asked, Shape, AsAsked, Recorded, Wishes;
    if ops == [] {
      NoOps(size);
    } else {
      var m := |ops| - 1;
      var s, t := Run(size, ops[..m]), Run(size, ops);
      RunAsked(size, ops[..m]);
      OneMore(size, ops);
      OpLater(s, ops[m]);
      FromRecorded(t, |s.regs|, AskedOp(s, ops[m]), Calls(t));
      forall n | 0 <= n < |Asked(size, ops)|
        ensures AsAsked(size, ops, n)
      {
        if n < |Asked(size, ops[..m])| {
          AskedBefore(size, ops, n);
        } else {
          AskedNow(size, ops, n);
        }
      }
    }
  }

  lemma AskedBefore(size: nat, ops: seq<Op>, n: nat)
    requires ops != [] && n < |Asked(size, ops[..|ops| - 1])| && n < |Asked(size, ops)|
    requires AsAsked(size, ops[..|ops| - 1], n)
    ensures AsAsked(size, ops, n)
  {
    hide Later, OpStep, AskedOp, Run, Asked, Shape, Recorded, Wishes;
    var init := ops[..|ops| - 1];
    OneMore(size, ops);
    OpLater(Run(size, init), ops[|ops| - 1]);
    LaterAt(Run(size, init), Run(size, ops), n);
    assert init[..Asked(size, init)[n].op] == ops[..Asked(size, init)[n].op];
  }

  lemma AskedNow(size: nat, ops: seq<Op>, n: nat)
    requires ops != [] && |Asked(size, ops[..|ops| - 1])| == |Run(size, ops[..|ops| - 1]).regs| <= n
    requires n < |Asked(size, ops)|
    ensures AsAsked(size, ops, n)
  {
    hide Later, OpStep, AskedOp, Run, Asked, Shape, Recorded;
    var m := |ops| - 1;
    var s, t := Run(size, ops[..m]), Run(size, ops);
    OneMore(size, ops);
    OpLater(s, ops[m]);
    FromRecorded(t, |s.regs|, AskedOp(s, ops[m]), Calls(t));
    RunClock(size, ops);
    assert ops[..|ops|] == ops;
  }

  lemma NoOps(size: nat)
    ensures Run(size, []) == Init(size) && Asked(size, []) == []
  {
  }

  lemma LaterAt(s: State, t: State, n: nat)
    requires Later(s, t) && n < |s.regs|
    ensures n < |t.regs| && LaterReg(s.regs[n], t.regs[n])
  {
  }

  lemma {:induction false} RunLater(size: nat, ops: seq<Op>, x: nat)
    requires x <= |ops|
    ensures Later(Run(size, ops[..x]), Run(size, ops))
    decreases |ops|
  {
    hide Later, Run, OpStep, Asked;
    if x == |ops| {
      assert ops[..x] == ops;
      LaterSame(Run(size, ops));
    } else {
      var init := ops[..|ops| - 1];
      RunLater(size, init, x);
      assert init[..x] == ops[..x];
      OneMore(size, ops);
      OpLater(Run(size, init), ops[|ops| - 1]);
      LaterThen(Run(size, ops[..x]), Run(size, init), Run(size, ops));
    }
  }

  // The clock after the calls among the first x operations is the sum of their ticks.
  lemma {:induction false} ClocksAt(size: nat, ops: seq<Op>, x: nat)
    requires x <= |ops|
    ensures var c := Run(size, ops).clocks; var k := TickOps(ops[..x]);
      && k < |c| && c[k] == Total(ops[..x]) && Run(size, ops[..x]).clocks == c[..k + 1]
    decreases |ops|
  {
    hide Later, Run, OpStep, Asked, AskedOp;
    RunClock(size, ops[..x]);
    if x == |ops| {
      assert ops[..x] == ops;
    } else {
      var init := ops[..|ops| - 1];
      ClocksAt(size, init, x);
      assert init[..x] == ops[..x];
      RunClock(size, init);
      OneMore(size, ops);
      OpLater(Run(size, init), ops[|ops| - 1]);
    }
  }

  lemma {:induction false} TotalSplit(ops: seq<Op>, p: nat, q: nat)
    requires p <= q <= |ops|
    ensures Total(ops[..q]) == Total(ops[..p]) + Total(ops[p..q])
    decreases q
  {
    if p < q {
      TotalSplit(ops, p, q - 1);
      assert ops[..q][..q - 1] == ops[..q - 1] && ops[p..q][..q - p - 1] == ops[p..q - 1];
    }
  }

  lemma {:induction false} TicksGrow(ops: seq<Op>, p: nat, q: nat)
    requires p <= q <= |ops|
    ensures TickOps(ops[..p]) <= TickOps(ops[..q])
    ensures q < |ops| && ops[q].Ticks? ==> TickOps(ops[..q + 1]) == TickOps(ops[..q]) + 1
    decreases q
  {
    if q < |ops| {
      assert ops[..q + 1][..q] == ops[..q];
    }
    if p < q {
      TicksGrow(ops, p, q - 1);
      assert ops[..q][..q - 1] == ops[..q - 1];
    }
  }

  // Call number j is one of the operations.
  lemma {:induction false} FindTick(ops: seq<Op>, j: nat) returns (x: nat)
    requires 0 < j <= TickOps(ops)
    ensures x < |ops| && ops[x].Ticks? && TickOps(ops[..x + 1]) == j && TickOps(ops[..x]) == j - 1
    decreases |ops|
  {
    var n := |ops| - 1;
    assert ops[..n + 1] == ops;
    if j == TickOps(ops) && ops[n].Ticks? {
      x := n;
    } else {
      x := FindTick(ops[..n], j);
      assert ops[..n][..x] == ops[..x] && ops[..n][..x + 1] == ops[..x + 1];
    }
  }

  // The first call by which the time is counted, in terms of clocks and of operations.
  lemma ReachesIff(size: nat, ops: seq<Op>, n: nat, q: nat)
    requires n < |Asked(size, ops)| && q < |ops| && ops[q].Ticks?
    ensures n < |Run(size, ops).regs|
    ensures var s, w := Run(size, ops), Asked(size, ops)[n];
            FirstReach(s.clocks, s.regs[n], TickOps(ops[..q + 1])) <==> Reaches(ops, w.op, q, w.time)
  {
    hide Run, Asked, TickOps, Total;
    RunAsked(size, ops);
    var s, w := Run(size, ops), Asked(size, ops)[n];
    assert AsAsked(size, ops, n);
    var c, p := s.clocks, w.op;
    ClocksAt(size, ops, p);
    ClocksAt(size, ops, q + 1);
    TicksGrow(ops, q, q);
    if p <= q {
      TicksGrow(ops, p, q);
      TotalSplit(ops, p, q + 1);
      BeforeIff(size, ops, n, q);
    } else {
      TicksGrow(ops, q + 1, p);
    }
  }

  lemma BeforeIff(size: nat, ops: seq<Op>, n: nat, q: nat)
    requires n < |Asked(size, ops)| && q < |ops| && ops[q].Ticks? && Asked(size, ops)[n].op <= q
    ensures n < |Run(size, ops).regs|
    ensures var s, w := Run(size, ops), Asked(size, ops)[n];
            NotYet(s.clocks, s.regs[n], TickOps(ops[..q])) <==>
            forall x | w.op <= x < q && ops[x].Ticks? :: Total(ops[w.op..x + 1]) < w.time
  {
    hide Run, Asked, TickOps, Total;
    RunAsked(size, ops);
    var s, w := Run(size, ops), Asked(size, ops)[n];
    assert AsAsked(size, ops, n);
    var c, p := s.clocks, w.op;
    ClocksAt(size, ops, p);
    ClocksAt(size, ops, q);
    TicksGrow(ops, p, q);
    if NotYet(c, s.regs[n], TickOps(ops[..q])) {
      forall x | p <= x < q && ops[x].Ticks?
        ensures Total(ops[p..x + 1]) < w.time
      {
        ClocksAt(size, ops, x + 1);
        TicksGrow(ops, p, x);
        TicksGrow(ops, x + 1, q);
        TotalSplit(ops, p, x + 1);
      }
    }
    if forall x | p <= x < q && ops[x].Ticks? :: Total(ops[p..x + 1]) < w.time {
      forall j | s.regs[n].since < j <= TickOps(ops[..q])
        ensures c[j] < c[s.regs[n].since] + w.time
      {
        var x := FindTick(ops[..q], j);
        assert ops[..q][..x + 1] == ops[..x + 1] && ops[..q][..x] == ops[..x];
        if x < p {
          TicksGrow(ops, x + 1, p);
        }
        ClocksAt(size, ops, x + 1);
        TotalSplit(ops, p, x + 1);
      }
    }
  }

  // A registration that has fired in the end had fired by operation x if and only if its
  // call was among the first x operations.
  lemma FiredBy(size: nat, ops: seq<Op>, n: nat, x: nat)
    requires n < |Run(size, ops).regs| && x <= |ops| && Run(size, ops).regs[n].fate.Fired?
    ensures n in Run(size, ops[..x]).fired <==> Run(size, ops).regs[n].fate.call <= TickOps(ops[..x])
  {
    hide Run, TickOps, Total, Later, Shape, InfoOk;
    RunInv(size, ops);
    RunInv(size, ops[..x]);
    RunLater(size, ops, x);
    ClocksAt(size, ops, x);
    RunClock(size, ops[..x]);
    var s, t := Run(size, ops[..x]), Run(size, ops);
    if n < |s.regs| {
      LaterAt(s, t, n);
      StateOf(size, ops[..x], n);
      StateOf(size, ops, n);
    } else {
      NotYetThere(size, ops, n, x);
      StateOf(size, ops, n);
    }
  }

  // What the invariant says about one registration.
  lemma StateOf(size: nat, ops: seq<Op>, n: nat)
    requires n < |Run(size, ops).regs|
    ensures var s := Run(size, ops); var r := s.regs[n];
      && (n in s.fired <==> r.fate.Fired?) && (r.fate.Fired? ==> FirstReach(s.clocks, r, r.fate.call))
      && (r.fate.Waiting? ==> NotYet(s.clocks, r, Calls(s)))
  {
    hide Run;
    RunInv(size, ops);
    var s := Run(size, ops);
    assert RegOk(s, n) && InfoOk(s, s.regs[n].id, -1);
  }

  lemma {:induction false} AskedLater(size: nat, ops: seq<Op>, x: nat, n: nat)
    requires x <= |ops| && |Asked(size, ops[..x])| <= n < |Asked(size, ops)|
    ensures Asked(size, ops)[n].op > x
    decreases |ops|
  {
    hide Run, AskedOp;
    assert ops[..|ops|] == ops;
    if x < |ops| {
      var init := ops[..|ops| - 1];
      OneMore(size, ops);
      assert init[..x] == ops[..x];
      if n < |Asked(size, init)| {
        AskedLater(size, init, x, n);
      }
    }
  }

  lemma NotYetThere(size: nat, ops: seq<Op>, n: nat, x: nat)
    requires x <= |ops| && |Run(size, ops[..x]).regs| <= n < |Run(size, ops).regs|
    ensures n !in Run(size, ops[..x]).fired && TickOps(ops[..x]) <= Run(size, ops).regs[n].since
  {
    hide Run, Asked, TickOps;
    RunAsked(size, ops);
    RunAsked(size, ops[..x]);
    AskedLater(size, ops, x, n);
    assert AsAsked(size, ops, n);
    TicksGrow(ops, x, Asked(size, ops)[n].op);
    assert Shape(Run(size, ops[..x]));
  }

  /**
   In every run, for every registration that was made, at the top or inside a callback: if
   it is neither removed nor lost, its callback is called in operation q if and only if that
   is the first call by which the ticks after the registration amount to the time asked for.
   */
  lemma ExactlyOnce(size: nat, ops: seq<Op>, n: nat, q: nat)
    requires n < |Asked(size, ops)| && q < |ops|
    ensures n < |Run(size, ops).regs| && NoDup(Run(size, ops).fired)
    ensures var w, fate := Asked(size, ops)[n], Run(size, ops).regs[n].fate;
            !fate.Removed? && !fate.Lost? ==> (FiresIn(size, ops, q, n) <==> Reaches(ops, w.op, q, w.time))
  {
    hide Run, Asked, TickOps, Total, Later, Shape, InfoOk, Reaches;
    RunAsked(size, ops);
    RunInv(size, ops);
    var s := Run(size, ops);
    InvParts(s, -1);
    StateOf(size, ops, n);
    OpTicks(ops, q);
    if s.regs[n].fate.Fired? {
      FiredBy(size, ops, n, q);
      FiredBy(size, ops, n, q + 1);
      FirstOnly(s.clocks, s.regs[n], s.regs[n].fate.call);
    } else {
      NeverFired(size, ops, n, q + 1);
    }
    if ops[q].Ticks? {
      ReachesIff(size, ops, n, q);
      ClocksAt(size, ops, q + 1);
      RunClock(size, ops);
      TicksGrow(ops, q + 1, |ops|);
    } else {
      OnlyTicks(ops, q);
    }
  }

  lemma OnlyTicks(ops: seq<Op>, q: nat)
    requires q < |ops| && !ops[q].Ticks?
    ensures forall p, time :: !Reaches(ops, p, q, time)
  {
  }

  lemma OpTicks(ops: seq<Op>, q: nat)
    requires q < |ops|
    ensures TickOps(ops[..q + 1]) == TickOps(ops[..q]) + if ops[q].Ticks? then 1 else 0
  {
    assert ops[..q + 1][..q] == ops[..q];
  }

  // There is only one such call.
  lemma FirstOnly(clocks: seq<nat>, r: Reg, j: nat)
    requires FirstReach(clocks, r, j)
    ensures forall k :: FirstReach(clocks, r, k) ==> k == j
  {
  }

  lemma NeverFired(size: nat, ops: seq<Op>, n: nat, x: nat)
    requires n < |Run(size, ops).regs| && x <= |ops| && !Run(size, ops).regs[n].fate.Fired?
    ensures n !in Run(size, ops[..x]).fired
  {
    hide Run, Later;
    RunLater(size, ops, x);
    StateOf(size, ops, n);
    FiredStays(Run(size, ops[..x]), Run(size, ops), n);
  }

  lemma FiredStays(s: State, t: State, n: nat)
    requires Later(s, t)
    ensures n in s.fired ==> n in t.fired
  {
    assert forall i | 0 <= i < |s.fired| :: s.fired[i] == t.fired[i];
  }

  // A timer that waits and is removed never fires.
  lemma RemovedNever(size: nat, ops: seq<Op>, e: nat, rest: seq<Op>)
    requires e < |Run(size, ops).infos| && Run(size, ops).infos[e].used
    ensures var s := Run(size, ops); var n := s.owner[e];
      && n < |s.regs| && s.regs[n].id == e && s.regs[n].fate.Waiting? && n !in s.fired
      && n !in Run(size, ops + [Do(Remove(e))] + rest).fired
  {
    hide Later, Drop;
    var s := Run(size, ops);
    var n := s.owner[e];
    RunInv(size, ops);
    assert InfoOk(s, e, -1) && RegOk(s, n);
    var more := ops + [Do(Remove(e))];
    OneMore(size, more);
    assert more[..|more| - 1] == ops;
    assert Run(size, more) == RmvStep(s, e, Removed);
    assert Run(size, more).regs[n].fate.Removed?;
    var all := more + rest;
    assert all[..|more|] == more;
    RunLater(size, all, |more|);
    LaterAt(Run(size, more), Run(size, all), n);
    StateOf(size, all, n);
  }

  // The operation asks for the removal of info e, itself or in a callback.
  ghost predicate Names(op: Op, e: nat) {
    match op
    case Do(act) => act == Remove(e)
    case Ticks(_, script) => exists i | 0 <= i < |script| :: Remove(e) in script[i]
  }

  // Registration n was removed on request before, or is not now.
  ghost predicate OldRemoval(s: State, t: State, n: nat) {
    n < |t.regs| && t.regs[n].fate.Removed? ==> n < |s.regs| && s.regs[n].fate.Removed?
  }

  lemma {:induction false} ActedRemoved(s: State, acts: seq<Act>, cur: int, n: nat)
    requires Shape(s) && Inv(s, cur) && n < |Acted(s, acts).regs|
    ensures OldRemoval(s, Acted(s, acts), n) || Remove(Acted(s, acts).regs[n].id) in acts
    decreases |acts|
  {
    hide Inv, Later, ActStep;
    if acts != [] {
      var m := |acts| - 1;
      var t := Acted(s, acts[..m]);
      ActedInv(s, acts[..m], cur);
      ActRemoved(t, acts[m], cur, n);
      if n < |t.regs| {
        ActedRemoved(s, acts[..m], cur, n);
        ActLater(t, acts[m]);
        LaterAt(t, Acted(s, acts), n);
      }
    }
  }

  lemma ActRemoved(s: State, act: Act, cur: int, n: nat)
    requires Shape(s) && Inv(s, cur) && n < |ActStep(s, act).regs|
    ensures OldRemoval(s, ActStep(s, act), n) || act == Remove(ActStep(s, act).regs[n].id)
  {
    hide Drop;
    if act.Remove? && act.e < |s.infos| {
      assert InfoOk(s, act.e, cur);
    }
  }

  lemma {:induction false} FireAllRemoved(s: State, script: seq<seq<Act>>, k: nat, n: nat)
    requires Shape(s) && Inv(s, -1) && n < |FireAll(s, script, k).regs|
    ensures OldRemoval(s, FireAll(s, script, k), n) ||
            exists i | 0 <= i < |script| :: Remove(FireAll(s, script, k).regs[n].id) in script[i]
    decreases k
  {
    hide Inv, Later, Callback;
    if k > 0 && s.expired != [] && s.infos[s.expired[0]].used {
      var acts, rest := if script == [] then [] else script[0], if script == [] then [] else script[1..];
      var t := Callback(s, acts);
      CallbackInv(s, acts);
      FireAllRemoved(t, rest, k - 1, n);
      FireAllLater(t, rest, k - 1);
      if n < |t.regs| {
        CallbackRemoved(s, acts, n);
        LaterAt(t, FireAll(s, script, k), n);
      }
      if i :| 0 <= i < |rest| && Remove(FireAll(s, script, k).regs[n].id) in rest[i] {
        assert script[i + 1] == rest[i];
      }
    }
  }

  lemma CallbackRemoved(s: State, acts: seq<Act>, n: nat)
    requires Shape(s) && Inv(s, -1) && s.expired != [] && s.infos[s.expired[0]].used && n < |Callback(s, acts).regs|
    ensures OldRemoval(s, Callback(s, acts), n) || Remove(Callback(s, acts).regs[n].id) in acts
  {
    hide Inv, Acted, Drop;
    FireInv(s);
    ActedRemoved(FireStep(s), acts, s.expired[0], n);
  }

  lemma OpRemoved(s: State, op: Op, n: nat)
    requires Shape(s) && Inv(s, -1) && s.expired == [] && n < |OpStep(s, op).regs|
    ensures OldRemoval(s, OpStep(s, op), n) || Names(op, OpStep(s, op).regs[n].id)
  {
    hide Inv, FireAll, Sweep, ActStep;
    match op
    case Do(act) => ActRemoved(s, act, -1, n);
    case Ticks(count, script) =>
      SweepInv(s, count);
      SweepRegs(s, count);
      FireAllRemoved(Sweep(s, count), script, |s.infos|, n);
  }

  lemma SweepRegs(s: State, count: nat)
    requires Shape(s)
    ensures Sweep(s, count).regs == s.regs
  {
  }

  // A registration is removed only by an operation that names its info, not before the one
  // in which it was made.
  lemma {:induction false} RemovedNamed(size: nat, ops: seq<Op>, n: nat)
    requires n < |Asked(size, ops)| == |Run(size, ops).regs| && Run(size, ops).regs[n].fate.Removed?
    ensures exists x | 0 <= x < |ops| ::
              Asked(size, ops)[n].op <= x + 1 && Names(ops[x], Run(size, ops).regs[n].id)
    decreases |ops|
  {
    hide Later, OpStep, AskedOp, Run, Asked, Shape, Recorded, Wishes, Inv, Names;
    if ops == [] {
      NoOps(size);
    } else {
      var m := |ops| - 1;
      var init := ops[..m];
      var s, t := Run(size, init), Run(size, ops);
      RunAsked(size, init);
      RunAsked(size, ops);
      assert AsAsked(size, ops, n);
      OneMore(size, ops);
      RunInv(size, init);
      OpLater(s, ops[m]);
      OpRemoved(s, ops[m], n);
      if !Names(ops[m], t.regs[n].id) {
        RemovedNamed(size, init, n);
        LaterAt(s, t, n);
        var x :| 0 <= x < |init| && Asked(size, init)[n].op <= x + 1 && Names(init[x], s.regs[n].id);
        assert Asked(size, ops)[n] == Asked(size, init)[n] && ops[x] == init[x];
      }
    }
  }

  /**
   So in every run in which nobody asks for the removal of its info any more and no callback
   gets its own info back, it fires then and only then.
   */
  lemma FiresOnTime(size: nat, ops: seq<Op>, n: nat, q: nat)
    requires n < |Asked(size, ops)| == |Run(size, ops).regs| && q < |ops| && RunRegainsNone(size, ops)
    requires forall x | 0 <= x < |ops| && Asked(size, ops)[n].op <= x + 1 ::
               !Names(ops[x], Run(size, ops).regs[n].id)
    ensures FiresIn(size, ops, q, n) <==> Reaches(ops, Asked(size, ops)[n].op, q, Asked(size, ops)[n].time)
  {
    hide Run, Asked, Names, RunRegainsNone, FiresIn, Reaches;
    if Run(size, ops).regs[n].fate.Removed? {
      RemovedNamed(size, ops, n);
    }
    LostIff(size, ops);
    assert !AnyLost(Run(size, ops));
    ExactlyOnce(size, ops, n, q);
  }
}
