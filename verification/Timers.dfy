// The timers of nsfw_fd_timer.c: registration out of a pool, removal, and the call that
// counts ticks. It first moves the timers whose time is over to a second list and then
// calls them back; a callback may register and remove timers, its own one included.
module Timers {
  import opened Basics

  // time_left and alloc_flag of a timer info.
  datatype Info = Info(used: bool, left: int)

  // What became of a registration: it waits, its callback was called in a certain tick
  // call, it was removed on request, or it was removed by the module without that.
  datatype Fate = Waiting | Fired(call: nat) | Removed | Lost

  // A registration: its info, the time asked for, the number of tick calls before it, and
  // its fate.
  datatype Reg = Reg(id: nat, time: int, since: nat, fate: Fate)

  // The free infos, the two lists and the infos; then the history: who owns an info, all
  // registrations, the clock after each tick call, and the callbacks in order.
  datatype State = State(
    pool: seq<nat>,
    timers: seq<nat>,
    expired: seq<nat>,
    infos: seq<Info>,
    owner: seq<nat>,
    regs: seq<Reg>,
    clocks: seq<nat>,
    fired: seq<nat>)

  datatype Act = Register(time: int) | Remove(e: nat)

  predicate Shape(s: State) {
    && |s.owner| == |s.infos| && |s.clocks| > 0
    && (forall i | 0 <= i < |s.pool| :: s.pool[i] < |s.infos|)
    && (forall i | 0 <= i < |s.timers| :: s.timers[i] < |s.infos|)
    && (forall i | 0 <= i < |s.expired| :: s.expired[i] < |s.infos|)
    && (forall i | 0 <= i < |s.infos| && s.infos[i].used :: s.owner[i] < |s.regs|)
    && (forall i | 0 <= i < |s.fired| :: s.fired[i] < |s.regs|)
  }

  function Calls(s: State): nat
    requires Shape(s)
  {
    |s.clocks| - 1
  }

  function Clock(s: State): nat
    requires Shape(s)
  {
    s.clocks[|s.clocks| - 1]
  }

  // nsfw_timer_reg_timer
  function RegStep(s: State, time: int): (t: State)
    requires Shape(s)
    ensures Shape(t)
  {
    if s.pool == [] then s
    else
      var e := s.pool[0];
      s.(pool := s.pool[1..], timers := s.timers + [e], infos := s.infos[e := Info(true, time)],
         owner := s.owner[e := |s.regs|], regs := s.regs + [Reg(e, time, Calls(s), Waiting)])
  }

  // list_del
  function Drop(list: seq<nat>, e: nat): (r: seq<nat>)
    ensures forall i | 0 <= i < |r| :: r[i] in list
  {
    if list == [] then [] else if list[0] == e then list[1..] else [list[0]] + Drop(list[1..], e)
  }

  function Ended(regs: seq<Reg>, n: nat, fate: Fate): seq<Reg>
    requires n < |regs|
  {
    if regs[n].fate.Waiting? then regs[n := regs[n].(fate := fate)] else regs
  }

  // nsfw_timer_rmv_timer; no info stands for NULL.
  function RmvStep(s: State, e: nat, fate: Fate): (t: State)
    requires Shape(s)
    ensures Shape(t)
  {
    if e >= |s.infos| || !s.infos[e].used then s
    else
      s.(pool := s.pool + [e], timers := Drop(s.timers, e), expired := Drop(s.expired, e),
         infos := s.infos[e := s.infos[e].(used := false)], regs := Ended(s.regs, s.owner[e], fate))
  }

  function ActStep(s: State, act: Act): (t: State)
    requires Shape(s)
    ensures Shape(t)
  {
    match act
    case Register(time) => RegStep(s, time)
    case Remove(e) => RmvStep(s, e, Removed)
  }

  function Acted(s: State, acts: seq<Act>): (t: State)
    requires Shape(s)
    ensures Shape(t)
    decreases |acts|
  {
    if acts == [] then s else ActStep(Acted(s, acts[..|acts| - 1]), acts[|acts| - 1])
  }

  // The timers that go on, and those whose time is over, in order.

  function Going(list: seq<nat>, infos: seq<Info>, count: nat): (r: seq<nat>)
    requires forall i | 0 <= i < |list| :: list[i] < |infos|
    ensures forall i | 0 <= i < |r| :: r[i] in list && r[i] < |infos|
  {
    if list == [] then []
    else
      var n := |list| - 1;
      var last := list[n];
      if infos[last].left > count then Going(list[..n], infos, count) + [last] else Going(list[..n], infos, count)
  }

  function Over(list: seq<nat>, infos: seq<Info>, count: nat): (r: seq<nat>)
    requires forall i | 0 <= i < |list| :: list[i] < |infos|
    ensures forall i | 0 <= i < |r| :: r[i] in list && r[i] < |infos|
  {
    if list == [] then []
    else
      var n := |list| - 1;
      var last := list[n];
      if infos[last].left > count then Over(list[..n], infos, count) else Over(list[..n], infos, count) + [last]
  }

  function Counted(list: seq<nat>, infos: seq<Info>, count: nat): (r: seq<Info>)
    ensures |r| == |infos|
  {
    seq(|infos|, i requires 0 <= i < |infos| =>
      if i in list && infos[i].left > count then infos[i].(left := infos[i].left - count) else infos[i])
  }

  // The first half of nsfw_timer_exp
  function Sweep(s: State, count: nat): (t: State)
    requires Shape(s)
    ensures Shape(t)
  {
    s.(timers := Going(s.timers, s.infos, count), expired := s.expired + Over(s.timers, s.infos, count),
       infos := Counted(s.timers, s.infos, count), clocks := s.clocks + [Clock(s) + count])
  }

  // The callback of the first expired timer is called, ...
  function FireStep(s: State): (t: State)
    requires Shape(s) && s.expired != [] && s.infos[s.expired[0]].used
    ensures Shape(t)
  {
    var n := s.owner[s.expired[0]];
    s.(regs := Ended(s.regs, n, Fired(Calls(s))), fired := s.fired + [n])
  }

  // ... acts, and then the timer is removed.
  function Callback(s: State, acts: seq<Act>): (t: State)
    requires Shape(s) && s.expired != [] && s.infos[s.expired[0]].used
    ensures Shape(t)
  {
    RmvStep(Acted(FireStep(s), acts), s.expired[0], Lost)
  }

  // The second half of nsfw_timer_exp, with at most n callbacks; script is what they do.
  function FireAll(s: State, script: seq<seq<Act>>, n: nat): (t: State)
    requires Shape(s)
    ensures Shape(t)
    decreases n
  {
    if n == 0 || s.expired == [] || !s.infos[s.expired[0]].used then s
    else if script == [] then FireAll(Callback(s, []), [], n - 1)
    else FireAll(Callback(s, script[0]), script[1..], n - 1)
  }

  function Tick(s: State, count: nat, script: seq<seq<Act>>): (t: State)
    requires Shape(s)
    ensures Shape(t)
  {
    FireAll(Sweep(s, count), script, |s.infos|)
  }

  // ---------- the reference: when a timer is to fire ----------

  // No call after the registration, up to the one given, has counted the time asked for.
  ghost predicate NotYet(clocks: seq<nat>, r: Reg, upto: nat) {
    r.since <= upto < |clocks| && forall j | r.since < j <= upto :: clocks[j] < clocks[r.since] + r.time
  }

  // Call j is the first one after the registration by which it is counted.
  ghost predicate FirstReach(clocks: seq<nat>, r: Reg, j: nat) {
    r.since < j < |clocks| && clocks[r.since] + r.time <= clocks[j] && NotYet(clocks, r, j - 1)
  }

  // ---------- the invariant ----------

  // An info is in the pool or, when it is used, in one of the lists.
  predicate Placed(s: State, i: nat)
    requires Shape(s) && i < |s.infos|
  {
    && (i in s.pool <==> !s.infos[i].used) && (s.infos[i].used <==> i in s.timers || i in s.expired)
    && !(i in s.timers && i in s.expired)
  }

  // A timer in the first list has yet to come; one in the second is to fire now, except
  // the one whose callback runs (cur).
  ghost predicate InfoOk(s: State, i: nat, cur: int)
    requires Shape(s) && i < |s.infos|
  {
    && Placed(s, i)
    && (s.infos[i].used ==>
         var r := s.regs[s.owner[i]];
         && r.id == i
         && (i in s.timers ==>
             r.fate.Waiting? && NotYet(s.clocks, r, Calls(s)) &&
             s.infos[i].left == r.time - (Clock(s) - s.clocks[r.since]))
         && (i in s.expired ==> (r.fate.Waiting? <==> i != cur) && FirstReach(s.clocks, r, Calls(s))))
  }

  ghost predicate RegOk(s: State, n: nat)
    requires Shape(s) && n < |s.regs|
  {
    var r := s.regs[n];
    && r.since <= Calls(s) && r.id < |s.infos|
    && (r.fate.Waiting? ==> s.infos[r.id].used && s.owner[r.id] == n)
    && (r.fate.Fired? ==> FirstReach(s.clocks, r, r.fate.call))
    && (n in s.fired <==> r.fate.Fired?)
  }

  ghost predicate Inv(s: State, cur: int) {
    && Shape(s) && NoDup(s.pool) && NoDup(s.timers) && NoDup(s.expired) && NoDup(s.fired)
    && (forall i | 0 <= i < |s.infos| :: InfoOk(s, i, cur))
    && (forall n | 0 <= n < |s.regs| :: RegOk(s, n))
  }

  function Init(size: nat): State {
    State(seq(size, i => i), [], [], seq(size, _ => Info(false, 0)), seq(size, _ => 0), [], [0], [])
  }

  lemma InitInv(size: nat)
    ensures Inv(Init(size), -1)
  {
    var s := Init(size);
    forall i | 0 <= i < size
      ensures InfoOk(s, i, -1)
    {
      assert s.pool[i] == i;
    }
  }

  lemma {:induction false} DropIn(list: seq<nat>, e: nat)
    requires NoDup(list)
    ensures NoDup(Drop(list, e)) && forall x: nat :: x in Drop(list, e) <==> x in list && x != e
    ensures |Drop(list, e)| == if e in list then |list| - 1 else |list|
  {
    if list != [] {
      assert list == [list[0]] + list[1..];
      assert list[0] !in list[1..];
      if list[0] != e {
        DropIn(list[1..], e);
      }
    }
  }

  lemma RegInv(s: State, time: int, cur: int)
    requires Inv(s, cur)
    ensures Inv(RegStep(s, time), cur) && RegStep(s, time).expired == s.expired
  {
    hide InfoOk, RegOk;
    if s.pool != [] {
      var e, t := s.pool[0], RegStep(s, time);
      assert e in s.pool;
      InfoPlaced(s, e, cur);
      assert s.pool == [e] + t.pool;
      forall i | 0 <= i < |t.infos|
        ensures InfoOk(t, i, cur)
      {
        RegInfo(s, time, cur, i);
      }
      forall n | 0 <= n < |t.regs|
        ensures RegOk(t, n)
      {
        RegReg(s, time, cur, n);
      }
    }
  }

  lemma RegInfo(s: State, time: int, cur: int, i: nat)
    requires Inv(s, cur) && s.pool != [] && i < |s.infos|
    ensures InfoOk(RegStep(s, time), i, cur)
  {
    hide RegOk;
    var e := s.pool[0];
    assert e in s.pool && InfoOk(s, e, cur) && InfoOk(s, i, cur);
    assert s.pool == [e] + s.pool[1..];
  }

  lemma RegReg(s: State, time: int, cur: int, n: nat)
    requires Inv(s, cur) && s.pool != [] && n <= |s.regs|
    ensures RegOk(RegStep(s, time), n)
  {
    hide NotYet, FirstReach;
    var e := s.pool[0];
    assert e in s.pool && InfoOk(s, e, cur);
    if n < |s.regs| {
      assert RegOk(s, n);
    }
  }

  lemma RmvInv(s: State, e: nat, fate: Fate, cur: int)
    requires Inv(s, cur) && (fate.Removed? || fate.Lost?)
    ensures var t := RmvStep(s, e, fate);
            Inv(t, cur) && e !in t.expired && |t.expired| == |s.expired| - (if e in s.expired then 1 else 0)
  {
    hide InfoOk, RegOk;
    if e < |s.infos| {
      InfoPlaced(s, e, cur);
    }
    if e < |s.infos| && s.infos[e].used {
      var t := RmvStep(s, e, fate);
      DropIn(s.timers, e);
      DropIn(s.expired, e);
      forall i | 0 <= i < |t.infos|
        ensures InfoOk(t, i, cur)
      {
        RmvInfo(s, e, fate, cur, i);
      }
      forall n | 0 <= n < |t.regs|
        ensures RegOk(t, n)
      {
        RmvReg(s, e, fate, n);
      }
    }
  }

  lemma InfoPlaced(s: State, i: nat, cur: int)
    requires Inv(s, cur) && i < |s.infos|
    ensures Placed(s, i)
  {
    assert InfoOk(s, i, cur);
  }

  lemma RmvInfo(s: State, e: nat, fate: Fate, cur: int, i: nat)
    requires Inv(s, cur) && e < |s.infos| && s.infos[e].used && i < |s.infos|
    ensures InfoOk(RmvStep(s, e, fate), i, cur)
  {
    hide NotYet, FirstReach, RegOk, Drop;
    DropIn(s.timers, e);
    DropIn(s.expired, e);
    assert InfoOk(s, i, cur) && InfoOk(s, e, cur);
  }

  lemma RmvReg(s: State, e: nat, fate: Fate, n: nat)
    requires Shape(s) && e < |s.infos| && s.infos[e].used && n < |s.regs| && RegOk(s, n)
    requires fate.Removed? || fate.Lost?
    ensures RegOk(RmvStep(s, e, fate), n)
  {
    hide NotYet, FirstReach, Drop;
    FateKept(s.clocks, s.regs[n], fate);
  }

  lemma FateKept(clocks: seq<nat>, r: Reg, fate: Fate)
    ensures forall j :: NotYet(clocks, r, j) <==> NotYet(clocks, r.(fate := fate), j)
    ensures forall j :: FirstReach(clocks, r, j) <==> FirstReach(clocks, r.(fate := fate), j)
  {
  }

  lemma InvParts(s: State, cur: int)
    requires Inv(s, cur)
    ensures Shape(s) && NoDup(s.timers) && NoDup(s.expired) && NoDup(s.fired)
  {
  }

  // Removing a timer leaves the others in their lists.
  lemma RmvRest(s: State, e: nat, fate: Fate)
    requires Shape(s) && NoDup(s.expired)
    ensures forall x | x in s.expired && x != e :: x in RmvStep(s, e, fate).expired
  {
    DropIn(s.expired, e);
  }

  lemma {:induction false} ActedInv(s: State, acts: seq<Act>, cur: int)
    requires Shape(s) && Inv(s, cur)
    ensures Inv(Acted(s, acts), cur) && |Acted(s, acts).expired| <= |s.expired|
    ensures cur in s.expired ==> cur in Acted(s, acts).expired || |Acted(s, acts).expired| < |s.expired|
    decreases |acts|
  {
    hide Inv, RegStep, RmvStep;
    if acts != [] {
      var n := |acts| - 1;
      ActedInv(s, acts[..n], cur);
      var t := Acted(s, acts[..n]);
      match acts[n]
      case Register(time) => RegInv(t, time, cur);
      case Remove(e) =>
        RmvInv(t, e, Removed, cur);
        InvParts(t, cur);
        RmvRest(t, e, Removed);
    }
  }

  lemma {:induction false} GoingIn(list: seq<nat>, infos: seq<Info>, count: nat)
    requires NoDup(list) && forall i | 0 <= i < |list| :: list[i] < |infos|
    ensures NoDup(Going(list, infos, count))
    ensures forall x | 0 <= x < |infos| :: x in Going(list, infos, count) <==> x in list && infos[x].left > count
  {
    if list != [] {
      var n := |list| - 1;
      GoingIn(list[..n], infos, count);
      assert list == list[..n] + [list[n]];
      assert list[n] !in list[..n];
    }
  }

  lemma {:induction false} OverIn(list: seq<nat>, infos: seq<Info>, count: nat)
    requires NoDup(list) && forall i | 0 <= i < |list| :: list[i] < |infos|
    ensures NoDup(Over(list, infos, count))
    ensures forall x | 0 <= x < |infos| :: x in Over(list, infos, count) <==> x in list && infos[x].left <= count
  {
    if list != [] {
      var n := |list| - 1;
      OverIn(list[..n], infos, count);
      assert list == list[..n] + [list[n]];
      assert list[n] !in list[..n];
    }
  }

  lemma SweepInv(s: State, count: nat)
    requires Inv(s, -1) && s.expired == []
    ensures Inv(Sweep(s, count), -1)
  {
    hide Going, Over;
    var t := Sweep(s, count);
    GoingIn(s.timers, s.infos, count);
    OverIn(s.timers, s.infos, count);
    forall i | 0 <= i < |t.infos|
      ensures InfoOk(t, i, -1)
    {
      assert InfoOk(s, i, -1);
      if i in s.timers {
        SweptInfo(s, count, i);
      }
    }
    forall n | 0 <= n < |t.regs|
      ensures RegOk(t, n)
    {
      assert RegOk(s, n);
    }
  }

  lemma SweptInfo(s: State, count: nat, i: nat)
    requires Inv(s, -1) && s.expired == [] && i < |s.infos| && i in s.timers && s.infos[i].used
    ensures var t, r := Sweep(s, count), s.regs[s.owner[i]];
            if s.infos[i].left > count then NotYet(t.clocks, r, Calls(t)) else FirstReach(t.clocks, r, Calls(t))
  {
    assert InfoOk(s, i, -1) && RegOk(s, s.owner[i]);
  }

  // ---------- callbacks ----------

  lemma FirstUsed(s: State, cur: int)
    requires Inv(s, cur) && s.expired != []
    ensures s.expired[0] < |s.infos| && s.infos[s.expired[0]].used
  {
    assert s.expired[0] in s.expired;
    assert InfoOk(s, s.expired[0], cur);
  }

  lemma FireInv(s: State)
    requires Inv(s, -1) && s.expired != [] && s.infos[s.expired[0]].used
    ensures Inv(FireStep(s), s.expired[0]) && s.regs[s.owner[s.expired[0]]].fate.Waiting?
  {
    hide NotYet, FirstReach;
    var e, t := s.expired[0], FireStep(s);
    var n := s.owner[e];
    assert e in s.expired && InfoOk(s, e, -1) && RegOk(s, n);
    FateKept(s.clocks, s.regs[n], Fired(Calls(s)));
    forall i | 0 <= i < |t.infos|
      ensures InfoOk(t, i, e)
    {
      assert InfoOk(s, i, -1);
    }
    forall m | 0 <= m < |t.regs|
      ensures RegOk(t, m)
    {
      assert RegOk(s, m);
    }
  }

  lemma NoCurrent(s: State, cur: int)
    requires Inv(s, cur) && (cur >= 0 ==> cur !in s.expired)
    ensures Inv(s, -1)
  {
    forall i | 0 <= i < |s.infos|
      ensures InfoOk(s, i, -1)
    {
      assert InfoOk(s, i, cur);
    }
  }

  lemma CallbackInv(s: State, acts: seq<Act>)
    requires Shape(s) && Inv(s, -1) && s.expired != [] && s.infos[s.expired[0]].used
    ensures Inv(Callback(s, acts), -1) && |Callback(s, acts).expired| < |s.expired|
  {
    hide Inv, InfoOk, RegOk, RmvStep, Acted;
    var e := s.expired[0];
    FireInv(s);
    ActedInv(FireStep(s), acts, e);
    var t := Acted(FireStep(s), acts);
    RmvInv(t, e, Lost, e);
    NoCurrent(Callback(s, acts), e);
  }

  // All expired timers are called back: there are no more than infos.
  lemma {:induction false} FireAllInv(s: State, script: seq<seq<Act>>, n: nat)
    requires Shape(s) && Inv(s, -1) && |s.expired| <= n
    ensures Inv(FireAll(s, script, n), -1) && FireAll(s, script, n).expired == []
    decreases n
  {
    hide Inv, Callback;
    if s.expired != [] {
      FirstUsed(s, -1);
      var acts, rest := if script == [] then [] else script[0], if script == [] then [] else script[1..];
      CallbackInv(s, acts);
      FireAllInv(Callback(s, acts), rest, n - 1);
    }
  }

  lemma TickInv(s: State, count: nat, script: seq<seq<Act>>)
    requires Shape(s) && Inv(s, -1) && s.expired == []
    ensures Inv(Tick(s, count, script), -1) && Tick(s, count, script).expired == []
  {
    hide Inv, FireAll, Sweep;
    SweepInv(s, count);
    ExpiredBound(Sweep(s, count));
    SweepSize(s, count);
    FireAllInv(Sweep(s, count), script, |s.infos|);
  }

  lemma SweepSize(s: State, count: nat)
    requires Shape(s)
    ensures |Sweep(s, count).infos| == |s.infos|
  {
  }

  lemma ExpiredBound(s: State)
    requires Inv(s, -1)
    ensures |s.expired| <= |s.infos|
  {
    Pigeonhole(s.expired, |s.infos|);
  }

  // ---------- runs ----------

  datatype Op = Do(act: Act) | Ticks(count: nat, script: seq<seq<Act>>)

  function OpStep(s: State, op: Op): (t: State)
    requires Shape(s)
    ensures Shape(t)
  {
    match op
    case Do(act) => ActStep(s, act)
    case Ticks(count, script) => Tick(s, count, script)
  }

  function Run(size: nat, ops: seq<Op>): (s: State)
    ensures Shape(s)
    decreases |ops|
  {
    if ops == [] then Init(size) else OpStep(Run(size, ops[..|ops| - 1]), ops[|ops| - 1])
  }

  lemma {:induction false} RunInv(size: nat, ops: seq<Op>)
    ensures Inv(Run(size, ops), -1) && Run(size, ops).expired == []
    decreases |ops|
  {
    hide Inv, RegStep, RmvStep, Tick;
    if ops == [] {
      InitInv(size);
    } else {
      RunInv(size, ops[..|ops| - 1]);
      var s := Run(size, ops[..|ops| - 1]);
      match ops[|ops| - 1]
      case Do(Register(time)) => RegInv(s, time, -1);
      case Do(Remove(e)) => RmvInv(s, e, Removed, -1);
      case Ticks(count, script) => TickInv(s, count, script);
    }
  }

  // Each info is in the pool or in the list of timers, and none is lost.
  lemma Conserved(size: nat, ops: seq<Op>, i: nat)
    requires i < size
    ensures var s := Run(size, ops);
            |s.infos| == size && NoDup(s.pool) && NoDup(s.timers) && (i in s.pool <==> i !in s.timers)
  {
    hide Run;
    RunInv(size, ops);
    RunSize(size, ops);
    InfoPlaced(Run(size, ops), i, -1);
  }

  lemma {:induction false} RunSize(size: nat, ops: seq<Op>)
    ensures |Run(size, ops).infos| == size
    decreases |ops|
  {
    if ops != [] {
      RunSize(size, ops[..|ops| - 1]);
      var s := Run(size, ops[..|ops| - 1]);
      match ops[|ops| - 1]
      case Do(_) =>
      case Ticks(count, script) => FireAllSize(Sweep(s, count), script, |s.infos|);
    }
  }

  lemma {:induction false} ActedSize(s: State, acts: seq<Act>)
    requires Shape(s)
    ensures |Acted(s, acts).infos| == |s.infos|
    decreases |acts|
  {
    if acts != [] {
      ActedSize(s, acts[..|acts| - 1]);
    }
  }

  lemma CallbackSize(s: State, acts: seq<Act>)
    requires Shape(s) && s.expired != [] && s.infos[s.expired[0]].used
    ensures |Callback(s, acts).infos| == |s.infos|
  {
    ActedSize(FireStep(s), acts);
  }

  lemma {:induction false} FireAllSize(s: State, script: seq<seq<Act>>, n: nat)
    requires Shape(s)
    ensures |FireAll(s, script, n).infos| == |s.infos|
    decreases n
  {
    hide Callback;
    if n > 0 && s.expired != [] && s.infos[s.expired[0]].used {
      var acts, rest := if script == [] then [] else script[0], if script == [] then [] else script[1..];
      CallbackSize(s, acts);
      FireAllSize(Callback(s, acts), rest, n - 1);
    }
  }

  // ---------- registrations that are lost ----------

  ghost predicate AnyLost(s: State) { exists n | 0 <= n < |s.regs| :: s.regs[n].fate.Lost? }

  // The callback leaves its own info registered again: it removed its timer and got the
  // info back for another one, which is then removed in its place.
  predicate Regains(s: State, acts: seq<Act>)
    requires Shape(s) && s.expired != [] && s.infos[s.expired[0]].used
  {
    s.expired[0] in Acted(FireStep(s), acts).timers
  }

  lemma EndedLost(regs: seq<Reg>, n: nat, fate: Fate)
    requires n < |regs|
    ensures (exists m | 0 <= m < |regs| :: Ended(regs, n, fate)[m].fate.Lost?) <==>
            (exists m | 0 <= m < |regs| :: regs[m].fate.Lost?) || (regs[n].fate.Waiting? && fate.Lost?)
    ensures |Ended(regs, n, fate)| == |regs|
  {
    var t := Ended(regs, n, fate);
    forall m | 0 <= m < |regs| && regs[m].fate.Lost?
      ensures t[m].fate.Lost?
    {
    }
    if regs[n].fate.Waiting? && fate.Lost? {
      assert t[n].fate.Lost?;
    }
    if m :| 0 <= m < |regs| && t[m].fate.Lost? && m != n {
      assert regs[m].fate.Lost?;
    }
  }

  lemma {:induction false} ActedLost(s: State, acts: seq<Act>)
    requires Shape(s)
    ensures AnyLost(Acted(s, acts)) <==> AnyLost(s)
    decreases |acts|
  {
    hide Drop;
    if acts != [] {
      var n := |acts| - 1;
      ActedLost(s, acts[..n]);
      var t := Acted(s, acts[..n]);
      match acts[n]
      case Register(time) =>
        var u := RegStep(t, time);
        assert forall m | 0 <= m < |t.regs| :: u.regs[m] == t.regs[m];
      case Remove(e) =>
        if e < |t.infos| && t.infos[e].used {
          EndedLost(t.regs, t.owner[e], Removed);
        }
    }
  }

  lemma CallbackLost(s: State, acts: seq<Act>)
    requires Shape(s) && Inv(s, -1) && s.expired != [] && s.infos[s.expired[0]].used
    ensures AnyLost(Callback(s, acts)) <==> AnyLost(s) || Regains(s, acts)
  {
    hide Inv, Acted, Drop, Ended;
    var e := s.expired[0];
    FireInv(s);
    EndedLost(s.regs, s.owner[e], Fired(Calls(s)));
    ActedLost(FireStep(s), acts);
    ActedInv(FireStep(s), acts, e);
    var t := Acted(FireStep(s), acts);
    if e < |t.infos| && t.infos[e].used {
      CurrentPlace(t, e);
      EndedLost(t.regs, t.owner[e], Lost);
    } else if e < |t.infos| {
      InfoPlaced(t, e, e);
    }
  }

  // The info of the running callback is in the second list with a registration that has
  // fired, or in the first one with another.
  lemma CurrentPlace(t: State, e: nat)
    requires Inv(t, e) && e < |t.infos| && t.infos[e].used
    ensures t.regs[t.owner[e]].fate.Waiting? <==> e in t.timers
  {
    assert InfoOk(t, e, e);
  }

  // No callback of a tick call regains its info; nor of a run.

  ghost predicate NoneRegains(s: State, script: seq<seq<Act>>, n: nat)
    requires Shape(s)
    decreases n
  {
    n == 0 || s.expired == [] || !s.infos[s.expired[0]].used ||
    var acts, rest := if script == [] then [] else script[0], if script == [] then [] else script[1..];
    !Regains(s, acts) && NoneRegains(Callback(s, acts), rest, n - 1)
  }

  ghost predicate RunRegainsNone(size: nat, ops: seq<Op>)
    decreases |ops|
  {
    ops == [] ||
    var s, op := Run(size, ops[..|ops| - 1]), ops[|ops| - 1];
    && RunRegainsNone(size, ops[..|ops| - 1])
    && (op.Ticks? ==> NoneRegains(Sweep(s, op.count), op.script, |s.infos|))
  }

  lemma {:induction false} FireAllLost(s: State, script: seq<seq<Act>>, n: nat)
    requires Shape(s) && Inv(s, -1)
    ensures AnyLost(FireAll(s, script, n)) <==> AnyLost(s) || !NoneRegains(s, script, n)
    decreases n
  {
    hide Inv, Callback, AnyLost, Regains;
    if n > 0 && s.expired != [] && s.infos[s.expired[0]].used {
      var acts, rest := if script == [] then [] else script[0], if script == [] then [] else script[1..];
      CallbackInv(s, acts);
      CallbackLost(s, acts);
      FireAllLost(Callback(s, acts), rest, n - 1);
    }
  }

  /** In every run a registration is lost if and only if some callback regains its own info. */
  lemma {:induction false} LostIff(size: nat, ops: seq<Op>)
    ensures AnyLost(Run(size, ops)) <==> !RunRegainsNone(size, ops)
    decreases |ops|
  {
    hide Inv, FireAll, RegStep, RmvStep, AnyLost;
    if ops == [] {
      InitNoneLost(size);
    } else {
      var n := |ops| - 1;
      LostIff(size, ops[..n]);
      RunInv(size, ops[..n]);
      var s := Run(size, ops[..n]);
      match ops[n]
      case Do(act) =>
        ActedLost(s, [act]);
        ActedOne(s, act);
      case Ticks(count, script) =>
        SweepInv(s, count);
        SweepLost(s, count);
        FireAllLost(Sweep(s, count), script, |s.infos|);
    }
  }

  lemma InitNoneLost(size: nat)
    ensures !AnyLost(Init(size))
  {
  }

  lemma SweepLost(s: State, count: nat)
    requires Shape(s)
    ensures AnyLost(Sweep(s, count)) <==> AnyLost(s)
  {
  }

  lemma ActedOne(s: State, act: Act)
    requires Shape(s)
    ensures Acted(s, [act]) == ActStep(s, act)
  {
    assert [act][..0] == [];
  }

  // A callback that does not remove its own timer does not regain its info.
  lemma NoOwnRemoval(s: State, acts: seq<Act>)
    requires Shape(s) && Inv(s, -1) && s.expired != [] && s.infos[s.expired[0]].used
    requires Remove(s.expired[0]) !in acts
    ensures !Regains(s, acts)
  {
    hide Inv, Acted;
    var e := s.expired[0];
    FireInv(s);
    ActedKeeps(FireStep(s), acts, e);
    ActedInv(FireStep(s), acts, e);
    var t := Acted(FireStep(s), acts);
    StillThere(t, e);
  }

  lemma StillThere(t: State, e: nat)
    requires Inv(t, e) && e in t.expired
    ensures e !in t.timers
  {
    assert InfoOk(t, e, e);
  }

  lemma {:induction false} ActedKeeps(s: State, acts: seq<Act>, e: nat)
    requires Shape(s) && Inv(s, e) && e in s.expired && Remove(e) !in acts
    ensures e in Acted(s, acts).expired
    decreases |acts|
  {
    hide Inv, RmvStep;
    if acts != [] {
      var n := |acts| - 1;
      ActedKeeps(s, acts[..n], e);
      ActedInv(s, acts[..n], e);
      var t := Acted(s, acts[..n]);
      assert acts[n] != Remove(e);
      InvParts(t, e);
      if acts[n].Remove? {
        RmvRest(t, acts[n].e, Removed);
      }
    }
  }

  // One that removes it and then registers once more than there are free infos does.

  function Registers(time: int, k: nat): (acts: seq<Act>)
    ensures |acts| == k
  {
    seq(k, _ => Register(time))
  }

  lemma {:induction false} RegistersTake(s: State, e: nat, time: int, k: nat)
    requires Shape(s) && k <= |ActStep(s, Remove(e)).pool|
    ensures var u, t := ActStep(s, Remove(e)), Acted(s, [Remove(e)] + Registers(time, k));
            t.pool == u.pool[k..] && t.timers == u.timers + u.pool[..k]
    decreases k
  {
    hide RmvStep, Acted, Registers, Shape;
    if k == 0 {
      assert [Remove(e)] + Registers(time, k) == [Remove(e)];
      ActedOne(s, Remove(e));
    } else {
      RegistersTake(s, e, time, k - 1);
      OneRegister(time, k);
      assert [Remove(e)] + Registers(time, k) == ([Remove(e)] + Registers(time, k - 1)) + [Register(time)];
      ActedMore(s, [Remove(e)] + Registers(time, k - 1), Register(time));
    }
  }

  lemma OneRegister(time: int, k: nat)
    requires k > 0
    ensures Registers(time, k) == Registers(time, k - 1) + [Register(time)]
  {
  }

  lemma ActedMore(s: State, acts: seq<Act>, act: Act)
    requires Shape(s)
    ensures Acted(s, acts + [act]) == ActStep(Acted(s, acts), act)
  {
    assert (acts + [act])[..|acts|] == acts;
  }

  lemma OwnRemoval(s: State, time: int)
    requires Shape(s) && Inv(s, -1) && s.expired != [] && s.infos[s.expired[0]].used
    ensures Regains(s, [Remove(s.expired[0])] + Registers(time, |s.pool| + 1))
  {
    hide Inv, Drop, Acted, Registers;
    var e, k := s.expired[0], |s.pool| + 1;
    var u := ActStep(FireStep(s), Remove(e));
    assert u.pool == s.pool + [e];
    RegistersTake(FireStep(s), e, time, k);
    assert u.pool[..k] == u.pool && u.pool[k - 1] == e;
  }

  // The state of a pool whose first info was registered for one tick.
  function OneTimer(size: nat): State
    requires size > 0
  {
    RegStep(Init(size), 1)
  }

  lemma OneRun(size: nat)
    requires size > 0
    ensures Run(size, [Do(Register(1))]) == OneTimer(size) && |OneTimer(size).infos| == size
  {
    assert [Do(Register(1))][..0] == [];
    assert Run(size, []) == Init(size);
  }

  lemma OneExpired(size: nat)
    requires size > 0
    ensures var t := Sweep(OneTimer(size), 1);
            t.expired == [0] && |t.pool| == size - 1 && |t.infos| == size && t.infos[0].used
  {
    hide Over, Going;
    var s := OneTimer(size);
    assert s.timers == [0] && s.infos[0] == Info(true, 1);
    OverOne(0, s.infos, 1);
  }

  lemma OverOne(e: nat, infos: seq<Info>, count: nat)
    requires e < |infos| && infos[e].left <= count
    ensures Over([e], infos, count) == [e]
  {
    assert [e][..0] == [];
  }

  /** With every pool there is a run in which a timer is lost that way. */
  lemma OwnRemovalLost(size: nat, time: int)
    requires size > 0
    ensures AnyLost(Run(size, [Do(Register(1)), Ticks(1, [[Remove(0)] + Registers(time, size)])]))
  {
    hide Inv, AnyLost, Regains, FireAll, Callback, Run, OneTimer, Sweep, Registers;
    var script := [[Remove(0)] + Registers(time, size)];
    var ops := [Do(Register(1)), Ticks(1, script)];
    assert ops[..1] == [Do(Register(1))];
    OneRun(size);
    RunInv(size, ops[..1]);
    SweepInv(OneTimer(size), 1);
    OneExpired(size);
    OwnRemoval(Sweep(OneTimer(size), 1), time);
    assert !NoneRegains(Sweep(OneTimer(size), 1), script, size);
    LostIff(size, ops);
  }

  // The module itself; s is the state it stands for, with its history.
  class TimerModule {
    var pool: seq<nat>
    var timers: seq<nat>
    var expired: seq<nat>
    var infos: seq<Info>
    ghost var s: State

    ghost predicate Matches()
      reads this
    {
      Shape(s) && pool == s.pool && timers == s.timers && expired == s.expired && infos == s.infos
    }

    // nsfw_timer_module_init
    constructor (size: nat)
      ensures Matches() && s == Init(size) && Inv(s, -1)
    {
      pool, timers, expired := seq(size, i => i), [], [];
      infos := seq(size, _ => Info(false, 0));
      s := Init(size);
      InitInv(size);
    }

    // nsfw_timer_reg_timer; -1 when the pool is empty
    method RegTimer(time: int) returns (e: int)
      requires Matches()
      modifies this
      ensures Matches() && s == RegStep(old(s), time) && e == if old(pool) == [] then -1 else old(pool)[0]
    {
      if pool == [] {
        return -1;
      }
      e := pool[0];
      pool := pool[1..];
      infos := infos[e := Info(false, time)];
      timers := timers + [e];
      infos := infos[e := infos[e].(used := true)];
      s := RegStep(s, time);
    }

    // nsfw_timer_rmv_timer, on request or (lost) after a callback
    method RmvTimer(e: nat, ghost fate: Fate)
      requires Matches()
      modifies this
      ensures Matches() && s == RmvStep(old(s), e, fate)
    {
      if e >= |infos| || !infos[e].used {
        return;
      }
      infos := infos[e := infos[e].(used := false)];
      timers, expired := Drop(timers, e), Drop(expired, e);
      pool := pool + [e];
      s := RmvStep(s, e, fate);
    }

    // The walk over the timers. After an entry is moved away the walk goes on from the one
    // before it.
    method SweepTimers(count: nat)
      requires Matches() && NoDup(timers)
      modifies this
      ensures Matches() && s == Sweep(old(s), count)
    {
      hide Shape, Swept, Going, Over, Counted, Without;
      InLists(s);
      ghost var all, was, over := timers, infos, expired;
      ghost var j := 0;
      var k := 0;
      SweepStart(all, over, was, count);
      while k < |timers|
        invariant j <= |all| && Swept(all, over, was, count, j, k, timers, expired, infos)
        invariant s == old(s) && pool == s.pool
        decreases |all| - j
      {
        SweepNext(all, over, was, count, j, k, timers, expired, infos);
        var e := timers[k];
        if infos[e].left > count {
          infos := infos[e := infos[e].(left := infos[e].left - count)];
          k := k + 1;
        } else {
          timers := Without(timers, k);
          expired := expired + [e];
        }
        j := j + 1;
      }
      SweepEnd(all, over, was, count, j, k, timers, expired, infos);
      s := Sweep(s, count);
    }

    // What a callback does.
    method RunActs(acts: seq<Act>)
      requires Matches()
      modifies this
      ensures Matches() && s == Acted(old(s), acts)
    {
      hide RegStep, RmvStep;
      assert acts[..0] == [];
      for m := 0 to |acts|
        invariant Matches() && s == Acted(old(s), acts[..m])
      {
        assert acts[..m + 1] == acts[..m] + [acts[m]];
        ActedMore(old(s), acts[..m], acts[m]);
        if acts[m].Register? {
          var r := RegTimer(acts[m].time);
        } else {
          RmvTimer(acts[m].e, Removed);
        }
      }
      assert acts[..|acts|] == acts;
    }

    // nsfw_timer_exp; script is what its callbacks do.
    method TimerExp(count: nat, script: seq<seq<Act>>)
      requires Matches() && Inv(s, -1) && expired == []
      modifies this
      ensures Matches() && s == Tick(old(s), count, script) && Inv(s, -1) && expired == []
    {
      hide Inv, Acted, Sweep, Shape, RmvStep;
      InvParts(s, -1);
      TickInv(s, count, script);
      SweepInv(s, count);
      SweepSize(s, count);
      ghost var goal := Tick(s, count, script);
      SweepTimers(count);
      ghost var n := |infos|;
      var i, left := 0, script;
      while expired != [] && i < |infos|
        invariant Matches() && Inv(s, -1) && i <= |infos| == n
        invariant FireAll(s, left, n - i) == goal
        decreases n - i
      {
        FirstUsed(s, -1);
        var e := expired[0];
        var acts := if left == [] then [] else left[0];
        CallbackInv(s, acts);
        CallbackSize(s, acts);
        s := FireStep(s);
        RunActs(acts);
        RmvTimer(e, Lost);
        i, left := i + 1, if left == [] then [] else left[1..];
      }
    }
  }

  lemma InLists(s: State)
    requires Shape(s)
    ensures forall i | 0 <= i < |s.timers| :: s.timers[i] < |s.infos|
  {
  }

  // The walk has gone past the first j of all timers, and stands at place k of the list.
  ghost predicate Swept(all: seq<nat>, over: seq<nat>, was: seq<Info>, count: nat, j: nat, k: nat, timers: seq<nat>,
                        expired: seq<nat>, infos: seq<Info>)
  {
    && j <= |all| && NoDup(all) && (forall i | 0 <= i < |all| :: all[i] < |was|)
    && timers == Going(all[..j], was, count) + all[j..] && k == |Going(all[..j], was, count)|
    && expired == over + Over(all[..j], was, count) && infos == Counted(all[..j], was, count)
  }

  lemma SweepStart(all: seq<nat>, over: seq<nat>, was: seq<Info>, count: nat)
    requires NoDup(all) && forall i | 0 <= i < |all| :: all[i] < |was|
    ensures Swept(all, over, was, count, 0, 0, all, over, was)
  {
    assert all[..0] == [];
    assert Counted([], was, count) == was;
  }

  lemma SweepNext(all: seq<nat>, over: seq<nat>, was: seq<Info>, count: nat, j: nat, k: nat, timers: seq<nat>,
                  expired: seq<nat>, infos: seq<Info>)
    requires Swept(all, over, was, count, j, k, timers, expired, infos) && k < |timers|
    ensures j < |all| && timers[k] == all[j] < |infos|
    ensures var e := all[j];
      if infos[e].left > count then
        Swept(all, over, was, count, j + 1, k + 1, timers, expired,
              infos[e := infos[e].(left := infos[e].left - count)])
      else
        Swept(all, over, was, count, j + 1, k, Without(timers, k), expired + [e], infos)
  {
    hide Counted;
    var e := all[j];
    assert all[..j + 1] == all[..j] + [e] && all[..j + 1][..j] == all[..j] && all[j..] == [e] + all[j + 1..];
    assert e !in all[..j];
    CountedNext(all, was, count, j);
  }

  lemma CountedNext(all: seq<nat>, was: seq<Info>, count: nat, j: nat)
    requires NoDup(all) && j < |all| && all[j] < |was|
    ensures var e, infos := all[j], Counted(all[..j], was, count);
            && infos[e] == was[e]
            && Counted(all[..j + 1], was, count) ==
               if was[e].left > count then infos[e := was[e].(left := was[e].left - count)] else infos
  {
    var e := all[j];
    assert all[..j + 1] == all[..j] + [e];
    assert e !in all[..j];
  }

  lemma SweepEnd(all: seq<nat>, over: seq<nat>, was: seq<Info>, count: nat, j: nat, k: nat, timers: seq<nat>,
                 expired: seq<nat>, infos: seq<Info>)
    requires Swept(all, over, was, count, j, k, timers, expired, infos) && k >= |timers|
    ensures forall i | 0 <= i < |all| :: all[i] < |was|
    ensures timers == Going(all, was, count) && expired == over + Over(all, was, count)
    ensures infos == Counted(all, was, count)
  {
    assert |all[j..]| == 0;
    assert all[..j] == all;
  }
}
