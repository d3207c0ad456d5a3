// The pool of epitems with its free ring, and the scanner that puts leaked items back.
// A process takes an item out of the ring, marks it and writes its pid; it clears the pid
// of an item, unmarks it and puts it back. It may be held up or die between two of these
// steps, and an item that dies in its hands is leaked. The scanner cannot see the ring: it
// forces an item when many others have been given back since it first looked unused.
module LeakScanner {
  import opened Basics

  const U32: nat := 0x1_0000_0000
  const U16: nat := 0x1_0000

  // nsfw_get_alloc_count
  function AllocCount(head: nat, tail: nat): nat
    requires head < U32 && tail < U32
  {
    if head >= tail then head - tail else head + (0xffff_ffff - tail)
  }

  // With wrapped counters the count is never more than the true distance.
  lemma AllocCountBound(head: nat, tail: nat)
    requires tail <= head
    ensures AllocCount(head % U32, tail % U32) <= head - tail
    ensures head - tail < U32 ==> head - tail - 1 <= AllocCount(head % U32, tail % U32)
  {
    var h, t := head / U32, tail / U32;
    assert head == h * U32 + head % U32 && tail == t * U32 + tail % U32;
    assert h >= t;
    if head % U32 < tail % U32 {
      assert h >= t + 1;
      assert h * U32 >= t * U32 + U32;
    }
  }

  // The ring counter has wrapped between two readings, which costs the count one.
  predicate Wrapped32(head: nat, tail: nat) { head % U32 < tail % U32 }

  function Distance(head: nat, tail: nat): int
    requires tail <= head
  {
    (head - tail) % U32 - if Wrapped32(head, tail) then 1 else 0
  }

  // What the count is of counters that never wrap.
  lemma AllocCountExact(head: nat, tail: nat)
    requires tail <= head
    ensures AllocCount(head % U32, tail % U32) == Distance(head, tail)
  {
    var h, t := head / U32, tail / U32;
    var n := h - t;
    assert head - tail == U32 * n + (head % U32 - tail % U32);
    if Wrapped32(head, tail) {
      assert head - tail == U32 * (n - 1) + (U32 + head % U32 - tail % U32);
      AllocCountBound(head, tail);
      QuotientIs(head - tail, U32, n - 1, U32 + head % U32 - tail % U32);
    } else {
      QuotientIs(head - tail, U32, n, head % U32 - tail % U32);
    }
  }

  // The values registered with the scanner, and two that describe the load: how many
  // items may be put back between the reading of the counters and a check that uses them
  // (delay), and while a process has an item in its hands (stall).
  datatype Config = Config(total: nat, factor: nat, checks: nat, percent: nat, perCycle: nat, delay: nat, stall: nat)

  predicate ConfigOk(c: Config) {
    && 0 < c.total && 100 * c.total < U32 && 0 < c.factor && c.total * c.factor < U32 && 0 < c.checks && 0 < c.perCycle
    && c.total + c.delay + 2 * c.stall + 1 <= c.total * c.factor
  }

  // The scanner's record of an item; since is the ring counter before it wraps.
  datatype Item = Item(flag: bool, chk: nat, pid: nat, since: nat)

  // Whether a process is in the middle of taking or giving back an item: the process,
  // and the count of the ring when it began.
  datatype Hand =
    | Idle
    | Taken(p: nat, at: nat)
    | Marked(p: nat, at: nat)
    | Cleared(p: nat, at: nat)
    | Dropped(p: nat, at: nat)

  // head counts all items ever put in the ring; holders are the processes that use an
  // item; snap and free are what the scanner last read of the ring, and level is the
  // number of items that were in it then.
  datatype State = State(
    ring: seq<nat>,
    head: nat,
    snap: nat,
    free: nat,
    level: nat,
    items: seq<Item>,
    holders: seq<set<nat>>,
    hands: seq<Hand>)

  datatype Move =
    | Take(p: nat)
    | Mark(e: nat)
    | Own(e: nat)
    | ClearPid(e: nat)
    | Unmark(e: nat)
    | Put(e: nat)
    | Refree(e: nat)
    | Die(e: nat)
    | Flash
    | Check(e: nat)

  predicate InBounds(s: State) {
    && |s.items| == |s.holders| == |s.hands| && |s.ring| <= s.head
    && forall k | 0 <= k < |s.ring| :: s.ring[k] < |s.items|
  }

  function WithItem(s: State, e: nat, i: Item, holders: set<nat>, hand: Hand): State
    requires |s.items| == |s.holders| == |s.hands| && e < |s.items|
  {
    s.(items := s.items[e := i], holders := s.holders[e := holders], hands := s.hands[e := hand])
  }

  // nsep_alloc_epitem in three steps: the item leaves the ring, ...
  function TakeStep(s: State, p: nat): State
    requires InBounds(s)
  {
    if s.ring == [] then s
    else
      var e := s.ring[0];
      WithItem(s, e, s.items[e], s.holders[e] + {p}, Taken(p, s.head)).(ring := s.ring[1..])
  }

  // ... res_alloc, ...
  function MarkStep(s: State, e: nat): State
    requires InBounds(s) && e < |s.items| && s.hands[e].Taken?
  {
    WithItem(s, e, s.items[e].(flag := true, chk := 0), s.holders[e], Marked(s.hands[e].p, s.hands[e].at))
  }

  // ... and the pid.
  function OwnStep(s: State, e: nat): State
    requires InBounds(s) && e < |s.items| && s.hands[e].Marked?
  {
    WithItem(s, e, s.items[e].(pid := s.hands[e].p), s.holders[e], Idle)
  }

  // nsep_free_epitem by the holder in three steps: the pid, ...
  function ClearPidStep(s: State, e: nat): State
    requires InBounds(s) && e < |s.items|
  {
    WithItem(s, e, s.items[e].(pid := 0), s.holders[e], Cleared(s.items[e].pid, s.head))
  }

  // ... res_free, which gives up on an item that is not marked, ...
  function UnmarkStep(s: State, e: nat): State
    requires InBounds(s) && e < |s.items| && s.hands[e].Cleared?
  {
    if !s.items[e].flag then WithItem(s, e, s.items[e], s.holders[e] - {s.hands[e].p}, Idle)
    else WithItem(s, e, s.items[e].(flag := false, chk := 0), s.holders[e], Dropped(s.hands[e].p, s.head))
  }

  // ... and the way back into the ring.
  function PutStep(s: State, e: nat): State
    requires InBounds(s) && e < |s.items|
  {
    WithItem(s, e, s.items[e], {}, Idle).(ring := s.ring + [e], head := s.head + 1)
  }

  // nsep_free_epitem on an item that is not marked changes its pid alone.
  function RefreeStep(s: State, e: nat): State
    requires InBounds(s) && e < |s.items|
  {
    WithItem(s, e, s.items[e].(pid := 0), s.holders[e], s.hands[e])
  }

  // A process dies with the item in its hands.
  function DieStep(s: State, e: nat): State
    requires InBounds(s) && e < |s.items|
  {
    WithItem(s, e, s.items[e], {}, Idle)
  }

  function Percent(count: nat, total: nat): nat
    requires 0 < total
  {
    count * 100 % U32 / total
  }

  // nsfw_res_flash_data
  function FlashStep(c: Config, s: State): State
    requires ConfigOk(c) && InBounds(s)
  {
    s.(snap := s.head, level := |s.ring|, free := Percent(AllocCount(s.head % U32, (s.head - |s.ring|) % U32), c.total))
  }

  function Seen(s: State, i: Item): Item {
    (if i.chk == 0 then i.(since := s.snap) else i).(chk := (i.chk + 1) % U16)
  }

  // The tests of nsfw_res_sp_item_chk on an item whose check was counted.
  predicate Overdue(c: Config, s: State, i: Item)
    requires ConfigOk(c)
  {
    && c.checks <= i.chk && s.free <= c.percent
    && c.total * c.factor <= AllocCount(s.snap % U32, i.since % U32)
  }

  function CheckStep(c: Config, s: State, e: nat): State
    requires ConfigOk(c) && InBounds(s) && e < |s.items|
  {
    var i := Seen(s, s.items[e]);
    if !Overdue(c, s, i) then s.(items := s.items[e := i])
    else if i.pid != 0 then s.(items := s.items[e := i.(chk := 0)])
    else s.(items := s.items[e := i.(flag := false, chk := 0)], ring := s.ring + [e], head := s.head + 1)
  }

  // A check follows the last reading of the ring before too many items have been put
  // back; a process in time does its next step before that.
  predicate Prompt(c: Config, s: State) { s.head <= s.snap + c.delay }

  predicate InTime(c: Config, s: State, h: Hand) { !h.Idle? ==> s.head <= h.at + c.stall }

  predicate Enabled(c: Config, s: State, m: Move)
    requires ConfigOk(c)
  {
    && InBounds(s) && (!m.Take? && !m.Flash? ==> m.e < |s.items|)
    && match m
       case Take(p) => p != 0
       case Mark(e) => s.hands[e].Taken?
       case Own(e) => s.hands[e].Marked?
       case ClearPid(e) => s.hands[e].Idle? && s.holders[e] != {}
       case Unmark(e) => s.hands[e].Cleared?
       case Put(e) => s.hands[e].Dropped? && (s.items[e].chk > 0 ==> InTime(c, s, s.hands[e]))
       case Refree(e) => !s.items[e].flag
       case Die(e) => !s.hands[e].Idle?
       case Flash => true
       case Check(e) => Prompt(c, s)
  }

  function Step(c: Config, s: State, m: Move): State
    requires ConfigOk(c) && Enabled(c, s, m)
  {
    match m
    case Take(p) => TakeStep(s, p)
    case Mark(e) => MarkStep(s, e)
    case Own(e) => OwnStep(s, e)
    case ClearPid(e) => ClearPidStep(s, e)
    case Unmark(e) => UnmarkStep(s, e)
    case Put(e) => PutStep(s, e)
    case Refree(e) => RefreeStep(s, e)
    case Die(e) => DieStep(s, e)
    case Flash => FlashStep(c, s)
    case Check(e) => CheckStep(c, s, e)
  }

  // An item in the ring is free; one that is taken or given back has that process for
  // its only holder, and no pid; any other one that is held has its holder's pid.
  predicate Owned(i: Item, holders: set<nat>, hand: Hand, inRing: bool) {
    && (inRing ==> !i.flag && i.pid == 0 && holders == {} && hand.Idle?)
    && (hand.Idle? && holders != {} ==> i.flag && i.pid != 0 && holders == {i.pid})
    && (!hand.Idle? ==> i.pid == 0 && holders == {hand.p} && hand.p != 0)
    && (hand.Marked? || hand.Cleared? ==> i.flag) && (hand.Dropped? ==> !i.flag)
  }

  // The most by which the count at which an item went into the ring is ahead of the count
  // that the scanner has written down for it.
  function Ahead(c: Config): nat { c.delay + c.stall + 1 }

  // The item at place k of the ring was put there at count head - |ring| + k + 1.
  predicate Waiting(c: Config, s: State, k: nat)
    requires InBounds(s) && k < |s.ring|
  {
    s.items[s.ring[k]].chk > 0 ==> s.head - |s.ring| + k + 1 <= s.items[s.ring[k]].since + Ahead(c)
  }

  // An item was taken, or will go back, not much later than what is written down for it.
  predicate InHand(c: Config, s: State, e: nat)
    requires InBounds(s) && e < |s.items|
  {
    var h, i := s.hands[e], s.items[e];
    && (!h.Idle? ==> h.at <= s.head)
    && (!h.Idle? && !h.Cleared? && i.chk > 0 ==> h.at < i.since + Ahead(c) + c.total)
    && (h.Dropped? && i.chk > 0 ==> h.at <= i.since + c.delay)
  }

  ghost predicate ItemOk(c: Config, s: State, e: nat)
    requires InBounds(s) && e < |s.items|
  {
    && Owned(s.items[e], s.holders[e], s.hands[e], e in s.ring) && s.items[e].since <= s.snap && InHand(c, s, e)
  }

  // The percentage is that of the items in the ring when it was read, or of one less.
  predicate LevelOk(c: Config, s: State) {
    && 0 < c.total && s.level <= s.snap && s.level <= c.total
    && s.free == 100 * Distance(s.snap, s.snap - s.level) / c.total
  }

  ghost predicate Inv(c: Config, s: State) {
    && InBounds(s) && LevelOk(c, s) && |s.items| == c.total && NoDup(s.ring) && s.snap <= s.head
    && (forall e | 0 <= e < |s.items| :: ItemOk(c, s, e))
    && (forall k | 0 <= k < |s.ring| :: Waiting(c, s, k))
  }

  // The counting argument: what was put in the ring behind an item is still behind it.
  lemma NotOverdue(c: Config, s: State, e: nat)
    requires ConfigOk(c) && Inv(c, s) && Prompt(c, s) && e in s.ring
    ensures !Overdue(c, s, Seen(s, s.items[e]))
  {
    var k :| 0 <= k < |s.ring| && s.ring[k] == e;
    Pigeonhole(s.ring, c.total);
    assert Waiting(c, s, k) && ItemOk(c, s, e);
    var i := Seen(s, s.items[e]);
    AllocCountBound(s.snap, i.since);
  }

  // Nor does an item that a process has just taken or is about to put back.
  lemma NotOverdueInHand(c: Config, s: State, e: nat)
    requires ConfigOk(c) && Inv(c, s) && Prompt(c, s) && e < |s.items|
    requires !s.hands[e].Idle? && !s.hands[e].Cleared? && InTime(c, s, s.hands[e])
    ensures !Overdue(c, s, Seen(s, s.items[e]))
  {
    assert ItemOk(c, s, e);
    var i := Seen(s, s.items[e]);
    AllocCountBound(s.snap, i.since);
  }

  lemma ItemKept(c: Config, s: State, t: State, e: nat)
    requires InBounds(s) && InBounds(t) && e < |s.items| == |t.items| && ItemOk(c, s, e)
    requires t.items[e] == s.items[e] && t.holders[e] == s.holders[e] && t.hands[e] == s.hands[e]
    requires (e in t.ring <==> e in s.ring) && s.snap <= t.snap && s.head <= t.head
    ensures ItemOk(c, t, e)
  {
  }

  // Taking the first item: the others keep their places in the count.
  lemma TakeInv(c: Config, s: State, p: nat)
    requires ConfigOk(c) && Inv(c, s) && p != 0
    ensures Inv(c, TakeStep(s, p))
  {
    hide ItemOk;
    if s.ring != [] {
      var e, t := s.ring[0], TakeStep(s, p);
      forall k | 0 <= k < |t.ring|
        ensures t.ring[k] != e && Waiting(c, t, k)
      {
        assert t.ring[k] == s.ring[k + 1];
        assert Waiting(c, s, k + 1);
      }
      forall x | 0 <= x < |t.items|
        ensures ItemOk(c, t, x)
      {
        if x == e {
          TakenOk(c, s, p);
        } else {
          InTail(s.ring, x);
          ItemKept(c, s, t, x);
        }
      }
    }
  }

  lemma InTail(ring: seq<nat>, x: nat)
    requires ring != [] && x != ring[0]
    ensures x in ring[1..] <==> x in ring
  {
    assert ring == [ring[0]] + ring[1..];
  }

  lemma TakenOk(c: Config, s: State, p: nat)
    requires ConfigOk(c) && Inv(c, s) && s.ring != [] && p != 0
    ensures ItemOk(c, TakeStep(s, p), s.ring[0])
  {
    var e, t := s.ring[0], TakeStep(s, p);
    Pigeonhole(s.ring, c.total);
    assert Waiting(c, s, 0) && e in s.ring && ItemOk(c, s, e);
    assert s.holders[e] + {p} == {p};
    assert e !in t.ring;
  }

  // An item out of the ring is put at its end.
  lemma PutInv(c: Config, s: State, e: nat, i: Item)
    requires ConfigOk(c) && Inv(c, s) && e < |s.items| && e !in s.ring
    requires Owned(i, {}, Idle, true) && i.since <= s.snap && (i.chk > 0 ==> s.head + 1 <= i.since + Ahead(c))
    ensures Inv(c, WithItem(s, e, i, {}, Idle).(ring := s.ring + [e], head := s.head + 1))
  {
    hide ItemOk;
    var t := WithItem(s, e, i, {}, Idle).(ring := s.ring + [e], head := s.head + 1);
    forall k | 0 <= k < |t.ring|
      ensures Waiting(c, t, k)
    {
      if k < |s.ring| {
        assert Waiting(c, s, k);
      }
    }
    forall x | 0 <= x < |t.items|
      ensures ItemOk(c, t, x)
    {
      if x == e {
        PlacedOk(c, t, e);
      } else {
        ItemKept(c, s, t, x);
      }
    }
  }

  lemma PlacedOk(c: Config, t: State, e: nat)
    requires InBounds(t) && e < |t.items| && Owned(t.items[e], t.holders[e], t.hands[e], true)
    requires t.items[e].since <= t.snap && t.hands[e].Idle? && e in t.ring
    ensures ItemOk(c, t, e)
  {
  }

  // A change to one item that leaves it where it is.
  lemma KeepInv(c: Config, s: State, e: nat, i: Item, holders: set<nat>, hand: Hand)
    requires ConfigOk(c) && Inv(c, s) && e < |s.items|
    requires Owned(i, holders, hand, e in s.ring) && i.since <= s.snap
    requires InHand(c, WithItem(s, e, i, holders, hand), e)
    requires e in s.ring && i.chk > 0 ==>
               (s.items[e].chk > 0 && i.since == s.items[e].since) || s.head <= i.since + c.delay
    ensures Inv(c, WithItem(s, e, i, holders, hand))
  {
    var t := WithItem(s, e, i, holders, hand);
    forall k | 0 <= k < |t.ring|
      ensures Waiting(c, t, k)
    {
      assert Waiting(c, s, k) && s.ring[k] in s.ring;
    }
    forall x | 0 <= x < |t.items|
      ensures ItemOk(c, t, x)
    {
      if x != e {
        ItemKept(c, s, t, x);
      }
    }
  }

  lemma SameItem(s: State, e: nat)
    requires InBounds(s) && e < |s.items|
    ensures s.holders[e := s.holders[e]] == s.holders && s.hands[e := s.hands[e]] == s.hands
  {
  }

  // A check that finds an item overdue while a process has it in its hands.
  predicate Race(c: Config, s: State, e: nat)
    requires ConfigOk(c) && InBounds(s) && e < |s.items|
  {
    !s.hands[e].Idle? && Overdue(c, s, Seen(s, s.items[e]))
  }

  lemma CheckInv(c: Config, s: State, e: nat)
    requires ConfigOk(c) && Inv(c, s) && Prompt(c, s) && e < |s.items| && !Race(c, s, e)
    ensures Inv(c, CheckStep(c, s, e))
  {
    hide Overdue;
    var i := Seen(s, s.items[e]);
    assert ItemOk(c, s, e);
    SameItem(s, e);
    if !Overdue(c, s, i) {
      KeepInv(c, s, e, i, s.holders[e], s.hands[e]);
    } else if i.pid != 0 {
      KeepInv(c, s, e, i.(chk := 0), s.holders[e], s.hands[e]);
    } else {
      if e in s.ring {
        NotOverdue(c, s, e);
      }
      PutInv(c, s, e, i.(flag := false, chk := 0));
    }
  }

  lemma FlashLevel(c: Config, s: State)
    requires ConfigOk(c) && Inv(c, s)
    ensures LevelOk(c, FlashStep(c, s))
  {
    hide Percent, Distance, AllocCount, ItemOk, Waiting;
    Pigeonhole(s.ring, c.total);
    AllocCountExact(s.head, s.head - |s.ring|);
    SmallDistance(s.head, s.head - |s.ring|);
    PercentIs(c, Distance(s.head, s.head - |s.ring|));
  }

  lemma PercentIs(c: Config, count: nat)
    requires ConfigOk(c) && count <= c.total
    ensures Percent(count, c.total) == 100 * count / c.total
  {
  }

  lemma SmallDistance(head: nat, tail: nat)
    requires tail <= head < tail + U32
    ensures 0 <= Distance(head, tail) <= head - tail
  {
    AllocCountExact(head, tail);
  }

  lemma FlashInv(c: Config, s: State)
    requires ConfigOk(c) && Inv(c, s)
    ensures Inv(c, FlashStep(c, s))
  {
    hide Percent, Distance;
    var t := FlashStep(c, s);
    FlashLevel(c, s);
    forall k | 0 <= k < |t.ring|
      ensures Waiting(c, t, k)
    {
      assert Waiting(c, s, k);
    }
    forall x | 0 <= x < |t.items|
      ensures ItemOk(c, t, x)
    {
      ItemKept(c, s, t, x);
    }
  }

  // The steps of a process other than taking an item.
  lemma HandInv(c: Config, s: State, m: Move)
    requires ConfigOk(c) && Inv(c, s) && Enabled(c, s, m)
    requires m.Mark? || m.Own? || m.ClearPid? || m.Unmark? || m.Put? || m.Refree? || m.Die?
    ensures Inv(c, Step(c, s, m))
  {
    hide Inv, Waiting, ConfigOk;
    var e := m.e;
    InvItem(c, s, e);
    var i, h := s.items[e], s.hands[e];
    match m
    case Mark(_) => KeepInv(c, s, e, i.(flag := true, chk := 0), s.holders[e], Marked(h.p, h.at));
    case Own(_) => KeepInv(c, s, e, i.(pid := h.p), s.holders[e], Idle);
    case ClearPid(_) => KeepInv(c, s, e, i.(pid := 0), s.holders[e], Cleared(i.pid, s.head));
    case Unmark(_) => KeepInv(c, s, e, i.(flag := false, chk := 0), s.holders[e], Dropped(h.p, s.head));
    case Put(_) => PutInv(c, s, e, i);
    case Refree(_) => KeepInv(c, s, e, i.(pid := 0), s.holders[e], h);
    case Die(_) => KeepInv(c, s, e, i, {}, Idle);
  }

  lemma InvItem(c: Config, s: State, e: nat)
    requires Inv(c, s) && e < |s.items|
    ensures ItemOk(c, s, e)
  {
  }

  // Every step of every process and of the scanner keeps the invariant, except a race.
  lemma StepInv(c: Config, s: State, m: Move)
    requires ConfigOk(c) && Inv(c, s) && Enabled(c, s, m) && !(m.Check? && Race(c, s, m.e))
    ensures Inv(c, Step(c, s, m))
  {
    hide Inv, Race, TakeStep, FlashStep, CheckStep;
    match m
    case Take(p) => TakeInv(c, s, p);
    case Flash => FlashInv(c, s);
    case Check(e) => CheckInv(c, s, e);
    case _ => HandInv(c, s, m);
  }

  // All items are in the ring when the pool is made.
  function Init(c: Config): State {
    State(seq(c.total, i => i), c.total, 0, 0, 0, seq(c.total, _ => Item(false, 0, 0, 0)), seq(c.total, _ => {}),
          seq(c.total, _ => Idle))
  }

  lemma InitInv(c: Config)
    requires ConfigOk(c)
    ensures Inv(c, Init(c))
  {
  }

  // Runs of any length.

  ghost predicate Allowed(c: Config, s: State, moves: seq<Move>)
    requires ConfigOk(c)
    decreases |moves|
  {
    moves == [] || (Enabled(c, s, moves[0]) && Allowed(c, Step(c, s, moves[0]), moves[1..]))
  }

  ghost function After(c: Config, s: State, moves: seq<Move>): State
    requires ConfigOk(c) && Allowed(c, s, moves)
    decreases |moves|
  {
    if moves == [] then s else After(c, Step(c, s, moves[0]), moves[1..])
  }

  // No check of the run is a race.
  ghost predicate Raceless(c: Config, s: State, moves: seq<Move>)
    requires ConfigOk(c) && Allowed(c, s, moves)
    decreases |moves|
  {
    moves == [] ||
    (!(moves[0].Check? && Race(c, s, moves[0].e)) && Raceless(c, Step(c, s, moves[0]), moves[1..]))
  }

  lemma {:induction false} RunInv(c: Config, s: State, moves: seq<Move>)
    requires ConfigOk(c) && Inv(c, s) && Allowed(c, s, moves) && Raceless(c, s, moves)
    ensures Inv(c, After(c, s, moves))
    decreases |moves|
  {
    hide Inv, Step, Enabled, Race;
    if moves != [] {
      StepInv(c, s, moves[0]);
      RunInv(c, Step(c, s, moves[0]), moves[1..]);
    }
  }

  // The ring has no repetition, and an item that a process uses or has in its hands has
  // no other holder and is not in the ring.
  ghost predicate Safe(s: State) {
    && NoDup(s.ring)
    && forall e, p | 0 <= e < |s.holders| && p in s.holders[e] :: s.holders[e] == {p} && e !in s.ring
  }

  lemma InvSafe(c: Config, s: State)
    requires Inv(c, s)
    ensures Safe(s) && |s.ring| <= c.total
  {
    Pigeonhole(s.ring, c.total);
    forall e, p | 0 <= e < |s.holders| && p in s.holders[e]
      ensures s.holders[e] == {p} && e !in s.ring
    {
      assert ItemOk(c, s, e);
    }
  }

  // A check is safe exactly when it is not a race.
  lemma CheckSafe(c: Config, s: State, e: nat)
    requires ConfigOk(c) && Inv(c, s) && Prompt(c, s) && e < |s.items|
    ensures Safe(CheckStep(c, s, e)) <==> !Race(c, s, e)
  {
    hide Overdue, ConfigOk;
    InvItem(c, s, e);
    if Race(c, s, e) {
      var t := CheckStep(c, s, e);
      assert t.ring[|s.ring|] == e && s.hands[e].p in t.holders[e];
    } else {
      CheckInv(c, s, e);
      InvSafe(c, CheckStep(c, s, e));
    }
  }

  // Of the processes in time only one that has cleared the pid can be in a race.
  lemma RaceCleared(c: Config, s: State, e: nat)
    requires ConfigOk(c) && Inv(c, s) && Prompt(c, s) && e < |s.items| && InTime(c, s, s.hands[e])
    ensures Race(c, s, e) <==> s.hands[e].Cleared? && Overdue(c, s, Seen(s, s.items[e]))
  {
    if !s.hands[e].Idle? && !s.hands[e].Cleared? {
      NotOverdueInHand(c, s, e);
    }
  }

  // The pid was cleared long enough before the item could be overdue.
  predicate Early(c: Config, h: Hand, i: Item) {
    h.Cleared? && i.chk > 0 ==> h.at + c.stall < i.since + c.total * c.factor
  }

  lemma EarlyRaceless(c: Config, s: State, e: nat)
    requires ConfigOk(c) && Inv(c, s) && Prompt(c, s) && e < |s.items|
    requires InTime(c, s, s.hands[e]) && Early(c, s.hands[e], s.items[e])
    ensures !Race(c, s, e)
  {
    RaceCleared(c, s, e);
    assert ItemOk(c, s, e);
    AllocCountBound(s.snap, Seen(s, s.items[e]).since);
  }

  // Every state of the run is safe.
  ghost predicate AlwaysSafe(c: Config, s: State, moves: seq<Move>)
    requires ConfigOk(c) && Allowed(c, s, moves)
    decreases |moves|
  {
    Safe(s) && (moves == [] || AlwaysSafe(c, Step(c, s, moves[0]), moves[1..]))
  }

  lemma {:induction false} RunSafe(c: Config, s: State, moves: seq<Move>)
    requires ConfigOk(c) && Inv(c, s) && Allowed(c, s, moves)
    ensures AlwaysSafe(c, s, moves) <==> Raceless(c, s, moves)
    decreases |moves|
  {
    hide Inv, Safe, Race, CheckStep, Prompt, ConfigOk, Overdue;
    InvSafe(c, s);
    if moves != [] {
      var m := moves[0];
      if m.Check? {
        InvBounds(c, s);
        CheckSafe(c, s, m.e);
      }
      if !(m.Check? && Race(c, s, m.e)) {
        StepInv(c, s, m);
        RunSafe(c, Step(c, s, m), moves[1..]);
      }
    }
  }

  lemma InvBounds(c: Config, s: State)
    requires Inv(c, s)
    ensures InBounds(s) && |s.items| == c.total
  {
  }

  // In every run, whatever the interleaving of processes, deaths and checks: all its
  // states are safe if and only if no check is a race.
  lemma OneOwner(c: Config, moves: seq<Move>)
    requires ConfigOk(c) && Allowed(c, Init(c), moves)
    ensures AlwaysSafe(c, Init(c), moves) <==> Raceless(c, Init(c), moves)
    ensures Raceless(c, Init(c), moves) ==> |After(c, Init(c), moves).ring| <= c.total
  {
    hide Allowed, After, AlwaysSafe, Raceless, Inv;
    InitInv(c);
    RunSafe(c, Init(c), moves);
    if Raceless(c, Init(c), moves) {
      RunInv(c, Init(c), moves);
      InvSafe(c, After(c, Init(c), moves));
    }
  }

  // Each item is checked while the process that has it in its hands is in time, and its
  // holder clears the pid long enough before the item could be overdue.
  predicate Calm(c: Config, s: State, m: Move)
    requires ConfigOk(c) && Enabled(c, s, m)
  {
    match m
    case Check(e) => InTime(c, s, s.hands[e])
    case ClearPid(e) => s.items[e].chk > 0 ==> s.head + c.stall < s.items[e].since + c.total * c.factor
    case _ => true
  }

  ghost predicate CalmRun(c: Config, s: State, moves: seq<Move>)
    requires ConfigOk(c) && Allowed(c, s, moves)
    decreases |moves|
  {
    moves == [] || (Calm(c, s, moves[0]) && CalmRun(c, Step(c, s, moves[0]), moves[1..]))
  }

  ghost predicate AllEarly(c: Config, s: State)
    requires InBounds(s)
  {
    forall e | 0 <= e < |s.items| :: Early(c, s.hands[e], s.items[e])
  }

  lemma CalmStep(c: Config, s: State, m: Move)
    requires ConfigOk(c) && Inv(c, s) && AllEarly(c, s) && Enabled(c, s, m) && Calm(c, s, m)
    ensures !(m.Check? && Race(c, s, m.e)) && InBounds(Step(c, s, m)) && AllEarly(c, Step(c, s, m))
  {
    hide Race, Overdue;
    if m.Check? {
      EarlyRaceless(c, s, m.e);
      InvItem(c, s, m.e);
    }
    var t := Step(c, s, m);
    forall e | 0 <= e < |t.items|
      ensures Early(c, t.hands[e], t.items[e])
    {
      assert Early(c, s.hands[e], s.items[e]);
    }
  }

  // Such runs have no race.
  lemma {:induction false} CalmRaceless(c: Config, s: State, moves: seq<Move>)
    requires ConfigOk(c) && Inv(c, s) && AllEarly(c, s) && Allowed(c, s, moves) && CalmRun(c, s, moves)
    ensures Raceless(c, s, moves)
    decreases |moves|
  {
    hide Inv, Race, Step, Enabled, Calm, AllEarly, ConfigOk;
    if moves != [] {
      CalmStep(c, s, moves[0]);
      StepInv(c, s, moves[0]);
      CalmRaceless(c, Step(c, s, moves[0]), moves[1..]);
    }
  }

  lemma CalmSafe(c: Config, moves: seq<Move>)
    requires ConfigOk(c) && Allowed(c, Init(c), moves) && CalmRun(c, Init(c), moves)
    ensures AlwaysSafe(c, Init(c), moves)
  {
    hide Allowed, AlwaysSafe, Raceless, CalmRun;
    InitInv(c);
    CalmRaceless(c, Init(c), moves);
    RunSafe(c, Init(c), moves);
  }

  // In every run without a race a check that is none either leaves an item alone that is
  // in the ring or has a holder.
  lemma NeverForced(c: Config, moves: seq<Move>, e: nat)
    requires ConfigOk(c) && Allowed(c, Init(c), moves) && Raceless(c, Init(c), moves)
    requires Enabled(c, After(c, Init(c), moves), Check(e))
    ensures var s := After(c, Init(c), moves);
            s.ring != CheckStep(c, s, e).ring ==> e !in s.ring && (s.holders[e] == {} || Race(c, s, e))
  {
    hide Overdue, Allowed, After, Raceless;
    InitInv(c);
    RunInv(c, Init(c), moves);
    var s := After(c, Init(c), moves);
    InvItem(c, s, e);
    if e in s.ring {
      NotOverdue(c, s, e);
    }
  }

  // The state at the last reading of the counters, if there was one.
  ghost function LastRead(c: Config, s: State, moves: seq<Move>): Option<State>
    requires ConfigOk(c) && Allowed(c, s, moves)
    decreases |moves|
  {
    if moves == [] then None
    else
      var last := LastRead(c, Step(c, s, moves[0]), moves[1..]);
      if last.None? && moves[0].Flash? then Some(s) else last
  }

  // What the scanner goes by is the ring as it was then.
  lemma {:induction false} ReadingKept(c: Config, s: State, moves: seq<Move>)
    requires ConfigOk(c) && Allowed(c, s, moves)
    ensures var t, last := After(c, s, moves), LastRead(c, s, moves);
            if last.None? then t.snap == s.snap && t.level == s.level
            else t.snap == last.value.head && t.level == |last.value.ring|
    decreases |moves|
  {
    hide Overdue, Percent;
    if moves != [] {
      ReadingKept(c, Step(c, s, moves[0]), moves[1..]);
    }
  }

  // An item that is checked now is due: enough checks since its record began, few enough
  // items in the ring, and enough items put back since.
  ghost predicate Due(c: Config, s: State, e: nat)
    requires Inv(c, s) && e < |s.items|
  {
    var i := s.items[e];
    assert ItemOk(c, s, e);
    && c.checks <= (i.chk + 1) % U16
    && 100 * Distance(s.snap, s.snap - s.level) / c.total <= c.percent
    && c.total * c.factor <= Distance(s.snap, if i.chk == 0 then s.snap else i.since)
  }

  // Exactly then, and if no process has it, the check puts it into the ring.
  lemma ForcedIff(c: Config, s: State, e: nat)
    requires ConfigOk(c) && Inv(c, s) && e < |s.items|
    ensures Overdue(c, s, Seen(s, s.items[e])) <==> Due(c, s, e)
    ensures CheckStep(c, s, e).ring == if Due(c, s, e) && s.items[e].pid == 0 then s.ring + [e] else s.ring
    ensures var i, j := s.items[e], CheckStep(c, s, e).items[e];
            && j.pid == i.pid && j.since == (if i.chk == 0 then s.snap else i.since)
            && j.chk == (if Due(c, s, e) then 0 else (i.chk + 1) % U16)
            && j.flag == (i.flag && !(Due(c, s, e) && i.pid == 0))
  {
    hide Distance, AllocCount;
    InvItem(c, s, e);
    AllocCountExact(s.snap, Seen(s, s.items[e]).since);
  }

  // Runs in which item e is neither marked, unmarked nor found due: its record is of the
  // checks of this item and of no others.

  ghost predicate Undisturbed(c: Config, s: State, moves: seq<Move>, e: nat)
    requires ConfigOk(c) && Allowed(c, s, moves) && e < |s.items|
    decreases |moves|
  {
    moves == [] ||
    (&& moves[0] != Mark(e) && moves[0] != Unmark(e) && |Step(c, s, moves[0]).items| == |s.items|
     && (moves[0] == Check(e) ==> !Overdue(c, s, Seen(s, s.items[e])))
     && Undisturbed(c, Step(c, s, moves[0]), moves[1..], e))
  }

  function Checks(moves: seq<Move>, e: nat): nat {
    if moves == [] then 0 else (if moves[0] == Check(e) then 1 else 0) + Checks(moves[1..], e)
  }

  // The reading of the ring at the first check of e.
  ghost function FirstReading(c: Config, s: State, moves: seq<Move>, e: nat): nat
    requires ConfigOk(c) && Allowed(c, s, moves)
    decreases |moves|
  {
    if moves == [] || moves[0] == Check(e) then s.snap else FirstReading(c, Step(c, s, moves[0]), moves[1..], e)
  }

  lemma {:induction false} ChecksCounted(c: Config, s: State, moves: seq<Move>, e: nat)
    requires ConfigOk(c) && Allowed(c, s, moves) && e < |s.items| && Undisturbed(c, s, moves, e)
    requires s.items[e].chk + Checks(moves, e) < U16
    ensures var t, k := After(c, s, moves), Checks(moves, e);
      && |t.items| == |s.items| && t.items[e].chk == s.items[e].chk + k
      && t.items[e].since == if s.items[e].chk > 0 || k == 0 then s.items[e].since else FirstReading(c, s, moves, e)
    decreases |moves|
  {
    hide Overdue;
    if moves != [] {
      RecordStep(c, s, moves[0], e);
      ChecksCounted(c, Step(c, s, moves[0]), moves[1..], e);
    }
  }

  lemma RecordStep(c: Config, s: State, m: Move, e: nat)
    requires ConfigOk(c) && Enabled(c, s, m) && e < |s.items| && m != Mark(e) && m != Unmark(e)
    requires m == Check(e) ==> !Overdue(c, s, Seen(s, s.items[e])) && s.items[e].chk + 1 < U16
    ensures var i, t := s.items[e], Step(c, s, m);
      && |t.items| == |s.items| && t.items[e].chk == i.chk + (if m == Check(e) then 1 else 0)
      && t.items[e].since == if m == Check(e) && i.chk == 0 then s.snap else i.since
  {
    hide Overdue;
  }

  // A leaked item is put back by the check that finds the ring low on items and at
  // least total * factor of them, and one for the wrap, given back since the first.
  lemma LeakForced(c: Config, s: State, e: nat)
    requires ConfigOk(c) && Inv(c, s) && e < |s.items| && s.holders[e] == {} && e !in s.ring && s.items[e].pid == 0
    requires 0 < s.items[e].chk < U16 - 1 && c.checks <= s.items[e].chk + 1 && s.free <= c.percent
    requires c.total * c.factor < s.snap - s.items[e].since < U32
    ensures CheckStep(c, s, e).ring == s.ring + [e]
  {
    hide AllocCount, LevelOk, ItemOk, Waiting;
    InvItem(c, s, e);
    AllocCountBound(s.snap, s.items[e].since);
  }

  // The fields of an item as the pool stores them.
  datatype Res = Res(flag: bool, chk: nat, pid: nat, data: nat)

  function Wrapped(i: Item): Res { Res(i.flag, i.chk, i.pid, i.since % U32) }

  // Taking an item in one go, and giving it back.

  function AllocStep(s: State, p: nat): State
    requires InBounds(s)
  {
    if s.ring == [] then s else OwnStep(MarkStep(TakeStep(s, p), s.ring[0]), s.ring[0])
  }

  function FreeStep(s: State, e: nat): State
    requires InBounds(s) && e < |s.items|
  {
    if s.items[e].flag then PutStep(UnmarkStep(ClearPidStep(s, e), e), e) else RefreeStep(s, e)
  }

  lemma FreeShape(s: State, e: nat)
    requires InBounds(s) && e < |s.items| && s.items[e].flag
    ensures FreeStep(s, e) ==
            WithItem(s, e, s.items[e].(flag := false, chk := 0, pid := 0), {}, Idle)
            .(ring := s.ring + [e], head := s.head + 1)
  {
    var t := FreeStep(s, e);
    assert t.hands == s.hands[e := Idle] && t.holders == s.holders[e := {}];
  }

  lemma RefreeShape(s: State, e: nat)
    requires InBounds(s) && e < |s.items| && !s.items[e].flag
    ensures FreeStep(s, e) == s.(items := s.items[e := s.items[e].(pid := 0)])
  {
    SameItem(s, e);
  }

  // The pool and the scanner with 32-bit counters; s is the state they stand for.
  class Pool {
    const cfg: Config
    var ring: seq<nat>
    var prodHead: nat
    var consTail: nat
    var items: seq<Res>
    var consHead: nat
    var freePercent: nat
    var lastIdx: nat
    ghost var s: State

    ghost predicate Matches()
      reads this
    {
      && ConfigOk(cfg) && InBounds(s) && ring == s.ring
      && prodHead == s.head % U32 && consTail == (s.head - |ring|) % U32
      && consHead == s.snap % U32 && freePercent == s.free
      && |items| == |s.items| == cfg.total && lastIdx < cfg.total
      && forall e | 0 <= e < |items| :: items[e] == Wrapped(s.items[e])
    }

    constructor (c: Config)
      requires ConfigOk(c)
      ensures Matches() && cfg == c && s == Init(c) && Inv(c, s)
    {
      cfg := c;
      ring := seq(c.total, i => i);
      prodHead, consTail, consHead, freePercent, lastIdx := c.total % U32, 0, 0, 0, 0;
      items := seq(c.total, _ => Res(false, 0, 0, 0));
      s := Init(c);
      InitInv(c);
    }

    // nsep_alloc_epitem; -1 when the ring is empty.
    method AllocEpitem(p: nat) returns (e: int)
      requires Matches() && p != 0
      modifies this
      ensures Matches() && s == AllocStep(old(s), p) && lastIdx == old(lastIdx)
      ensures e == if old(ring) == [] then -1 else old(ring)[0]
    {
      if ring == [] {
        return -1;
      }
      e := ring[0];
      ring := ring[1..];
      consTail := (consTail + 1) % U32;
      items := items[e := items[e].(flag := true, chk := 0)];
      items := items[e := items[e].(pid := p)];
      NextCount(s.head - |s.ring|);
      s := AllocStep(s, p);
    }

    // nsep_free_epitem
    method FreeEpitem(e: nat)
      requires e < |items| && prodHead < U32
      modifies this`items, this`ring, this`prodHead
      ensures old(items[e].flag) ==>
                && items == old(items)[e := old(items[e]).(pid := 0, chk := 0, flag := false)]
                && ring == old(ring) + [e] && prodHead == (old(prodHead) + 1) % U32
      ensures !old(items[e].flag) ==>
                items == old(items)[e := old(items[e]).(pid := 0)] && ring == old(ring) && prodHead == old(prodHead)
    {
      items := items[e := items[e].(pid := 0)];
      if !items[e].flag {
        return;
      }
      items := items[e := items[e].(chk := 0, flag := false)];
      ring := ring + [e];
      prodHead := (prodHead + 1) % U32;
    }

    // A process gives an item back, or once more one that it gave back before.
    method GiveBack(e: nat)
      requires Matches() && e < cfg.total
      modifies this
      ensures Matches() && s == FreeStep(old(s), e) && lastIdx == old(lastIdx)
    {
      hide FreeStep;
      NextCount(s.head);
      if s.items[e].flag {
        FreeShape(s, e);
      } else {
        RefreeShape(s, e);
      }
      FreeEpitem(e);
      s := FreeStep(s, e);
    }

    // nsep_force_epitem_free
    method ForceFree(e: nat) returns (ok: bool)
      requires Matches() && e < cfg.total
      modifies this
      ensures Matches() && lastIdx == old(lastIdx) && (ok <==> old(items[e].pid) == 0)
      ensures s == if !ok then old(s)
                   else old(s).(items := old(s).items[e := old(s).items[e].(flag := false, chk := 0)],
                                ring := old(s).ring + [e], head := old(s).head + 1)
    {
      if items[e].pid != 0 {
        return false;
      }
      items := items[e := items[e].(flag := true, chk := 0)];
      NextCount(s.head);
      FreeEpitem(e);
      s := s.(items := s.items[e := s.items[e].(flag := false, chk := 0)], ring := s.ring + [e], head := s.head + 1);
      ok := true;
    }

    method CountCheck(e: nat)
      requires Matches() && e < cfg.total
      modifies this`items, this`s
      ensures Matches() && s == old(s).(items := old(s).items[e := Seen(old(s), old(s).items[e])])
    {
      if items[e].chk == 0 {
        items := items[e := items[e].(data := consHead)];
      }
      items := items[e := items[e].(chk := (items[e].chk + 1) % U16)];
      s := s.(items := s.items[e := Seen(s, s.items[e])]);
    }

    method ResetCheck(e: nat)
      requires Matches() && e < cfg.total
      modifies this`items, this`s
      ensures Matches() && s == old(s).(items := old(s).items[e := old(s).items[e].(chk := 0)])
    {
      items := items[e := items[e].(chk := 0)];
      s := s.(items := s.items[e := s.items[e].(chk := 0)]);
    }

    // nsfw_res_sp_item_chk
    method ItemCheck(e: nat) returns (forced: bool)
      requires Matches() && e < cfg.total
      modifies this
      ensures Matches() && s == CheckStep(cfg, old(s), e) && lastIdx == old(lastIdx)
      ensures forced <==> Overdue(cfg, old(s), Seen(old(s), old(s).items[e]))
      ensures Inv(cfg, old(s)) ==> (forced <==> Due(cfg, old(s), e))
    {
      if Inv(cfg, s) {
        ForcedIff(cfg, s, e);
      }
      hide Seen, AllocCount, InBounds, Inv, Due;
      assert InBounds(s);
      CountCheck(e);
      if items[e].chk < cfg.checks {
        return false;
      }
      if freePercent > cfg.percent {
        return false;
      }
      if cfg.total * cfg.factor > AllocCount(consHead, items[e].data) {
        return false;
      }
      var ok := ForceFree(e);
      ResetCheck(e);
      return true;
    }

    // nsfw_res_flash_data for the array pool
    method FlashData()
      requires Matches()
      modifies this`consHead, this`freePercent, this`s
      ensures Matches() && s == FlashStep(cfg, old(s))
    {
      var count := AllocCount(prodHead, consTail);
      consHead := prodHead;
      freePercent := Percent(count, cfg.total);
      s := FlashStep(cfg, s);
    }

    // nsfw_res_scan_array, right after the counters were read.
    method ScanArray()
      requires Matches() && Inv(cfg, s) && Ready(cfg, s, lastIdx) && s.head == s.snap
      modifies this
      ensures Matches() && Inv(cfg, s)
      ensures s == Checked(cfg, old(s), old(lastIdx), EndOfCycle(cfg, old(lastIdx)))
      ensures lastIdx == NextStart(cfg, old(lastIdx))
    {
      hide Inv, CheckStep, InBounds, Overdue, Seen, ConfigOk, Wrapped, Ready, Race, Prompt;
      var i := lastIdx;
      ghost var t := s;
      while i < cfg.total
        invariant lastIdx == old(lastIdx) <= i <= EndOfCycle(cfg, lastIdx)
        invariant Matches() && Inv(cfg, s) && s.head <= s.snap + (i - lastIdx) && s.snap == t.snap && s.hands == t.hands
        invariant |s.items| == |t.items| && s.items[i..] == t.items[i..]
        invariant s == Checked(cfg, t, lastIdx, i)
      {
        if i >= lastIdx + cfg.perCycle {
          break;
        }
        assert s.items[i..][0] == t.items[i..][0];
        ReadyCheck(cfg, t, s, lastIdx, i);
        CheckInv(cfg, s, i);
        CheckGrows(cfg, s, i);
        var forced := ItemCheck(i);
        i := i + 1;
      }
      if i >= cfg.total {
        lastIdx := 0;
      } else {
        lastIdx := i;
      }
    }

    // One cycle of nsfw_res_scan_proc.
    method ScanCycle()
      requires Matches() && Inv(cfg, s) && Ready(cfg, s, lastIdx)
      modifies this
      ensures Matches() && Inv(cfg, s)
      ensures s == Checked(cfg, FlashStep(cfg, old(s)), old(lastIdx), EndOfCycle(cfg, old(lastIdx)))
      ensures lastIdx == NextStart(cfg, old(lastIdx))
    {
      FlashInv(cfg, s);
      FlashData();
      ScanArray();
    }
  }

  function EndOfCycle(c: Config, first: nat): nat {
    if first + c.perCycle < c.total then first + c.perCycle else c.total
  }

  function NextStart(c: Config, first: nat): nat {
    if EndOfCycle(c, first) == c.total then 0 else EndOfCycle(c, first)
  }

  // Where the scanner starts after n cycles.
  function StartOf(c: Config, n: nat): (first: nat)
    requires 0 < c.total && 0 < c.perCycle
    ensures first < c.total
  {
    if n == 0 then 0 else NextStart(c, StartOf(c, n - 1))
  }

  // Every item is checked once in each round of the scanner over the pool, in the cycle
  // its number says.
  lemma CyclesCover(c: Config, e: nat)
    requires 0 < c.perCycle && e < c.total
    ensures var first := StartOf(c, e / c.perCycle); first <= e < EndOfCycle(c, first)
  {
    var n := e / c.perCycle;
    assert c.perCycle * n <= e < c.perCycle * n + c.perCycle;
    StartsAt(c, n);
  }

  lemma {:induction false} StartsAt(c: Config, n: nat)
    requires 0 < c.perCycle && c.perCycle * n < c.total
    ensures StartOf(c, n) == c.perCycle * n
  {
    if n > 0 {
      assert c.perCycle * n == c.perCycle * (n - 1) + c.perCycle;
      StartsAt(c, n - 1);
    }
  }

  // The items from first to upto - 1, checked in turn.
  function Checked(c: Config, s: State, first: nat, upto: nat): (t: State)
    requires ConfigOk(c) && InBounds(s) && first <= upto <= |s.items|
    ensures InBounds(t) && |t.items| == |s.items|
    decreases upto
  {
    if first == upto then s else CheckStep(c, Checked(c, s, first, upto - 1), upto - 1)
  }

  lemma CheckGrows(c: Config, s: State, e: nat)
    requires ConfigOk(c) && InBounds(s) && e < |s.items|
    ensures var t := CheckStep(c, s, e);
      && t.snap == s.snap && t.hands == s.hands && s.head <= t.head <= s.head + 1
      && |t.items| == |s.items| && t.items[e + 1..] == s.items[e + 1..]
  {
  }

  // An uninterrupted cycle that begins now is short enough, and the processes with one of
  // its items in their hands stay in time and have not cleared a pid late.
  ghost predicate Ready(c: Config, s: State, first: nat) {
    && InBounds(s) && c.perCycle <= c.delay
    && forall x | first <= x < EndOfCycle(c, first) && x < |s.items| && !s.hands[x].Idle? ::
         s.head + c.perCycle <= s.hands[x].at + c.stall && Early(c, s.hands[x], s.items[x])
  }

  // The items that the cycle has yet to check are as they were.
  lemma ReadyCheck(c: Config, t: State, s: State, first: nat, e: nat)
    requires ConfigOk(c) && Inv(c, s) && Ready(c, t, first) && t.head == t.snap == s.snap
    requires s.hands == t.hands && |s.items| == |t.items| && first <= e < EndOfCycle(c, first) && e < |s.items|
    requires s.items[e] == t.items[e] && s.head <= s.snap + (e - first)
    ensures Prompt(c, s) && !Race(c, s, e)
  {
    hide Race, Inv, ConfigOk;
    EarlyRaceless(c, s, e);
  }

  lemma NextCount(n: nat)
    ensures (n % U32 + 1) % U32 == (n + 1) % U32
  {
  }

  lemma {:induction false} RunMore(c: Config, s: State, moves: seq<Move>, m: Move)
    requires ConfigOk(c) && Allowed(c, s, moves) && Enabled(c, After(c, s, moves), m)
    ensures Allowed(c, s, moves + [m]) && After(c, s, moves + [m]) == Step(c, After(c, s, moves), m)
    decreases |moves|
  {
    hide Step, Enabled;
    if moves == [] {
      assert [m][1..] == [];
    } else {
      RunMore(c, Step(c, s, moves[0]), moves[1..], m);
      assert (moves + [m])[1..] == moves[1..] + [m];
    }
  }

  // A cycle of the scanner that nothing interrupts, as moves.
  function Cycle(first: nat, upto: nat): seq<Move>
    requires first <= upto
    decreases upto
  {
    if first == upto then [Flash] else Cycle(first, upto - 1) + [Check(upto - 1)]
  }

  // Such a cycle may come whenever the processes with items in their hands are in time.
  lemma {:induction false} CycleAllowed(c: Config, s: State, first: nat, upto: nat)
    requires ConfigOk(c) && Inv(c, s) && Ready(c, s, first) && first <= upto <= EndOfCycle(c, first) && first <= c.total
    ensures Allowed(c, s, Cycle(first, upto))
    ensures After(c, s, Cycle(first, upto)) == Checked(c, FlashStep(c, s), first, upto)
    ensures var t := After(c, s, Cycle(first, upto));
            && Inv(c, t) && t.head <= t.snap + (upto - first) && t.snap == s.head && t.hands == s.hands
            && |t.items| == |s.items| && t.items[upto..] == s.items[upto..]
    decreases upto
  {
    hide CheckStep, ConfigOk, Ready, Inv, Race, Prompt, Percent, AllocCount, InBounds;
    FlashInv(c, s);
    InvBounds(c, s);
    if first == upto {
      assert [Flash][1..] == [];
    } else {
      CycleAllowed(c, s, first, upto - 1);
      var t := After(c, s, Cycle(first, upto - 1));
      ReadyFlash(c, s, first);
      assert t.items[upto - 1..][0] == s.items[upto - 1..][0];
      ReadyCheck(c, FlashStep(c, s), t, first, upto - 1);
      RunMore(c, s, Cycle(first, upto - 1), Check(upto - 1));
      CheckInv(c, t, upto - 1);
      CheckGrows(c, t, upto - 1);
    }
  }

  lemma ReadyFlash(c: Config, s: State, first: nat)
    requires ConfigOk(c) && Ready(c, s, first)
    ensures Ready(c, FlashStep(c, s), first)
  {
  }

  // The cycle for the epitem pool leaves a wide margin for held-up processes.
  lemma EpitemConfig()
    ensures ConfigOk(Config(16384, 16, 3, 90, 128, 16384, 65536))
  {
  }
}
