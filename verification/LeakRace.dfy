// A race of the leak scanner, for every configuration of a pool: a process clears the pid
// of an item that it has used for long, the scanner forces the item before it is unmarked,
// another process takes it, and the first one goes on.
module LeakRace {
  import opened Basics
  import opened LeakScanner

  // What the registered values must allow: two items, a check count that does not wrap
  // first, and a ring with one item that counts as low.
  predicate Racy(c: Config) {
    && ConfigOk(c) && 2 <= c.total && c.checks < U16 && Percent(1, c.total) <= c.percent
    && c.total * c.factor + 1 < U32
  }

  // The values of the epitem pool do.
  lemma EpitemRacy()
    ensures Racy(Config(16384, 16, 3, 90, 128, 16384, 65536))
  {
  }

  // Runs without a race, move by move.

  ghost predicate Reached(c: Config, from: State, moves: seq<Move>, s: State) {
    ConfigOk(c) && Allowed(c, from, moves) && Raceless(c, from, moves) && After(c, from, moves) == s
  }

  lemma Start(c: Config, s: State)
    requires ConfigOk(c)
    ensures Reached(c, s, [], s)
  {
  }

  lemma {:induction false} RacelessMore(c: Config, s: State, moves: seq<Move>, m: Move)
    requires ConfigOk(c) && Allowed(c, s, moves + [m]) && Allowed(c, s, moves) && Raceless(c, s, moves)
    requires Enabled(c, After(c, s, moves), m) && !(m.Check? && Race(c, After(c, s, moves), m.e))
    ensures Raceless(c, s, moves + [m])
    decreases |moves|
  {
    hide Step, Enabled, Race;
    if moves == [] {
      assert [m][1..] == [];
    } else {
      assert (moves + [m])[1..] == moves[1..] + [m];
      RacelessMore(c, Step(c, s, moves[0]), moves[1..], m);
    }
  }

  lemma Go(c: Config, from: State, moves: seq<Move>, s: State, m: Move) returns (more: seq<Move>)
    requires Reached(c, from, moves, s) && Enabled(c, s, m) && !(m.Check? && Race(c, s, m.e))
    ensures Reached(c, from, more, Step(c, s, m))
  {
    hide Step, Enabled, Race;
    RunMore(c, from, moves, m);
    RacelessMore(c, from, moves, m);
    more := moves + [m];
  }

  // Process p takes the first item of the ring.
  lemma GoAlloc(c: Config, from: State, moves: seq<Move>, s: State, p: nat) returns (more: seq<Move>)
    requires Reached(c, from, moves, s) && InBounds(s) && s.ring != [] && p != 0
    ensures Reached(c, from, more, AllocStep(s, p))
  {
    hide Reached;
    var e := s.ring[0];
    more := Go(c, from, moves, s, Take(p));
    var t := TakeStep(s, p);
    more := Go(c, from, more, t, Mark(e));
    more := Go(c, from, more, MarkStep(t, e), Own(e));
  }

  lemma AllocShape(s: State, p: nat)
    requires InBounds(s) && s.ring != []
    ensures var e := s.ring[0];
            AllocStep(s, p) ==
            WithItem(s, e, s.items[e].(flag := true, chk := 0, pid := p), s.holders[e] + {p}, Idle)
            .(ring := s.ring[1..])
  {
    var e, t := s.ring[0], AllocStep(s, p);
    assert t.hands == s.hands[e := Idle] && t.holders == s.holders[e := s.holders[e] + {p}];
  }

  // The holder gives item e back.
  lemma GoFree(c: Config, from: State, moves: seq<Move>, s: State, e: nat) returns (more: seq<Move>)
    requires Reached(c, from, moves, s) && InBounds(s) && e < |s.items|
    requires s.hands[e].Idle? && s.holders[e] != {} && s.items[e].flag
    ensures Reached(c, from, more, FreeStep(s, e))
  {
    hide Reached;
    more := Go(c, from, moves, s, ClearPid(e));
    var t := ClearPidStep(s, e);
    more := Go(c, from, more, t, Unmark(e));
    more := Go(c, from, more, UnmarkStep(t, e), Put(e));
  }

  // Process 1 has the first k items, and the others are in the ring.
  ghost predicate Taking(c: Config, s: State, k: nat) {
    && InBounds(s) && |s.items| == c.total && k < c.total && s.head == c.total
    && |s.ring| == c.total - k && (forall i | 0 <= i < |s.ring| :: s.ring[i] == k + i)
    && (forall x | 0 <= x < c.total :: s.hands[x].Idle?) && (forall x | k <= x < c.total :: s.holders[x] == {})
    && (k > 0 ==> s.holders[0] == {1} && s.items[0].flag && s.items[0].chk == 0 && s.items[0].pid == 1)
  }

  lemma TakeOne(c: Config, s: State, k: nat)
    requires Taking(c, s, k) && k + 1 < c.total
    ensures Taking(c, AllocStep(s, 1), k + 1)
  {
    AllocShape(s, 1);
    assert s.ring[0] == k;
    assert s.holders[k] + {1} == {1};
  }

  lemma GoTaken(c: Config) returns (moves: seq<Move>, s: State)
    requires Racy(c)
    ensures Reached(c, Init(c), moves, s) && Taking(c, s, c.total - 1)
  {
    hide Reached;
    moves, s := [], Init(c);
    Start(c, s);
    for k := 0 to c.total - 1
      invariant Reached(c, Init(c), moves, s) && Taking(c, s, k)
    {
      moves := GoAlloc(c, Init(c), moves, s, 1);
      TakeOne(c, s, k);
      s := AllocStep(s, 1);
    }
  }

  // Process 1 has item 0, checked k times; the last item was given back n times.
  ghost predicate Busy(c: Config, s: State, n: nat, k: nat) {
    && InBounds(s) && |s.items| == c.total && c.total >= 2 && s.ring == [c.total - 1]
    && s.head == c.total + n && s.snap == c.total
    && s.items[0].flag && s.items[0].chk == k && s.items[0].pid == 1 && (k > 0 ==> s.items[0].since == c.total)
    && s.holders[0] == {1} && s.hands[0].Idle? && s.holders[c.total - 1] == {} && s.hands[c.total - 1].Idle?
  }

  lemma TakenBusy(c: Config, s: State)
    requires Racy(c) && Taking(c, s, c.total - 1)
    ensures Busy(c, FlashStep(c, s), 0, 0)
  {
    assert s.ring[0] == c.total - 1;
    assert s.ring == [c.total - 1];
  }

  lemma CheckBusy(c: Config, s: State, k: nat)
    requires Racy(c) && Busy(c, s, 0, k) && k + 1 < U16
    ensures Busy(c, CheckStep(c, s, 0), 0, k + 1)
  {
    assert AllocCount(s.snap % U32, Seen(s, s.items[0]).since % U32) == 0;
  }

  lemma GoChecked(c: Config, upto: nat) returns (moves: seq<Move>, s: State)
    requires Racy(c) && upto < U16
    ensures Reached(c, Init(c), moves, s) && Busy(c, s, 0, upto)
  {
    hide Reached;
    moves, s := GoTaken(c);
    moves := Go(c, Init(c), moves, s, Flash);
    TakenBusy(c, s);
    s := FlashStep(c, s);
    for k := 0 to upto
      invariant Reached(c, Init(c), moves, s) && Busy(c, s, 0, k)
    {
      moves := Go(c, Init(c), moves, s, Check(0));
      CheckBusy(c, s, k);
      s := CheckStep(c, s, 0);
    }
  }

  lemma RoundBusy(c: Config, s: State, n: nat, k: nat)
    requires Busy(c, s, n, k)
    ensures var t := AllocStep(s, 2); var e := c.total - 1;
            && InBounds(t) && |t.items| == c.total && t.hands[e].Idle? && t.holders[e] != {} && t.items[e].flag
            && Busy(c, FreeStep(t, e), n + 1, k)
  {
    AllocShape(s, 2);
    var t, e := AllocStep(s, 2), c.total - 1;
    assert 2 in t.holders[e];
    FreeShape(t, e);
  }

  lemma GoRounds(c: Config, upto: nat, k: nat) returns (moves: seq<Move>, s: State)
    requires Racy(c) && k < U16
    ensures Reached(c, Init(c), moves, s) && Busy(c, s, upto, k)
  {
    hide Reached;
    moves, s := GoChecked(c, k);
    for n := 0 to upto
      invariant Reached(c, Init(c), moves, s) && Busy(c, s, n, k)
    {
      moves := GoAlloc(c, Init(c), moves, s, 2);
      RoundBusy(c, s, n, k);
      s := AllocStep(s, 2);
      moves := GoFree(c, Init(c), moves, s, c.total - 1);
      s := FreeStep(s, c.total - 1);
    }
  }

  // The scanner reads the counters, and process 1 clears the pid.
  function Racing(c: Config, s: State): State
    requires ConfigOk(c) && InBounds(s) && |s.items| > 0
  {
    ClearPidStep(FlashStep(c, s), 0)
  }

  lemma OnePercent(c: Config, count: nat)
    requires Racy(c) && count <= 1
    ensures Percent(count, c.total) <= c.percent
  {
  }

  lemma RacingRace(c: Config, s: State, k: nat)
    requires Racy(c) && Busy(c, s, c.total * c.factor + 1, k) && 0 < k && c.checks <= k + 1 < U16
    ensures var t := Racing(c, s); t.hands[0] == Cleared(1, t.head) && Prompt(c, t) && Race(c, t, 0)
  {
    hide Percent, AllocCount, ConfigOk;
    RacingLow(c, s.head);
    RacingCount(c, s.head);
  }

  lemma RacingLow(c: Config, head: nat)
    requires Racy(c) && head > 0
    ensures Percent(AllocCount(head % U32, (head - 1) % U32), c.total) <= c.percent
  {
    hide Percent, AllocCount;
    AllocCountBound(head, head - 1);
    OnePercent(c, AllocCount(head % U32, (head - 1) % U32));
  }

  lemma RacingCount(c: Config, head: nat)
    requires Racy(c) && head == c.total + c.total * c.factor + 1
    ensures c.total * c.factor <= AllocCount(head % U32, c.total % U32)
  {
    hide Percent, AllocCount;
    AllocCountBound(head, c.total);
  }

  lemma GoRace(c: Config) returns (moves: seq<Move>, s: State)
    requires Racy(c)
    ensures Reached(c, Init(c), moves, s)
    ensures InBounds(s) && |s.items| == c.total >= 2 && s.ring == [c.total - 1]
    ensures s.items[0].pid == 0 && s.hands[0] == Cleared(1, s.head) && Prompt(c, s) && Race(c, s, 0)
  {
    hide Reached, Race;
    var k := if c.checks == 1 then 1 else c.checks - 1;
    moves, s := GoRounds(c, c.total * c.factor + 1, k);
    RacingRace(c, s, k);
    moves := Go(c, Init(c), moves, s, Flash);
    moves := Go(c, Init(c), moves, FlashStep(c, s), ClearPid(0));
    s := Racing(c, s);
  }

  // What process 1 has yet to do in nsep_free_epitem.
  function LateFree(s: State, e: nat): State
    requires InBounds(s) && e < |s.items|
  {
    if !s.items[e].flag then s
    else s.(items := s.items[e := s.items[e].(flag := false, chk := 0)], ring := s.ring + [e], head := s.head + 1)
  }

  lemma RacedShape(c: Config, s: State)
    requires ConfigOk(c) && InBounds(s) && |s.items| == c.total >= 2 && s.ring == [c.total - 1]
    requires s.items[0].pid == 0 && Race(c, s, 0)
    ensures var t := CheckStep(c, s, 0);
            InBounds(t) && |t.items| == c.total && t.ring == [c.total - 1, 0]
  {
  }

  // With the item forced, processes 3 and 4 take what is in the ring.
  lemma GoStolen(c: Config, s: State) returns (moves: seq<Move>, t: State)
    requires ConfigOk(c) && InBounds(s) && |s.items| == c.total >= 2 && s.ring == [c.total - 1, 0]
    ensures Reached(c, s, moves, t) && InBounds(t) && |t.items| == c.total && t.ring == []
    ensures t.items[0].flag && t.items[0].pid == 4 && 4 in t.holders[0]
  {
    hide Reached;
    Start(c, s);
    moves := GoAlloc(c, s, [], s, 3);
    AllocShape(s, 3);
    var s1 := AllocStep(s, 3);
    moves := GoAlloc(c, s, moves, s1, 4);
    AllocShape(s1, 4);
    t := AllocStep(s1, 4);
  }

  /**
   In every such pool there is a run, safe in all its states, after which a prompt check of
   item 0 is a race with process 1, which has just cleared the pid. Then process 4 takes the
   item, process 1 goes on, and process 5 is given the item that process 4 still uses.
   */
  lemma LateFreeHarms(c: Config) returns (before: seq<Move>, s: State, after: seq<Move>, t: State)
    requires Racy(c)
    ensures Reached(c, Init(c), before, s) && AlwaysSafe(c, Init(c), before)
    ensures Enabled(c, s, Check(0)) && s.hands[0] == Cleared(1, s.head) && Race(c, s, 0)
    ensures Reached(c, CheckStep(c, s, 0), after, t) && InBounds(t) && |t.items| == c.total
    ensures t.items[0].pid == 4 && LateFree(t, 0).ring == [0]
    ensures var u := AllocStep(LateFree(t, 0), 5); 4 in u.holders[0] && 5 in u.holders[0] && u.items[0].pid == 5
  {
    hide Race, Safe, Inv;
    before, s := GoRace(c);
    InitInv(c);
    RunSafe(c, Init(c), before);
    RacedShape(c, s);
    after, t := GoStolen(c, CheckStep(c, s, 0));
    AllocShape(LateFree(t, 0), 5);
  }
}
