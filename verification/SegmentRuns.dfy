/**
 Whole runs of a client on one segment: it allocates, names and frees blocks in any
 order, and stops before a request that some section fits exactly.
 */
module SegmentRuns {
  import opened Basics
  import opened SegRing
  import opened SegChain
  import opened Segment

  datatype Op = Alloc(size: nat) | Free(x: nat) | Map(size: nat, name: string) | Unmap(name: string)

  /** The request of an operation for units, 0 for none. */
  function Request(op: Op): nat {
    match op
    case Alloc(size) => CalcNum(size)
    case Map(size, _) => CalcNum(size)
    case Free(_) => 0
    case Unmap(_) => 0
  }

  function Dropped(live: seq<nat>, x: nat): (r: seq<nat>)
    ensures forall y :: y in r <==> y in live && y != x
    ensures NoDup(live) ==> NoDup(r) && forall i :: 0 <= i < |r| ==> r[i] in live
  {
    if live == [] then []
    else
      var init := Dropped(live[..|live| - 1], x);
      assert live == live[..|live| - 1] + [live[|live| - 1]];
      if live[|live| - 1] == x then init else init + [live[|live| - 1]]
  }

  /** The blocks the client holds are the user sections of a segment whose list is clean. */
  ghost predicate Held(seg: DmmSegment, live: seq<nat>)
    reads seg
  {
    && seg.Valid() && Clean(seg.sec, seg.free) && NoDup(live)
    && UserSections(live, seg.chain, seg.totalNum - 1)
  }

  /** The first section that is large enough is an exact fit exactly when there is one. */
  lemma FirstIsExact(s: Units, ch: seq<nat>, free: seq<nat>, r: Option<nat>, k: nat, num: nat)
    requires ListOk(s, ch, free) && num > 0
    requires r.None? ==> forall x :: x in free ==> x < |s| && s[x].freeNum < num
    requires r.Some? ==> k < |free| && r.value == free[k] < |s| && num <= s[free[k]].freeNum
    requires r.Some? ==> forall j :: 0 <= j < k ==> free[j] < |s| && s[free[j]].freeNum < num
    ensures HasExact(s, ch, num) <==> r.Some? && s[r.value].freeNum == num
  {
    hide RingOk, SortedFree;
    if r.Some? {
      BestFit(s, ch, free, k, num);
      assert free[k] in free;
    }
  }

  lemma ListIndex(s: Units, ch: seq<nat>, free: seq<nat>)
    requires ListOk(s, ch, free)
    ensures forall k :: 0 <= k < |free| ==> free[k] < |s|
    ensures forall x :: x in free ==> x < |s|
  {
    hide RingOk;
  }

  method IsExact(seg: DmmSegment, num: nat) returns (exact: bool)
    requires seg.Valid() && num > 0
    ensures exact <==> HasExact(seg.sec, seg.chain, num)
  {
    hide ListOk, ChainOk, NamesOk, Total, EndsOk, HasExact;
    ListIndex(seg.sec, seg.chain, seg.free);
    var r;
    ghost var k;
    r, k := seg.FindFit(num);
    FirstIsExact(seg.sec, seg.chain, seg.free, r, k, num);
    return r.Some? && seg.sec[r.value].freeNum == num;
  }

  /** One more block in the client's hands. */
  lemma OneMoreHeld(live: seq<nat>, ch: seq<nat>, ch': seq<nat>, r: nat, last: nat)
    requires NoDup(live) && UserSections(live, ch, last) && NewBlock(ch, ch', r) && 0 in ch && last in ch
    ensures NoDup(live + [r]) && UserSections(live + [r], ch', last)
  {
    assert r !in live;
  }

  lemma EndsInChain(s: Units, ch: seq<nat>)
    requires ChainOk(s, ch)
    ensures 0 in ch && |s| - 1 in ch && |s| > 0
  {
    assert ch[0] in ch && ch[|ch| - 1] in ch;
  }

  method DoFree(seg: DmmSegment, x: nat, live: seq<nat>) returns (live': seq<nat>)
    requires Held(seg, live) && x in live
    modifies seg
    ensures Held(seg, live') && seg.totalNum == old(seg.totalNum) && live' == Dropped(live, x)
  {
    hide ListOk, ChainOk, NamesOk, Total, EndsOk, Clean, FreeWrites, FreeSafe, Without, SameSet, NoDup;
    ghost var s0, ch0, f0 := seg.sec, seg.chain, seg.free;
    EndsInChain(s0, ch0);
    ghost var i := UserIndex(s0, ch0, x);
    CleanIsSafe(s0, ch0, f0, i);
    ChainNoDup(s0, ch0);
    WithoutNoDup(ch0, i);
    seg.MemFree(x, i);
    FreeClean(s0, ch0, f0, i, seg.sec, seg.free);
    live' := Dropped(live, x);
  }

  method DoAlloc(seg: DmmSegment, size: nat, live: seq<nat>) returns (live': seq<nat>)
    requires Held(seg, live) && !HasExact(seg.sec, seg.chain, CalcNum(size))
    modifies seg
    ensures Held(seg, live') && seg.totalNum == old(seg.totalNum)
  {
    hide ListOk, ChainOk, NamesOk, Total, EndsOk, Clean, Allocated, NoDup, NewBlock, HasExact, UserSections, CalcNum;
    ghost var ch0 := seg.chain;
    EndsInChain(seg.sec, ch0);
    var r;
    ghost var i;
    r, i := seg.MemAlloc(size);
    live' := live;
    if r.Some? {
      OneMoreHeld(live, ch0, seg.chain, r.value, seg.totalNum - 1);
      live' := live + [r.value];
    }
  }

  method DoMap(seg: DmmSegment, size: nat, name: string, live: seq<nat>) returns (live': seq<nat>)
    requires Held(seg, live) && !HasExact(seg.sec, seg.chain, CalcNum(size))
    modifies seg
    ensures Held(seg, live') && seg.totalNum == old(seg.totalNum)
  {
    hide ListOk, ChainOk, NamesOk, Total, EndsOk, Clean, NameMap, NoDup, NewBlock, HasExact, UserSections, CalcNum;
    ghost var ch0 := seg.chain;
    EndsInChain(seg.sec, ch0);
    var mem := seg.MemMap(size, name);
    live' := live;
    if mem.Some? {
      OneMoreHeld(live, ch0, seg.chain, mem.value - 1, seg.totalNum - 1);
      live' := live + [mem.value - 1];
    }
  }

  method DoUnmap(seg: DmmSegment, name: string, live: seq<nat>) returns (live': seq<nat>)
    requires Held(seg, live)
    modifies seg
    ensures Held(seg, live') && seg.totalNum == old(seg.totalNum)
  {
    hide ListOk, ChainOk, NamesOk, Total, EndsOk, Clean, NameMap, NoDup;
    live' := live;
    if name != "" {
      var r := seg.MemLookup(name);
      var ok := seg.MemUnmap(name);
      if r.Some? {
        live' := Dropped(live, r.value);
      }
    }
  }

  /** A run of any length; n operations were done, all of them unless the next would be an exact fit. */
  method Run(seg: DmmSegment, ops: seq<Op>) returns (n: nat, live: seq<nat>)
    requires Held(seg, [])
    modifies seg
    ensures Held(seg, live) && seg.totalNum == old(seg.totalNum) && n <= |ops|
    ensures n < |ops| ==> Request(ops[n]) > 0 && HasExact(seg.sec, seg.chain, Request(ops[n]))
  {
    hide Held, HasExact, CalcNum;
    n, live := 0, [];
    while n < |ops|
      invariant n <= |ops| && Held(seg, live) && seg.totalNum == old(seg.totalNum)
    {
      HeldValid(seg, live);
      var op := ops[n];
      if op.Alloc? || op.Map? {
        var exact := IsExact(seg, CalcNum(op.size));
        if exact {
          return;
        }
      }
      match op {
        case Alloc(size) => live := DoAlloc(seg, size, live);
        case Map(size, name) => live := DoMap(seg, size, name, live);
        case Unmap(name) => live := DoUnmap(seg, name, live);
        case Free(x) => if x in live { live := DoFree(seg, x, live); }
      }
      n := n + 1;
    }
  }

  lemma HeldValid(seg: DmmSegment, live: seq<nat>)
    requires Held(seg, live)
    ensures seg.Valid()
  {
  }

  /** After any such run, freeing the blocks that are left gives the segment as it was created. */
  method RunAndFree(base: nat, size: nat, units: Units, ops: seq<Op>) returns (seg: DmmSegment)
    requires size < WORD && AlignSection(base, size) == |units| > SEG_NUM + 1
    ensures seg.Valid() && seg.totalNum == |units| && seg.chain == [0, |units| - 1] && seg.free == [0]
    ensures seg.sec[0] == FirstSection(|units|) && seg.sec[|units| - 1] == LastSection(|units|)
  {
    hide ListOk, ChainOk, NamesOk, Total, EndsOk, Clean, NoDup;
    seg := new DmmSegment.Create(base, size, units);
    NoneHeld(seg.chain, seg.totalNum - 1);
    var n, live := Run(seg, ops);
    seg.FreeAll(live);
  }

  lemma NoneHeld(ch: seq<nat>, last: nat)
    requires ch == [0, last]
    ensures UserSections([], ch, last) && NoDup([])
  {
  }
}
