/**
 Runs of a client that does not look out for exact fits: it goes on until a free would
 destroy the free list, writes what it likes into its payloads, and keeps its own map of
 names.
 */
module SegmentClient {
  import opened Basics
  import opened SegRing
  import opened SegChain
  import opened Segment
  import opened SegmentRuns

  datatype Act =
    | Get(size: nat)
    | Return(x: nat)
    | GetNamed(size: nat, name: string)
    | ReturnNamed(name: string)
    | Write(u: nat, data: Section)

  /** The client's blocks are the user sections, and its names with their addresses are the live names. */
  ghost predicate Known(seg: DmmSegment, live: seq<nat>, names: map<string, nat>)
    reads seg
  {
    && seg.Valid() && NoDup(live) && UserSections(live, seg.chain, seg.totalNum - 1)
    && NameMap(seg.sec, seg.chain) == names
  }

  /** The section that an operation would free. */
  function Victim(op: Act, live: seq<nat>, names: map<string, nat>): Option<int> {
    match op
    case Return(x) => if x in live then Some(x) else None
    case ReturnNamed(name) => if name in names then Some(names[name] as int - 1) else None
    case _ => None
  }

  method IsListed(seg: DmmSegment, x: nat) returns (listed: bool)
    requires seg.Valid()
    ensures listed <==> x in seg.free
  {
    hide ChainOk, NamesOk, Total, EndsOk, Covers, SortedFree;
    var last := seg.totalNum - 1;
    var pos := last;
    ghost var k := 0;
    while true
      invariant 0 <= k <= |seg.free| && pos == At(seg.free, last, k) && forall j :: 0 <= j < k ==> seg.free[j] != x
      decreases |seg.free| - k
    {
      assert MoreSec(seg.sec, At(seg.free, last, k)) == At(seg.free, last, k + 1);
      pos := MoreSec(seg.sec, pos);
      if pos == last {
        return false;
      }
      if pos == x {
        return true;
      }
      k := k + 1;
    }
  }

  /** A free is safe if neither the section nor its predecessor is listed without free units. */
  method IsSafe(seg: DmmSegment, x: nat) returns (safe: bool)
    requires seg.Valid() && x in seg.chain && x != 0 && x != seg.totalNum - 1
    ensures safe <==> SafeToFree(seg.sec, seg.free, x)
  {
    hide ListOk, NamesOk, Total, EndsOk;
    ghost var i := UserIndex(seg.sec, seg.chain, x);
    assert PrevSec(seg.sec, seg.chain[i]) == seg.chain[i - 1];
    var prev := PrevSec(seg.sec, x);
    var a := IsListed(seg, x);
    var b := IsListed(seg, prev);
    return (a ==> seg.sec[x].freeNum > 0) && (b ==> seg.sec[prev].freeNum > 0);
  }

  function NamesWithout(names: map<string, nat>, x: nat): map<string, nat> {
    map n | n in names && names[n] != x + 1 :: names[n]
  }

  /** Freeing a section takes its name out of the map, if it has one. */
  lemma FreedNames(s: Units, ch: seq<nat>, i: nat, s': Units)
    requires ChainOk(s, ch) && NamesOk(s, ch) && 1 <= i < |ch| - 1 && FreeWrites(s, ch, i, s') &&
             NamesOk(s', Without(ch, i))
    ensures NameMap(s', Without(ch, i)) == NamesWithout(NameMap(s, ch), ch[i])
  {
    hide ChainOk, NamesOk, FreeWrites, NameMap, Without;
    FreeNames(s, ch, i, s');
    var x, m := ch[i], NameMap(s, ch);
    forall n, a
      ensures Entry(m - {s[x].name}, n, a) <==> Entry(NamesWithout(m, x), n, a)
    {
      MapEntry(s, ch, n, a);
      MapEntry(s, ch, n, x + 1);
      MapEntry(s, ch, s[x].name, x + 1);
      NoEmptyName(s, ch);
    }
    SameEntries(m - {s[x].name}, NamesWithout(m, x));
  }

  method DoReturn(seg: DmmSegment, x: nat, live: seq<nat>, names: map<string, nat>)
    returns (live': seq<nat>, names': map<string, nat>)
    requires Known(seg, live, names) && x in live && SafeToFree(seg.sec, seg.free, x)
    modifies seg
    ensures Known(seg, live', names') && seg.totalNum == old(seg.totalNum)
    ensures live' == Dropped(live, x) && names' == NamesWithout(names, x)
  {
    hide ListOk, ChainOk, NamesOk, Total, EndsOk, FreeWrites, FreeSafe, SafeToFree, Without, SameSet, NoDup, NameMap;
    ghost var s0, ch0, f0 := seg.sec, seg.chain, seg.free;
    EndsInChain(s0, ch0);
    ghost var i := UserIndex(s0, ch0, x);
    SafeAt(s0, ch0, f0, i);
    ChainNoDup(s0, ch0);
    WithoutNoDup(ch0, i);
    seg.MemFree(x, i);
    FreedNames(s0, ch0, i, seg.sec);
    live', names' := Dropped(live, x), NamesWithout(names, x);
  }

  method DoGet(seg: DmmSegment, size: nat, live: seq<nat>, ghost names: map<string, nat>) returns (live': seq<nat>)
    requires Known(seg, live, names)
    modifies seg
    ensures Known(seg, live', names) && seg.totalNum == old(seg.totalNum)
  {
    hide ListOk, ChainOk, NamesOk, Total, EndsOk, Clean, Allocated, NoDup, NewBlock, HasExact, UserSections, CalcNum,
         NameMap;
    ghost var s0, ch0 := seg.sec, seg.chain;
    EndsInChain(s0, ch0);
    var r;
    ghost var i;
    r, i := seg.MemAlloc(size);
    live' := live;
    if r.Some? {
      OneMoreHeld(live, ch0, seg.chain, r.value, seg.totalNum - 1);
      AllocNames(s0, ch0, i, size, seg.sec, seg.chain, r.value);
      live' := live + [r.value];
    }
  }

  method DoGetNamed(seg: DmmSegment, size: nat, name: string, live: seq<nat>, names: map<string, nat>)
    returns (live': seq<nat>, names': map<string, nat>)
    requires Known(seg, live, names)
    modifies seg
    ensures Known(seg, live', names') && seg.totalNum == old(seg.totalNum)
    ensures names' == names || (name !in names && name in names' && names' == names[name := names'[name]])
  {
    hide ListOk, ChainOk, NamesOk, Total, EndsOk, Clean, NameMap, NoDup, NewBlock, HasExact, UserSections, CalcNum;
    ghost var ch0 := seg.chain;
    EndsInChain(seg.sec, ch0);
    var mem := seg.MemMap(size, name);
    live', names' := live, names;
    if mem.Some? {
      OneMoreHeld(live, ch0, seg.chain, mem.value - 1, seg.totalNum - 1);
      live', names' := live + [mem.value - 1], names[name := mem.value];
    }
  }

  method DoReturnNamed(seg: DmmSegment, name: string, live: seq<nat>, names: map<string, nat>)
    returns (live': seq<nat>, names': map<string, nat>)
    requires Known(seg, live, names) && (name in names ==> SafeToFree(seg.sec, seg.free, names[name] - 1))
    modifies seg
    ensures Known(seg, live', names') && seg.totalNum == old(seg.totalNum) && names' == names - {name}
  {
    hide ListOk, ChainOk, NamesOk, Total, EndsOk, Clean, NameMap, NoDup, SafeToFree;
    live', names' := live, names - {name};
    if name in names {
      NamedSection(seg.sec, seg.chain, name);
    }
    var ok := seg.MemUnmap(name);
    if ok {
      live' := Dropped(live, names[name] - 1);
    }
  }

  /** A live name stands for a user section. */
  lemma NamedSection(s: Units, ch: seq<nat>, name: string)
    requires ChainOk(s, ch) && NamesOk(s, ch) && name in NameMap(s, ch)
    ensures var x := NameMap(s, ch)[name] - 1; x >= 0 && x in ch && x != 0 && x != |s| - 1
  {
    hide ChainOk, NameMap;
    MapEntry(s, ch, name, NameMap(s, ch)[name]);
    NoEmptyName(s, ch);
    EndNames(s, ch);
  }

  lemma EndNames(s: Units, ch: seq<nat>)
    requires ChainOk(s, ch) && NamesOk(s, ch)
    ensures |s| > 0 && s[0].name == "" && s[|s| - 1].name == ""
  {
  }

  /** Whether unit u lies in a payload of the client. */
  method IsOwn(seg: DmmSegment, live: seq<nat>, u: nat) returns (own: bool)
    requires seg.Valid() && UserSections(live, seg.chain, seg.totalNum - 1)
    ensures own ==> u < seg.totalNum && u !in seg.chain
    ensures own <==> exists x :: x in live && x < |seg.sec| && InPayload(seg.sec, x, u)
  {
    hide ListOk, NamesOk, Total, EndsOk;
    var k := 0;
    assert forall x :: x in seg.chain ==> x < |seg.sec|;
    while k < |live|
      invariant 0 <= k <= |live|
      invariant forall j :: 0 <= j < k ==> live[j] < |seg.sec| && !InPayload(seg.sec, live[j], u)
    {
      var x := live[k];
      assert x in live;
      if x < u < x + seg.sec[x].usedNum {
        NoHeader(seg.sec, seg.chain, x, u);
        return true;
      }
      k := k + 1;
    }
    return false;
  }

  lemma NoHeader(s: Units, ch: seq<nat>, x: nat, u: nat)
    requires ChainOk(s, ch) && x in ch && x < |s| && x != |s| - 1 && InPayload(s, x, u)
    ensures u < |s| && u !in ch
  {
    hide ChainOk;
    var i := IndexOf(ch, x);
    LastOnly(s, ch, i);
    forall j | 0 <= j < |ch|
      ensures ch[j] != u
    {
      PayloadsApart(s, ch, i, j);
    }
    PayloadsApart(s, ch, i, 0);
  }

  lemma LastOnly(s: Units, ch: seq<nat>, i: nat)
    requires ChainOk(s, ch) && i < |ch| && ch[i] != |s| - 1
    ensures i < |ch| - 1
  {
  }

  method DoWrite(seg: DmmSegment, u: nat, data: Section, ghost live: seq<nat>, ghost names: map<string, nat>)
    requires Known(seg, live, names) && u < seg.totalNum && u !in seg.chain
    modifies seg`sec
    ensures Known(seg, live, names)
  {
    hide ListOk, ChainOk, NamesOk, Total, EndsOk, NameMap;
    ghost var s0 := seg.sec;
    SectionsInside(s0, seg.chain);
    seg.sec := seg.sec[u := data];
    UserWrites(s0, seg.sec, seg.chain, seg.free);
    WrittenNames(s0, seg.sec, seg.chain);
  }

  lemma SectionsInside(s: Units, ch: seq<nat>)
    requires ChainOk(s, ch)
    ensures forall x :: x in ch ==> x < |s|
  {
  }

  lemma WrittenNames(s: Units, s': Units, ch: seq<nat>)
    requires NamesOk(s, ch) && NamesOk(s', ch) && forall x :: x in ch ==> x < |s| && x < |s'| && s'[x] == s[x]
    ensures NameMap(s', ch) == NameMap(s, ch)
  {
    hide NamesOk, NameMap;
    forall n, a
      ensures Entry(NameMap(s', ch), n, a) <==> Entry(NameMap(s, ch), n, a)
    {
      MapEntry(s, ch, n, a);
      MapEntry(s', ch, n, a);
    }
    SameEntries(NameMap(s', ch), NameMap(s, ch));
  }

  /**
   A run of any length, through exact fits and with anything written into payloads. The
   client's names, kept from the answers it got alone, are the live names throughout. The
   run stops only before a free that is not safe.
   */
  method RunActs(seg: DmmSegment, acts: seq<Act>) returns (n: nat, live: seq<nat>, names: map<string, nat>)
    requires Known(seg, [], map[])
    modifies seg
    ensures Known(seg, live, names) && seg.totalNum == old(seg.totalNum) && n <= |acts|
    ensures n < |acts| ==>
              var v := Victim(acts[n], live, names); v.Some? && !SafeToFree(seg.sec, seg.free, v.value)
  {
    hide Known, SafeToFree;
    n, live, names := 0, [], map[];
    while n < |acts|
      invariant n <= |acts| && Known(seg, live, names) && seg.totalNum == old(seg.totalNum)
    {
      var act := acts[n];
      var v := Victim(act, live, names);
      if v.Some? {
        VictimSection(seg, act, live, names);
        var safe := IsSafe(seg, v.value);
        if !safe {
          return;
        }
      }
      match act {
        case Get(size) => live := DoGet(seg, size, live, names);
        case Return(x) => if x in live { live, names := DoReturn(seg, x, live, names); }
        case GetNamed(size, name) => live, names := DoGetNamed(seg, size, name, live, names);
        case ReturnNamed(name) => live, names := DoReturnNamed(seg, name, live, names);
        case Write(u, data) =>
          KnownParts(seg, live, names);
          var own := IsOwn(seg, live, u);
          if own { DoWrite(seg, u, data, live, names); }
      }
      n := n + 1;
    }
  }

  lemma KnownParts(seg: DmmSegment, live: seq<nat>, names: map<string, nat>)
    requires Known(seg, live, names)
    ensures seg.Valid() && UserSections(live, seg.chain, seg.totalNum - 1)
  {
  }

  lemma VictimSection(seg: DmmSegment, act: Act, live: seq<nat>, names: map<string, nat>)
    requires Known(seg, live, names) && Victim(act, live, names).Some?
    ensures var x := Victim(act, live, names).value;
            seg.Valid() && x >= 0 && x in seg.chain && x != 0 && x != seg.totalNum - 1
  {
    hide ListOk, ChainOk, NamesOk, Total, EndsOk, NameMap;
    if act.ReturnNamed? {
      NamedSection(seg.sec, seg.chain, act.name);
    }
  }

  /** Such a run can begin on every segment that was created. */
  method RunFresh(base: nat, size: nat, units: Units, acts: seq<Act>)
    returns (seg: DmmSegment, n: nat, live: seq<nat>, names: map<string, nat>)
    requires size < WORD && AlignSection(base, size) == |units| > 0
    ensures Known(seg, live, names) && seg.totalNum == |units| && n <= |acts|
    ensures n < |acts| ==>
              var v := Victim(acts[n], live, names); v.Some? && !SafeToFree(seg.sec, seg.free, v.value)
  {
    hide ListOk, ChainOk, NamesOk, Total, EndsOk, Clean, NoDup, NameMap, SafeToFree;
    seg := new DmmSegment.Create(base, size, units);
    NoneHeld(seg.chain, seg.totalNum - 1);
    NoNames(seg.sec, seg.chain);
    n, live, names := RunActs(seg, acts);
  }

  lemma NoNames(s: Units, ch: seq<nat>)
    requires ChainOk(s, ch) && NamesOk(s, ch) && ch == [0, |s| - 1]
    ensures NameMap(s, ch) == map[]
  {
    EndNames(s, ch);
  }
}
