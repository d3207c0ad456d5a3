/**
 The circular free list of a segment: sections linked by relative offsets both
 ways, anchored at the last section.
 */
module SegRing {
  import opened Basics

  /** A section header; offsets count 64-byte units relative to the header itself. */
  datatype Section = Section(
    prevRel: int,
    usedNum: int,
    freeNum: int,
    reqSize: nat,
    lessRel: int,
    moreRel: int,
    name: string)

  /** The units of a segment; a unit that is no header holds arbitrary bytes, read here as a stale header. */
  type Units = seq<Section>

  /** Offset of section x relative to section base. */
  function SecRel(base: int, x: int): int {
    x - base
  }

  function LessSec(s: Units, x: nat): int
    requires x < |s|
  {
    x + s[x].lessRel
  }

  function MoreSec(s: Units, x: nat): int
    requires x < |s|
  {
    x + s[x].moreRel
  }

  /** Stores the link from x to y. */
  function SetLess(s: Units, x: nat, y: int): Units
    requires x < |s|
  {
    s[x := s[x].(lessRel := SecRel(x, y))]
  }

  function SetMore(s: Units, x: nat, y: int): Units
    requires x < |s|
  {
    s[x := s[x].(moreRel := SecRel(x, y))]
  }

  /** Entry i of the walk along the free list from the anchor (entry 0) back to the anchor. */
  ghost function At(free: seq<nat>, anchor: nat, i: int): nat {
    if 1 <= i <= |free| then free[i - 1] else anchor
  }

  /** Following links forwards from the anchor gives the list, following them backwards its reverse. */
  ghost predicate Linked(s: Units, free: seq<nat>, anchor: nat) {
    && anchor < |s| && (forall i :: 0 <= i < |free| ==> free[i] < |s|)
    && (forall i {:trigger MoreSec(s, At(free, anchor, i))} :: 0 <= i <= |free| ==>
      MoreSec(s, At(free, anchor, i)) == At(free, anchor, i + 1))
    && (forall i {:trigger LessSec(s, At(free, anchor, i))} :: 1 <= i <= |free| + 1 ==>
      LessSec(s, At(free, anchor, i)) == At(free, anchor, i - 1))
  }

  ghost predicate RingOk(s: Units, free: seq<nat>, anchor: nat) {
    NoDup(free) && anchor !in free && Linked(s, free, anchor)
  }

  /** Members of a ring are met once; only the anchor is met twice. */
  lemma AtOnce(free: seq<nat>, anchor: nat, i: int, j: int)
    requires NoDup(free) && anchor !in free && 0 <= i < j <= |free| + 1
    ensures At(free, anchor, i) == At(free, anchor, j) <==> i == 0 && j == |free| + 1
  {
    if 1 <= i {
      assert free[i - 1] in free;
    }
    if j <= |free| {
      assert free[j - 1] in free;
    }
  }

  lemma WithoutAt(free: seq<nat>, anchor: nat, k: nat, i: int)
    requires k < |free| && 0 <= i <= |free|
    ensures At(Without(free, k), anchor, i) == At(free, anchor, if i <= k then i else i + 1)
  {
  }

  lemma WithoutNoDup(free: seq<nat>, k: nat)
    requires k < |free| && NoDup(free)
    ensures NoDup(Without(free, k)) && free[k] !in Without(free, k)
    ensures forall x :: x in Without(free, k) <==> x in free && x != free[k]
  {
    var f := Without(free, k);
    assert forall i :: 0 <= i < |f| ==> f[i] == free[if i < k then i else i + 1];
    assert forall i :: 0 <= i < |free| && i != k ==> free[i] == f[if i < k then i else i - 1];
  }

  /** The two link writes that make less and more neighbours. */
  function Joined(s: Units, less: nat, more: nat): Units
    requires less < |s| && more < |s|
  {
    SetLess(SetMore(s, less, more), more, less)
  }

  lemma JoinedReads(s: Units, less: nat, more: nat)
    requires less < |s| && more < |s|
    ensures SetMore(SetLess(s, more, less), less, more) == Joined(s, less, more)
    ensures forall x: nat {:trigger MoreSec(Joined(s, less, more), x)} :: x < |s| ==>
      MoreSec(Joined(s, less, more), x) == if x == less then more else MoreSec(s, x)
    ensures forall x: nat {:trigger LessSec(Joined(s, less, more), x)} :: x < |s| ==>
      LessSec(Joined(s, less, more), x) == if x == more then less else LessSec(s, x)
  {
  }

  lemma UnlinkMore(s: Units, free: seq<nat>, anchor: nat, k: nat, i: nat)
    requires RingOk(s, free, anchor) && k < |free| && i < |free|
    ensures var f := Without(free, k);
      MoreSec(Joined(s, At(free, anchor, k), At(free, anchor, k + 2)), At(f, anchor, i)) == At(f, anchor, i + 1)
  {
    hide Joined;
    var p := if i <= k then i else i + 1;
    WithoutAt(free, anchor, k, i);
    WithoutAt(free, anchor, k, i + 1);
    JoinedReads(s, At(free, anchor, k), At(free, anchor, k + 2));
    if p != k { AtOnce(free, anchor, if p < k then p else k, if p < k then k else p); }
    assert MoreSec(s, At(free, anchor, p)) == At(free, anchor, p + 1);
  }

  lemma UnlinkLess(s: Units, free: seq<nat>, anchor: nat, k: nat, i: nat)
    requires RingOk(s, free, anchor) && k < |free| && 1 <= i <= |free|
    ensures var f := Without(free, k);
      LessSec(Joined(s, At(free, anchor, k), At(free, anchor, k + 2)), At(f, anchor, i)) == At(f, anchor, i - 1)
  {
    hide Joined;
    var q := if i <= k then i else i + 1;
    WithoutAt(free, anchor, k, i);
    WithoutAt(free, anchor, k, i - 1);
    JoinedReads(s, At(free, anchor, k), At(free, anchor, k + 2));
    if q != k + 2 { AtOnce(free, anchor, if q < k + 2 then q else k + 2, if q < k + 2 then k + 2 else q); }
    assert LessSec(s, At(free, anchor, q)) == At(free, anchor, q - 1);
  }

  /** Bypassing member k leaves the ring without it. */
  lemma UnlinkRing(s: Units, free: seq<nat>, anchor: nat, k: nat)
    requires RingOk(s, free, anchor) && k < |free|
    ensures RingOk(Joined(s, At(free, anchor, k), At(free, anchor, k + 2)), Without(free, k), anchor)
  {
    var f := Without(free, k);
    WithoutNoDup(free, k);
    forall i | 0 <= i <= |f|
      ensures MoreSec(Joined(s, At(free, anchor, k), At(free, anchor, k + 2)), At(f, anchor, i)) == At(f, anchor, i + 1)
    {
      UnlinkMore(s, free, anchor, k, i);
    }
    forall i | 1 <= i <= |f| + 1
      ensures LessSec(Joined(s, At(free, anchor, k), At(free, anchor, k + 2)), At(f, anchor, i)) == At(f, anchor, i - 1)
    {
      UnlinkLess(s, free, anchor, k, i);
    }
  }

  /** The four link writes that put x between less and more. */
  function Inserted(s: Units, less: nat, x: nat, more: nat): Units
    requires less < |s| && more < |s| && x < |s|
  {
    SetLess(SetMore(SetLess(SetMore(s, less, x), more, x), x, more), x, less)
  }

  lemma InsertedReads(s: Units, less: nat, x: nat, more: nat)
    requires less < |s| && more < |s| && x < |s|
    ensures forall y: nat {:trigger MoreSec(Inserted(s, less, x, more), y)} :: y < |s| ==>
      MoreSec(Inserted(s, less, x, more), y) == if y == x then more else if y == less then x else MoreSec(s, y)
    ensures forall y: nat {:trigger LessSec(Inserted(s, less, x, more), y)} :: y < |s| ==>
      LessSec(Inserted(s, less, x, more), y) == if y == x then less else if y == more then x else LessSec(s, y)
  {
  }

  lemma WithAt(free: seq<nat>, anchor: nat, j: nat, x: nat, i: int)
    requires j <= |free| && 0 <= i <= |free| + 2
    ensures At(With(free, j, x), anchor, i) ==
            if i <= j then At(free, anchor, i) else if i == j + 1 then x else At(free, anchor, i - 1)
  {
  }

  lemma WithNoDup(free: seq<nat>, j: nat, x: nat)
    requires j <= |free| && NoDup(free) && x !in free
    ensures NoDup(With(free, j, x))
    ensures forall y :: y in With(free, j, x) <==> y in free || y == x
  {
    var f := With(free, j, x);
    assert forall i :: 0 <= i < |f| ==> f[i] == if i < j then free[i] else if i == j then x else free[i - 1];
    assert forall i :: 0 <= i < |free| ==> free[i] == f[if i < j then i else i + 1];
    assert f[j] == x;
  }

  lemma LinkMore(s: Units, free: seq<nat>, anchor: nat, j: nat, x: nat, i: nat)
    requires RingOk(s, free, anchor) && j <= |free| && x < |s| && x !in free && x != anchor && i <= |free| + 1
    ensures var f := With(free, j, x);
      MoreSec(Inserted(s, At(free, anchor, j), x, At(free, anchor, j + 1)), At(f, anchor, i)) == At(f, anchor, i + 1)
  {
    hide Inserted;
    WithAt(free, anchor, j, x, i);
    WithAt(free, anchor, j, x, i + 1);
    InsertedReads(s, At(free, anchor, j), x, At(free, anchor, j + 1));
    if i < j {
      AtOnce(free, anchor, i, j);
      assert MoreSec(s, At(free, anchor, i)) == At(free, anchor, i + 1);
    } else if i > j + 1 {
      AtOnce(free, anchor, j, i - 1);
      assert MoreSec(s, At(free, anchor, i - 1)) == At(free, anchor, i);
    }
  }

  lemma LinkLess(s: Units, free: seq<nat>, anchor: nat, j: nat, x: nat, i: nat)
    requires RingOk(s, free, anchor) && j <= |free| && x < |s| && x !in free && x != anchor && 1 <= i <= |free| + 2
    ensures var f := With(free, j, x);
      LessSec(Inserted(s, At(free, anchor, j), x, At(free, anchor, j + 1)), At(f, anchor, i)) == At(f, anchor, i - 1)
  {
    hide Inserted;
    WithAt(free, anchor, j, x, i);
    WithAt(free, anchor, j, x, i - 1);
    InsertedReads(s, At(free, anchor, j), x, At(free, anchor, j + 1));
    if i <= j {
      AtOnce(free, anchor, i, j + 1);
      assert LessSec(s, At(free, anchor, i)) == At(free, anchor, i - 1);
    } else if i > j + 2 {
      AtOnce(free, anchor, j + 1, i - 1);
      assert LessSec(s, At(free, anchor, i - 1)) == At(free, anchor, i - 2);
    }
  }

  /** Linking a new member between two neighbours extends the ring there. */
  lemma LinkRing(s: Units, free: seq<nat>, anchor: nat, j: nat, x: nat)
    requires RingOk(s, free, anchor) && j <= |free| && x < |s| && x !in free && x != anchor
    ensures RingOk(Inserted(s, At(free, anchor, j), x, At(free, anchor, j + 1)), With(free, j, x), anchor)
  {
    var f := With(free, j, x);
    WithNoDup(free, j, x);
    forall i | 0 <= i <= |f|
      ensures MoreSec(Inserted(s, At(free, anchor, j), x, At(free, anchor, j + 1)), At(f, anchor, i)) ==
              At(f, anchor, i + 1)
    {
      LinkMore(s, free, anchor, j, x, i);
    }
    forall i | 1 <= i <= |f| + 1
      ensures LessSec(Inserted(s, At(free, anchor, j), x, At(free, anchor, j + 1)), At(f, anchor, i)) ==
              At(f, anchor, i - 1)
    {
      LinkLess(s, free, anchor, j, x, i);
    }
  }

  /** Writes that keep both links of every member keep the ring. */
  lemma RingFrame(s: Units, s': Units, free: seq<nat>, anchor: nat)
    requires RingOk(s, free, anchor) && |s'| == |s|
    requires forall x: nat :: x < |s| && (x in free || x == anchor) ==>
             s'[x].lessRel == s[x].lessRel && s'[x].moreRel == s[x].moreRel
    ensures RingOk(s', free, anchor)
  {
    forall i | 0 <= i <= |free| ensures MoreSec(s', At(free, anchor, i)) == At(free, anchor, i + 1) {
      assert MoreSec(s, At(free, anchor, i)) == At(free, anchor, i + 1);
    }
    forall i | 1 <= i <= |free| + 1 ensures LessSec(s', At(free, anchor, i)) == At(free, anchor, i - 1) {
      assert LessSec(s, At(free, anchor, i)) == At(free, anchor, i - 1);
    }
  }

  /** The forward links from the anchor determine the list. */
  lemma {:induction false} SameWalk(s: Units, f: seq<nat>, g: seq<nat>, anchor: nat, i: nat)
    requires RingOk(s, f, anchor) && RingOk(s, g, anchor) && i <= |f| + 1 && i <= |g| + 1
    ensures At(f, anchor, i) == At(g, anchor, i)
  {
    if i > 0 {
      SameWalk(s, f, g, anchor, i - 1);
      assert MoreSec(s, At(f, anchor, i - 1)) == At(f, anchor, i);
      assert MoreSec(s, At(g, anchor, i - 1)) == At(g, anchor, i);
    }
  }

  lemma RingUnique(s: Units, f: seq<nat>, g: seq<nat>, anchor: nat)
    requires RingOk(s, f, anchor) && RingOk(s, g, anchor)
    ensures f == g
  {
    if |f| < |g| {
      assert g[|f|] in g;
      SameWalk(s, f, g, anchor, |f| + 1);
    } else if |g| < |f| {
      assert f[|g|] in f;
      SameWalk(s, f, g, anchor, |g| + 1);
    }
    forall i | 0 <= i < |f| ensures f[i] == g[i] {
      SameWalk(s, f, g, anchor, i + 1);
    }
  }

  /** If following links from the anchor ever meets a member that is its own successor, there is no ring. */
  lemma SelfLoop(s: Units, f: seq<nat>, anchor: nat, x: nat)
    requires RingOk(s, f, anchor) && x < |s| && x in f
    ensures MoreSec(s, x) != x
  {
    var i :| 0 <= i < |f| && f[i] == x;
    assert MoreSec(s, At(f, anchor, i + 1)) == At(f, anchor, i + 2);
    AtOnce(f, anchor, i + 1, i + 2);
  }
}
