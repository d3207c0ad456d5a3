/**
 The segment allocator: a best-fit allocator over the physical chain of sections
 and the circular list of sections with free space.
 */
module Segment {
  import opened Basics
  import opened SegRing
  import opened SegChain

  // ---------- the free list ----------

  ghost predicate SortedFree(s: Units, free: seq<nat>) {
    && (forall i :: 0 <= i < |free| ==> free[i] < |s|)
    && (forall i, j :: 0 <= i < j < |free| ==> s[free[i]].freeNum <= s[free[j]].freeNum)
  }

  /** Every member is a header before the last one, and every header with free space is a member. */
  ghost predicate Covers(s: Units, ch: seq<nat>, free: seq<nat>) {
    && (forall x :: x in ch ==> x < |s|)
    && (forall x :: x in free ==> x in ch && x != |s| - 1)
    && (forall x :: x in ch && s[x].freeNum > 0 ==> x in free)
  }

  /**
   The free list of a segment: a doubly linked ring through the last section, in
   ascending order of free space. Sections whose free space was used up exactly may
   still be members.
   */
  ghost predicate ListOk(s: Units, ch: seq<nat>, free: seq<nat>) {
    |s| > 0 && RingOk(s, free, |s| - 1) && Covers(s, ch, free) && SortedFree(s, free)
  }

  lemma WithoutSorted(s: Units, free: seq<nat>, k: nat)
    requires SortedFree(s, free) && k < |free|
    ensures SortedFree(s, Without(free, k))
  {
    var f := Without(free, k);
    assert forall i :: 0 <= i < |f| ==> f[i] == free[if i < k then i else i + 1];
  }

  /** Inserting between smaller and larger free spaces keeps the order. */
  lemma WithSorted(s: Units, free: seq<nat>, j: nat, x: nat)
    requires SortedFree(s, free) && j <= |free| && x < |s|
    requires j > 0 ==> s[free[j - 1]].freeNum <= s[x].freeNum
    requires j < |free| ==> s[x].freeNum <= s[free[j]].freeNum
    ensures SortedFree(s, With(free, j, x))
  {
    var f := With(free, j, x);
    assert forall i :: 0 <= i < |f| ==> f[i] == if i < j then free[i] else if i == j then x else free[i - 1];
  }

  lemma SortedFrame(s: Units, s': Units, free: seq<nat>)
    requires SortedFree(s, free) && |s'| == |s|
    requires forall x :: x in free ==> x < |s| && s'[x].freeNum == s[x].freeNum
    ensures SortedFree(s', free)
  {
    assert forall i :: 0 <= i < |free| ==> free[i] in free;
  }

  lemma SetKeeps(s: Units, s': Units, x: nat, y: int)
    requires SamePhysical(s, s') && x < |s|
    ensures SamePhysical(s, SetLess(s', x, y)) && SamePhysical(s, SetMore(s', x, y))
  {
  }

  lemma JoinedKeeps(s: Units, s': Units, less: nat, more: nat)
    requires SamePhysical(s, s') && less < |s| && more < |s|
    ensures SamePhysical(s, Joined(s', less, more))
  {
    SetKeeps(s, s', less, more);
    SetKeeps(s, SetMore(s', less, more), more, less);
  }

  lemma InsertedKeeps(s: Units, s': Units, less: nat, x: nat, more: nat)
    requires SamePhysical(s, s') && less < |s| && more < |s| && x < |s|
    ensures SamePhysical(s, Inserted(s', less, x, more))
  {
    assert |s'| == |s|;
    hide SamePhysical;
    SetKeeps(s, s', less, x);
    SetKeeps(s, SetMore(s', less, x), more, x);
    SetKeeps(s, SetLess(SetMore(s', less, x), more, x), x, more);
    SetKeeps(s, SetMore(SetLess(SetMore(s', less, x), more, x), x, more), x, less);
  }

  // ---------- allocation ----------

  /** Carving keeps the links of every header, and the free space of every header but the one carved. */
  lemma CarvedReads(s: Units, ch: seq<nat>, i: nat, num: nat, size: nat)
    requires ChainOk(s, ch) && i < |ch| - 1 && num == CalcNum(size) <= s[ch[i]].freeNum
    requires NextSec(s, ch[i]) == ch[i + 1] && ch[i + 1] - num !in ch
    ensures var s1 := Carved(s, ch[i], num, size);
      && (forall x :: x in ch ==> x < |s| && s1[x].lessRel == s[x].lessRel && s1[x].moreRel == s[x].moreRel)
      && (forall x :: x in ch && x != ch[i] ==> s1[x].freeNum == s[x].freeNum)
      && s1[ch[i]].freeNum == s[ch[i]].freeNum - num && s1[ch[i + 1] - num].freeNum == 0
      && (forall x :: x in ch ==> s1[x].name == s[x].name) && s1[ch[i + 1] - num].name == ""
  {
    ChainNoDup(s, ch);
  }

  /** After carving from member k of the list and unlinking it, the rest is a sorted ring. */
  lemma CarvedList(s: Units, ch: seq<nat>, free: seq<nat>, i: nat, k: nat, num: nat, size: nat)
    requires ChainOk(s, ch) && ListOk(s, ch, free) && i < |ch| - 1 && k < |free| && free[k] == ch[i]
    requires num == CalcNum(size) <= s[ch[i]].freeNum
    ensures NextSec(s, ch[i]) == ch[i + 1] && ch[i] < ch[i + 1] - num < |s|
    ensures var s1 := Carved(s, ch[i], num, size);
      var less, more := At(free, |s| - 1, k), At(free, |s| - 1, k + 2);
      && less < |s| && more < |s| && LessSec(s1, ch[i]) == less && MoreSec(s1, ch[i]) == more
      && RingOk(Joined(s1, less, more), Without(free, k), |s| - 1)
      && SortedFree(Joined(s1, less, more), Without(free, k))
  {
    var last := |s| - 1;
    CarvedChain(s, ch, i, num, size);
    CarvedReads(s, ch, i, num, size);
    assert last in ch by { assert ch[|ch| - 1] == last; }
    var s1 := Carved(s, ch[i], num, size);
    hide ChainOk, Carved, Without, SortedFree;
    RingFrame(s, s1, free, last);
    UnlinkAround(s1, free, last, k);
    UnlinkRing(s1, free, last, k);
    var less, more := At(free, last, k), At(free, last, k + 2);
    WithoutSorted(s, free, k);
    WithoutNoDup(free, k);
    hide RingOk;
    JoinedFree(s1, less, more);
    hide Joined;
    SortedFrame(s, Joined(s1, less, more), Without(free, k));
  }

  lemma JoinedFree(s: Units, less: nat, more: nat)
    requires less < |s| && more < |s|
    ensures |Joined(s, less, more)| == |s|
    ensures forall x :: 0 <= x < |s| ==> Joined(s, less, more)[x].freeNum == s[x].freeNum
  {
  }

  lemma UnlinkAround(s: Units, free: seq<nat>, anchor: nat, k: nat)
    requires RingOk(s, free, anchor) && k < |free|
    ensures free[k] < |s| && LessSec(s, free[k]) == At(free, anchor, k) &&
            MoreSec(s, free[k]) == At(free, anchor, k + 2)
    ensures At(free, anchor, k) < |s| && At(free, anchor, k + 2) < |s|
  {
    assert LessSec(s, At(free, anchor, k + 1)) == At(free, anchor, k);
    assert MoreSec(s, At(free, anchor, k + 1)) == At(free, anchor, k + 2);
  }

  /** The state change of a successful allocation: a best fit is carved from section ch[i]. */
  ghost predicate Allocated(s: Units, ch: seq<nat>, i: nat, size: nat, s': Units, ch': seq<nat>, r: nat) {
    var num := CalcNum(size);
    && i < |ch| - 1 && (forall x :: x in ch ==> x < |s|) && ch[i] < |s| && num <= s[ch[i]].freeNum
    && (forall x :: x in ch && num <= s[x].freeNum ==> s[ch[i]].freeNum <= s[x].freeNum)
    && NextSec(s, ch[i]) == ch[i + 1] < |s| && r == ch[i + 1] - num
    && ch' == With(ch, i + 1, r)
    && SamePhysical(Carved(s, ch[i], num, size), s')
  }

  /** In an ascending list the first member that is large enough is a best fit. */
  lemma BestFit(s: Units, ch: seq<nat>, free: seq<nat>, k: nat, num: nat)
    requires ListOk(s, ch, free) && k < |free| && 0 < num <= s[free[k]].freeNum
    requires forall j :: 0 <= j < k ==> s[free[j]].freeNum < num
    ensures forall x :: x in ch && num <= s[x].freeNum ==> s[free[k]].freeNum <= s[x].freeNum
  {
    forall x | x in ch && num <= s[x].freeNum ensures s[free[k]].freeNum <= s[x].freeNum {
      var j :| 0 <= j < |free| && free[j] == x;
    }
  }

  /** Free spaces of the headers after carving num units from section pos into section sec. */
  ghost predicate CarvedFree(s: Units, s': Units, ch: seq<nat>, pos: nat, sec: nat, num: nat) {
    && |s'| == |s| && pos in ch && sec < |s| && sec !in ch && s'[sec].freeNum == 0
    && (forall x :: x in ch ==> x < |s| && s'[x].freeNum == if x == pos then s[x].freeNum - num else s[x].freeNum)
  }

  lemma CarvedFreeReads(s: Units, ch: seq<nat>, i: nat, num: nat, size: nat, s': Units)
    requires ChainOk(s, ch) && i < |ch| - 1 && num == CalcNum(size) <= s[ch[i]].freeNum
    requires NextSec(s, ch[i]) == ch[i + 1] && ch[i + 1] - num !in ch && ch[i + 1] - num >= 0
    requires SamePhysical(Carved(s, ch[i], num, size), s')
    ensures CarvedFree(s, s', ch, ch[i], ch[i + 1] - num, num)
  {
    CarvedReads(s, ch, i, num, size);
  }

  lemma RelistedCovers(s: Units, s': Units, ch: seq<nat>, ch': seq<nat>, free: seq<nat>, free': seq<nat>, pos: nat,
                       sec: nat, num: nat)
    requires ListOk(s, ch, free) && CarvedFree(s, s', ch, pos, sec, num) && pos in free && |s| - 1 in ch && num >= 0
    requires forall x :: x in free' <==> x in free
    requires forall x :: x in ch' <==> x in ch || x == sec
    ensures Covers(s', ch', free')
  {
  }

  /** Putting the carved section back in order completes the list. */
  lemma RelistedList(s: Units, ch: seq<nat>, free: seq<nat>, k: nat, sec: nat, num: nat, s3: Units, f: seq<nat>, j: nat)
    requires ListOk(s, ch, free) && k < |free| && f == Without(free, k) && |s| - 1 in ch && num >= 0
    requires CarvedFree(s, s3, ch, free[k], sec, num)
    requires RingOk(s3, f, |s| - 1) && SortedFree(s3, f) && j <= k
    requires j > 0 ==> s3[f[j - 1]].freeNum <= s3[free[k]].freeNum
    requires j < k ==> s3[free[k]].freeNum <= s3[f[j]].freeNum
    ensures free[k] < |s3| && At(f, |s| - 1, j) < |s3| && At(f, |s| - 1, j + 1) < |s3|
    ensures var s4 := Inserted(s3, At(f, |s| - 1, j), free[k], At(f, |s| - 1, j + 1));
      && RingOk(s4, With(f, j, free[k]), |s| - 1) && SortedFree(s4, With(f, j, free[k]))
      && forall ch' :: (forall x :: x in ch' <==> x in ch || x == sec) ==> Covers(s4, ch', With(f, j, free[k]))
  {
    hide RingOk, ListOk, With, Without, Inserted, At, CarvedFree, Covers;
    var last, pos := |s| - 1, free[k];
    var less, more := At(f, last, j), At(f, last, j + 1);
    NotAnchor(s, ch, free, k);
    WithoutNoDup(free, k);
    MemberSize(s3, f, last, j);
    CarvedUpper(s, s3, ch, free, k, sec, num, f, j);
    LinkRing(s3, f, last, j, pos);
    var s4 := Inserted(s3, less, pos, more);
    InsertedFree(s3, less, pos, more);
    WithSorted(s3, f, j, pos);
    WithNoDup(f, j, pos);
    var f' := With(f, j, pos);
    SortedFrame(s3, s4, f');
    CarvedFreeFrame(s, s3, s4, ch, pos, sec, num);
    forall ch': seq<nat> | forall x :: x in ch' <==> x in ch || x == sec ensures Covers(s4, ch', f') {
      RelistedCovers(s, s4, ch, ch', free, f', pos, sec, num);
    }
  }

  lemma MemberSize(s: Units, f: seq<nat>, anchor: nat, j: nat)
    requires RingOk(s, f, anchor) && j <= |f|
    ensures At(f, anchor, j) < |s| && At(f, anchor, j + 1) < |s|
  {
  }

  /** Members after the carved section have at least its old free space. */
  lemma CarvedUpper(s: Units, s3: Units, ch: seq<nat>, free: seq<nat>, k: nat, sec: nat, num: nat, f: seq<nat>, j: nat)
    requires ListOk(s, ch, free) && k < |free| && f == Without(free, k) && num >= 0
    ensures CarvedFree(s, s3, ch, free[k], sec, num) && k <= j < |f| ==> s3[free[k]].freeNum <= s3[f[j]].freeNum
    ensures CarvedFree(s, s3, ch, free[k], sec, num) ==> free[k] < |s3|
  {
    if CarvedFree(s, s3, ch, free[k], sec, num) && k <= j < |f| {
      After(s, free, k);
      assert s[free[k]].freeNum <= s[f[j]].freeNum && f[j] in free && free[k] in free;
      WithoutNoDup(free, k);
      assert f[j] in f;
    }
  }

  lemma CarvedFreeFrame(s: Units, s3: Units, s4: Units, ch: seq<nat>, pos: nat, sec: nat, num: nat)
    requires CarvedFree(s, s3, ch, pos, sec, num) && |s4| == |s3|
    requires forall x :: 0 <= x < |s3| ==> s4[x].freeNum == s3[x].freeNum
    ensures CarvedFree(s, s4, ch, pos, sec, num)
  {
  }

  lemma InsertedFree(s: Units, less: nat, x: nat, more: nat)
    requires less < |s| && more < |s| && x < |s|
    ensures |Inserted(s, less, x, more)| == |s|
    ensures forall y :: 0 <= y < |s| ==> Inserted(s, less, x, more)[y].freeNum == s[y].freeNum
  {
  }

  lemma After(s: Units, free: seq<nat>, k: nat)
    requires SortedFree(s, free) && k < |free|
    ensures forall m :: k <= m < |free| - 1 ==>
            Without(free, k)[m] in free && s[free[k]].freeNum <= s[Without(free, k)[m]].freeNum
  {
    forall m | k <= m < |free| - 1
      ensures Without(free, k)[m] in free && s[free[k]].freeNum <= s[Without(free, k)[m]].freeNum
    {
      assert Without(free, k)[m] == free[m + 1];
    }
  }

  /** Live names are unique; the first and last section have none. */
  ghost predicate NamesOk(s: Units, ch: seq<nat>) {
    && (forall i :: 0 <= i < |ch| ==> ch[i] < |s|)
    && (forall i, j :: 0 <= i < j < |ch| && s[ch[i]].name != "" ==> s[ch[i]].name != s[ch[j]].name)
    && (|ch| > 0 ==> s[ch[0]].name == "" && s[ch[|ch| - 1]].name == "")
  }

  lemma NoRoom(s: Units, ch: seq<nat>, num: nat)
    requires ChainOk(s, ch) && num > |s| - Total(UsedOf, s, ch)
    ensures forall x :: x in ch ==> x < |s| && s[x].freeNum < num
  {
    AllTiled(s, ch);
  }

  lemma NoFit(s: Units, ch: seq<nat>, free: seq<nat>, num: nat)
    requires ListOk(s, ch, free) && num > 0 && forall x :: x in free ==> s[x].freeNum < num
    ensures forall x :: x in ch ==> s[x].freeNum < num
  {
  }

  /** Position in the chain of member k of the free list. */
  lemma HeaderIndex(s: Units, ch: seq<nat>, free: seq<nat>, k: nat) returns (i: nat)
    requires ChainOk(s, ch) && ListOk(s, ch, free) && k < |free|
    ensures i < |ch| - 1 && ch[i] == free[k]
  {
    assert free[k] in free;
    i :| 0 <= i < |ch| && ch[i] == free[k];
  }

  /** The units after carving, unlinking the carved section and clearing its links. */
  function Taken(s: Units, pos: nat, num: nat, size: nat, less: nat, more: nat): Units
    requires pos < |s| && 0 < num <= NextSec(s, pos) < |s| && less < |s| && more < |s|
  {
    var s1 := Joined(Carved(s, pos, num, size), less, more);
    s1[pos := s1[pos].(moreRel := 0, lessRel := 0)]
  }

  lemma TakenList(s: Units, ch: seq<nat>, free: seq<nat>, i: nat, k: nat, num: nat, size: nat, less: nat, more: nat)
    requires ChainOk(s, ch) && ListOk(s, ch, free) && i < |ch| - 1 && k < |free| && free[k] == ch[i]
    requires num == CalcNum(size) <= s[ch[i]].freeNum && NextSec(s, ch[i]) == ch[i + 1] < |s| &&
             ch[i] < ch[i + 1] - num < |s|
    requires less == At(free, |s| - 1, k) < |s| && more == At(free, |s| - 1, k + 2) < |s|
    ensures var s2 := Taken(s, ch[i], num, size, less, more);
      && RingOk(s2, Without(free, k), |s| - 1) && SortedFree(s2, Without(free, k))
      && SamePhysical(Carved(s, ch[i], num, size), s2)
      && CarvedFree(s, s2, ch, ch[i], ch[i + 1] - num, num)
  {
    hide ListOk, RingOk, SortedFree, ChainOk, SamePhysical, Carved, Joined, Without, NextSec, CarvedFree, At;
    CarvedChain(s, ch, i, num, size);
    var s1, s2 := Carved(s, ch[i], num, size), Taken(s, ch[i], num, size, less, more);
    CarvedList(s, ch, free, i, k, num, size);
    NotAnchor(s, ch, free, k);
    WithoutNoDup(free, k);
    JoinedFree(s1, less, more);
    ClearedRing(Joined(s1, less, more), s2, Without(free, k), |s| - 1, ch[i]);
    Unchanged(s1);
    JoinedKeeps(s1, s1, less, more);
    ClearedKeeps(s1, Joined(s1, less, more), ch[i]);
    CarvedFreeReads(s, ch, i, num, size, s2);
  }

  lemma NotAnchor(s: Units, ch: seq<nat>, free: seq<nat>, k: nat)
    requires ListOk(s, ch, free) && k < |free|
    ensures free[k] in ch && free[k] != |s| - 1 && free[k] in free && NoDup(free)
  {
    assert free[k] in free;
  }

  lemma Unchanged(s: Units)
    ensures SamePhysical(s, s)
  {
  }

  lemma ClearedKeeps(s: Units, s': Units, pos: nat)
    requires SamePhysical(s, s') && pos < |s'|
    ensures SamePhysical(s, s'[pos := s'[pos].(moreRel := 0, lessRel := 0)])
  {
  }

  lemma NamesKept(s: Units, ch: seq<nat>, i: nat, num: nat, size: nat, s': Units)
    requires ChainOk(s, ch) && i < |ch| - 1 && num == CalcNum(size) <= s[ch[i]].freeNum
    requires NextSec(s, ch[i]) == ch[i + 1] && ch[i] < ch[i + 1] - num < |s| && ch[i + 1] - num !in ch
    requires SamePhysical(Carved(s, ch[i], num, size), s')
    ensures |s'| == |s| && s'[ch[i + 1] - num].name == "" && forall x :: x in ch ==> x < |s| && s'[x].name == s[x].name
  {
    CarvedReads(s, ch, i, num, size);
  }

  /** A nameless section inside the chain keeps live names unique. */
  lemma NamesWith(s: Units, s': Units, ch: seq<nat>, k: nat, x: nat)
    requires NamesOk(s, ch) && 1 <= k < |ch| && |s'| == |s| && x < |s| && s'[x].name == ""
    requires forall y :: y in ch ==> y < |s| && s'[y].name == s[y].name
    ensures NamesOk(s', With(ch, k, x))
  {
    var ch' := With(ch, k, x);
    assert forall j :: 0 <= j < |ch'| ==> ch'[j] == if j < k then ch[j] else if j == k then x else ch[j - 1];
    assert forall j :: 0 <= j < |ch| ==> s'[ch[j]].name == s[ch[j]].name;
    forall a, b | 0 <= a < b < |ch'| && s'[ch'[a]].name != "" ensures s'[ch'[a]].name != s'[ch'[b]].name {
      var a', b' := if a < k then a else a - 1, if b < k then b else b - 1;
      if a != k && b != k {
        assert s[ch[a']].name != "" && s[ch[a']].name != s[ch[b']].name;
      }
    }
  }

  /** Clearing the links of a section outside the ring changes nothing else. */
  lemma ClearedRing(s: Units, s': Units, f: seq<nat>, anchor: nat, pos: nat)
    requires RingOk(s, f, anchor) && SortedFree(s, f) && pos < |s| && pos !in f && pos != anchor
    requires s' == s[pos := s[pos].(moreRel := 0, lessRel := 0)]
    ensures RingOk(s', f, anchor) && SortedFree(s', f)
  {
    RingFrame(s, s', f, anchor);
    SortedFrame(s, s', f);
  }

  /** The state after a successful allocation is well formed again. */
  lemma AllocDone(s: Units, ch: seq<nat>, free: seq<nat>, i: nat, k: nat, num: nat, size: nat, s2: Units, j: nat)
    requires ChainOk(s, ch) && ListOk(s, ch, free) && NamesOk(s, ch) && i < |ch| - 1 && k < |free| && free[k] == ch[i]
    requires num == CalcNum(size) <= s[ch[i]].freeNum && NextSec(s, ch[i]) == ch[i + 1] < |s| &&
             ch[i] < ch[i + 1] - num < |s|
    requires ch[i + 1] - num !in ch && ChainOk(Carved(s, ch[i], num, size), With(ch, i + 1, ch[i + 1] - num))
    requires var f := Without(free, k);
      && RingOk(s2, f, |s| - 1) && SortedFree(s2, f) && SamePhysical(Carved(s, ch[i], num, size), s2)
      && CarvedFree(s, s2, ch, ch[i], ch[i + 1] - num, num) && j <= k
      && (j > 0 ==> s2[f[j - 1]].freeNum <= s2[ch[i]].freeNum) && (j < k ==> s2[ch[i]].freeNum <= s2[f[j]].freeNum)
    ensures var f, ch' := Without(free, k), With(ch, i + 1, ch[i + 1] - num);
      && At(f, |s| - 1, j) < |s2| && At(f, |s| - 1, j + 1) < |s2|
      && var s4 := Inserted(s2, At(f, |s| - 1, j), ch[i], At(f, |s| - 1, j + 1));
      && |s4| == |s| && ChainOk(s4, ch') && ListOk(s4, ch', With(f, j, ch[i])) && NamesOk(s4, ch')
      && SamePhysical(Carved(s, ch[i], num, size), s4)
      && Total(UsedOf, s4, ch') == Total(UsedOf, s, ch) + num && Total(ReqOf, s4, ch') == Total(ReqOf, s, ch) + size
  {
    hide ChainOk, ListOk, NamesOk, RingOk, SortedFree, SamePhysical, Carved, CarvedFree, With, Without, Total, Inserted,
         NextSec;
    var f, ch', last := Without(free, k), With(ch, i + 1, ch[i + 1] - num), |s| - 1;
    var s1 := Carved(s, ch[i], num, size);
    AnchorHeader(s, ch);
    ChainNoDup(s, ch);
    WithNoDup(ch, i + 1, ch[i + 1] - num);
    CarvedTotals(s, ch, i, num, size);
    SameLength(s1, s2);
    RelistedList(s, ch, free, k, ch[i + 1] - num, num, s2, f, j);
    InsertedKeeps(s1, s2, At(f, last, j), ch[i], At(f, last, j + 1));
    var s4 := Inserted(s2, At(f, last, j), ch[i], At(f, last, j + 1));
    InsertedFree(s2, At(f, last, j), ch[i], At(f, last, j + 1));
    LinksKeepChain(s1, s4, ch');
    NamesKept(s, ch, i, num, size, s4);
    NamesWith(s, s4, ch, i + 1, ch[i + 1] - num);
    MakeList(s4, ch', With(f, j, ch[i]));
  }

  lemma SameLength(s: Units, s': Units)
    requires SamePhysical(s, s')
    ensures |s| == |s'|
  {
  }

  lemma MakeList(s: Units, ch: seq<nat>, free: seq<nat>)
    requires |s| > 0 && RingOk(s, free, |s| - 1) && Covers(s, ch, free) && SortedFree(s, free)
    ensures ListOk(s, ch, free)
  {
  }

  lemma SameMembers(s: Units, ch: seq<nat>, free: seq<nat>, k: nat, j: nat)
    requires ListOk(s, ch, free) && k < |free| && j < |free|
    ensures forall y :: y in With(Without(free, k), j, free[k]) <==> y in free
  {
    WithoutNoDup(free, k);
    WithNoDup(Without(free, k), j, free[k]);
  }

  lemma AllocatedIntro(s: Units, ch: seq<nat>, i: nat, size: nat, s': Units, r: nat)
    requires ChainOk(s, ch) && i < |ch| - 1 && CalcNum(size) <= s[ch[i]].freeNum
    requires forall x :: x in ch && x < |s| && CalcNum(size) <= s[x].freeNum ==> s[ch[i]].freeNum <= s[x].freeNum
    requires NextSec(s, ch[i]) == ch[i + 1] && r == ch[i + 1] - CalcNum(size)
    requires SamePhysical(Carved(s, ch[i], CalcNum(size), size), s')
    ensures Allocated(s, ch, i, size, s', With(ch, i + 1, r), r)
  {
  }

  lemma AnchorHeader(s: Units, ch: seq<nat>)
    requires ChainOk(s, ch)
    ensures |s| - 1 in ch
  {
    assert ch[|ch| - 1] == |s| - 1;
  }

  // ---------- freeing ----------

  /**
   A section and its physical predecessor can be merged without harm to the free
   list exactly when neither is still a member although its free space is used up.
   */
  ghost predicate FreeSafe(s: Units, free: seq<nat>, x: nat, prev: nat) {
    x < |s| && prev < |s| && (x in free ==> s[x].freeNum > 0) && (prev in free ==> s[prev].freeNum > 0)
  }

  /** The same, with the predecessor read from the header. */
  ghost predicate SafeToFree(s: Units, free: seq<nat>, x: int) {
    0 <= x < |s| && 0 <= PrevSec(s, x) && FreeSafe(s, free, x, PrevSec(s, x))
  }

  lemma SafeAt(s: Units, ch: seq<nat>, free: seq<nat>, i: nat)
    requires ChainOk(s, ch) && 1 <= i < |ch| - 1
    ensures SafeToFree(s, free, ch[i]) <==> FreeSafe(s, free, ch[i], ch[i - 1])
  {
    assert PrevSec(s, ch[i]) == ch[i - 1];
  }

  /** The ring after the freed section and its predecessor left the list, as the code unlinks them. */
  ghost predicate Unlisted(s: Units, free: seq<nat>, x: nat, prev: nat, s': Units, f: seq<nat>, b: nat)
    requires x < |s| && prev < |s|
  {
    && |s'| == |s| > 0 && RingOk(s', f, |s| - 1) && b <= |f|
    && (forall y :: y in f <==> y in free && (y == x ==> s[x].freeNum <= 0) && (y == prev ==> s[prev].freeNum <= 0))
    && SortedFree(s, f) && (forall m :: 0 <= m < b ==> s[f[m]].freeNum <= s[prev].freeNum)
    && (s[prev].freeNum <= 0 ==> b == 0)
  }

  lemma UnlinkMember(s: Units, free: seq<nat>, anchor: nat, x: nat) returns (k: nat)
    requires RingOk(s, free, anchor) && x in free
    ensures k < |free| && free[k] == x && x < |s|
    ensures LessSec(s, x) == At(free, anchor, k) < |s| && MoreSec(s, x) == At(free, anchor, k + 2) < |s|
    ensures RingOk(Joined(s, At(free, anchor, k), At(free, anchor, k + 2)), Without(free, k), anchor)
    ensures forall y :: y in Without(free, k) <==> y in free && y != x
  {
    hide RingOk, Joined, Without;
    k := IndexOf(free, x);
    RingNoDup(s, free, anchor);
    UnlinkAround(s, free, anchor, k);
    UnlinkRing(s, free, anchor, k);
    WithoutNoDup(free, k);
  }

  lemma RingNoDup(s: Units, free: seq<nat>, anchor: nat)
    requires RingOk(s, free, anchor)
    ensures NoDup(free) && anchor !in free && anchor < |s| && forall i :: 0 <= i < |free| ==> free[i] < |s|
  {
  }

  lemma IndexOf(f: seq<nat>, x: nat) returns (k: nat)
    requires x in f
    ensures k < |f| && f[k] == x
  {
    k :| 0 <= k < |f| && f[k] == x;
  }

  lemma FirstMember(s: Units, f: seq<nat>, anchor: nat)
    requires RingOk(s, f, anchor)
    ensures anchor < |s| && MoreSec(s, anchor) == At(f, anchor, 1)
  {
    assert MoreSec(s, At(f, anchor, 0)) == At(f, anchor, 1);
  }

  /** Unlisting the freed section and then its predecessor, each only if it has free space. */
  lemma UnlistedTwice(s: Units, ch: seq<nat>, free: seq<nat>, x: nat, prev: nat, f1: seq<nat>, a: nat, s': Units,
                      f2: seq<nat>, b: nat)
    requires ListOk(s, ch, free) && x < |s| && prev < |s| && x != prev && s[x].freeNum >= 0 && s[prev].freeNum >= 0
    requires if s[x].freeNum == 0 then f1 == free else a < |free| && free[a] == x && f1 == Without(free, a)
    requires if s[prev].freeNum == 0 then f2 == f1 && b == 0 else b < |f1| && f1[b] == prev && f2 == Without(f1, b)
    requires |s'| == |s| && RingOk(s', f2, |s| - 1)
    ensures Unlisted(s, free, x, prev, s', f2, b)
  {
    hide RingOk, ListOk, SortedFree, Without, NoDup, Covers;
    RingOf(s, ch, free);
    if s[x].freeNum != 0 {
      UnlistStep(s, free, a);
    }
    if s[prev].freeNum != 0 {
      UnlistStep(s, f1, b);
    }
    InSize(s, f2);
  }

  lemma InSize(s: Units, f: seq<nat>)
    requires SortedFree(s, f)
    ensures forall m :: 0 <= m < |f| ==> f[m] < |s|
  {
  }

  lemma UnlistStep(s: Units, f: seq<nat>, k: nat)
    requires SortedFree(s, f) && NoDup(f) && k < |f|
    ensures SortedFree(s, Without(f, k)) && NoDup(Without(f, k))
    ensures forall y :: y in Without(f, k) <==> y in f && y != f[k]
    ensures f[k] < |s| && forall m :: 0 <= m < k ==>
            Without(f, k)[m] < |s| && s[Without(f, k)[m]].freeNum <= s[f[k]].freeNum
  {
    WithoutNoDup(f, k);
    WithoutSorted(s, f, k);
    assert forall m :: 0 <= m < k ==> Without(f, k)[m] == f[m];
  }

  lemma RingOf(s: Units, ch: seq<nat>, free: seq<nat>)
    requires ListOk(s, ch, free)
    ensures |s| > 0 && RingOk(s, free, |s| - 1) && NoDup(free) && SortedFree(s, free) && Covers(s, ch, free)
  {
  }

  /** Free spaces after merging the section x into prev. */
  ghost predicate MergedFree(s: Units, s': Units, x: nat, prev: nat) {
    && |s'| == |s| && x < |s| && prev < |s| && x != prev
    && s'[prev].freeNum > s[prev].freeNum && s'[prev].freeNum > 0
    && (forall y :: 0 <= y < |s| && y != prev ==> s'[y].freeNum == s[y].freeNum)
  }

  /** Place j of the list found by the upward search from b. */
  ghost predicate PlaceUp(s: Units, f: seq<nat>, b: nat, j: nat, pos: nat) {
    && b <= j <= |f| && pos < |s| && (forall m :: 0 <= m < |f| ==> f[m] < |s|)
    && (forall m :: b <= m < j ==> s[f[m]].freeNum < s[pos].freeNum)
    && (j < |f| ==> s[pos].freeNum <= s[f[j]].freeNum)
  }

  /** When neither section was a used-up member, the list is well formed again. */
  lemma FreedList(s: Units, ch: seq<nat>, free: seq<nat>, x: nat, prev: nat, s4: Units, f: seq<nat>, b: nat, j: nat,
                  ch': seq<nat>)
    requires ListOk(s, ch, free) && MergedFree(s, s4, x, prev) && Unlisted(s, free, x, prev, s4, f, b)
    requires PlaceUp(s4, f, b, j, prev) && prev != |s| - 1 && prev in ch
    requires FreeSafe(s, free, x, prev) && x != prev && (forall y :: y in ch' <==> y in ch && y != x)
    ensures At(f, |s| - 1, j) < |s4| && At(f, |s| - 1, j + 1) < |s4|
    ensures ListOk(Inserted(s4, At(f, |s| - 1, j), prev, At(f, |s| - 1, j + 1)), ch', With(f, j, prev))
  {
    hide RingOk, ListOk, Inserted, With, At, SortedFree, Unlisted, MergedFree, PlaceUp;
    var last := |s| - 1;
    RingOf(s, ch, free);
    FreedPlace(s, free, x, prev, s4, f, b, j);
    MemberSize(s4, f, last, j);
    var less, more := At(f, last, j), At(f, last, j + 1);
    RingNoDup(s4, f, last);
    LinkRing(s4, f, last, j, prev);
    var s5 := Inserted(s4, less, prev, more);
    InsertedFree(s4, less, prev, more);
    WithSorted(s4, f, j, prev);
    WithNoDup(f, j, prev);
    SortedRange(s4, With(f, j, prev));
    SortedFrame(s4, s5, With(f, j, prev));
    FreedCovers(s, ch, free, x, prev, s5, f, With(f, j, prev), ch');
    MakeList(s5, ch', With(f, j, prev));
  }

  lemma SortedRange(s: Units, f: seq<nat>)
    requires SortedFree(s, f)
    ensures forall y :: y in f ==> y < |s|
  {
  }

  /** What the search found, in terms of the list it searched. */
  lemma FreedPlace(s: Units, free: seq<nat>, x: nat, prev: nat, s4: Units, f: seq<nat>, b: nat, j: nat)
    requires MergedFree(s, s4, x, prev) && Unlisted(s, free, x, prev, s4, f, b)
    requires PlaceUp(s4, f, b, j, prev) && FreeSafe(s, free, x, prev)
    ensures |s4| == |s| > 0 && RingOk(s4, f, |s| - 1) && j <= |f| && prev !in f && x !in f && SortedFree(s4, f)
    ensures j > 0 ==> s4[f[j - 1]].freeNum <= s4[prev].freeNum
    ensures j < |f| ==> s4[prev].freeNum <= s4[f[j]].freeNum
    ensures forall y :: y in f <==> y in free && y != x && y != prev
    ensures forall y :: 0 <= y < |s| && y != prev ==> s4[y].freeNum == s[y].freeNum
  {
    hide RingOk;
    assert prev !in f && x !in f;
    forall m | 0 <= m < |f|
      ensures f[m] != prev
    {
      assert f[m] in f;
    }
    SortedFrame(s, s4, f);
  }

  lemma FreedCovers(s: Units, ch: seq<nat>, free: seq<nat>, x: nat, prev: nat, s': Units, f: seq<nat>, f': seq<nat>,
                    ch': seq<nat>)
    requires Covers(s, ch, free) && |s'| == |s| && prev in ch && prev != |s| - 1 && prev != x
    requires forall y :: y in f <==> y in free && y != x && y != prev
    requires forall y :: y in f' <==> y in f || y == prev
    requires forall y :: y in ch' <==> y in ch && y != x
    requires forall y :: 0 <= y < |s| && y != prev ==> s'[y].freeNum == s[y].freeNum
    ensures Covers(s', ch', f')
  {
  }

  /** A used-up member that is freed stays linked although it is no section any more. */
  lemma FreedDangling(s: Units, free: seq<nat>, x: nat, prev: nat, s4: Units, f: seq<nat>, b: nat, j: nat,
                      ch': seq<nat>, g: seq<nat>)
    requires x < |s| && prev < |s| && Unlisted(s, free, x, prev, s4, f, b) && PlaceUp(s4, f, b, j, prev) &&
             prev != |s| - 1
    requires x in f && prev !in f && x !in ch'
    requires At(f, |s| - 1, j) < |s4| && At(f, |s| - 1, j + 1) < |s4|
    ensures !ListOk(Inserted(s4, At(f, |s| - 1, j), prev, At(f, |s| - 1, j + 1)), ch', g)
  {
    hide RingOk, Inserted, With, At, ListOk, PlaceUp;
    var last := |s| - 1;
    PlaceRange(s4, f, b, j, prev);
    LinkRing(s4, f, last, j, prev);
    WithNoDupRing(s4, f, last, j, prev);
    var s5 := Inserted(s4, At(f, last, j), prev, At(f, last, j + 1));
    InsertedFree(s4, At(f, last, j), prev, At(f, last, j + 1));
    if ListOk(s5, ch', g) {
      RingOf(s5, ch', g);
      RingUnique(s5, With(f, j, prev), g, last);
      assert false;
    }
  }

  /** When the predecessor is a used-up member, the search stops at the predecessor itself. */
  lemma StopsAtSelf(s: Units, free: seq<nat>, x: nat, prev: nat, s4: Units, f: seq<nat>, b: nat, j: nat)
    requires MergedFree(s, s4, x, prev) && Unlisted(s, free, x, prev, s4, f, b) && PlaceUp(s4, f, b, j, prev)
    requires prev in f && s[prev].freeNum == 0
    ensures j < |f| && f[j] == prev && |s4| == |s| > 0 && RingOk(s4, f, |s| - 1)
  {
    hide RingOk;
    var p := IndexOf(f, prev);
    RingNoDup(s4, f, |s| - 1);
    assert j <= p;
  }

  /** Following links after the predecessor was linked next to itself: the walk still reaches it. */
  lemma {:induction false} LoopedWalk(s4: Units, f: seq<nat>, anchor: nat, j: nat, g: seq<nat>, i: nat)
    requires RingOk(s4, f, anchor) && j < |f| && At(f, anchor, j) < |s4| && f[j] < |s4|
    requires RingOk(Inserted(s4, At(f, anchor, j), f[j], f[j]), g, anchor) && i <= j + 1 && i <= |g| + 1
    ensures At(g, anchor, i) == At(f, anchor, i)
  {
    hide RingOk, Inserted;
    if i > 0 {
      LoopedWalk(s4, f, anchor, j, g, i - 1);
      var s5 := Inserted(s4, At(f, anchor, j), f[j], f[j]);
      InsertedReads(s4, At(f, anchor, j), f[j], f[j]);
      InsertedFree(s4, At(f, anchor, j), f[j], f[j]);
      WalkStep(s5, g, anchor, i - 1);
      WalkStep(s4, f, anchor, i - 1);
      RingNoDup(s4, f, anchor);
      AtOnce(f, anchor, i - 1, j + 1);
      if i - 1 < j {
        AtOnce(f, anchor, i - 1, j);
      }
    }
  }

  lemma WalkStep(s: Units, f: seq<nat>, anchor: nat, i: nat)
    requires RingOk(s, f, anchor) && i <= |f|
    ensures At(f, anchor, i) < |s| && MoreSec(s, At(f, anchor, i)) == At(f, anchor, i + 1)
  {
  }

  /** Then the predecessor is its own successor and there is no ring any more. */
  lemma FreedLooped(s4: Units, f: seq<nat>, j: nat, ch': seq<nat>, g: seq<nat>)
    requires |s4| > 0 && RingOk(s4, f, |s4| - 1) && j < |f|
    requires At(f, |s4| - 1, j) < |s4| && At(f, |s4| - 1, j + 1) < |s4|
    ensures !ListOk(Inserted(s4, At(f, |s4| - 1, j), f[j], At(f, |s4| - 1, j + 1)), ch', g)
  {
    hide RingOk, Inserted, ListOk;
    var last := |s4| - 1;
    var s5 := Inserted(s4, At(f, last, j), f[j], f[j]);
    InsertedReads(s4, At(f, last, j), f[j], f[j]);
    InsertedFree(s4, At(f, last, j), f[j], f[j]);
    RingNoDup(s4, f, last);
    if ListOk(s5, ch', g) {
      RingOf(s5, ch', g);
      assert f[j] in f;
      if |g| + 1 <= j + 1 {
        assert f[|g|] in f;
        LoopedWalk(s4, f, last, j, g, |g| + 1);
      } else {
        LoopedWalk(s4, f, last, j, g, j + 1);
        assert g[j] in g;
        SelfLoop(s5, g, last, f[j]);
      }
      assert false;
    }
  }

  lemma PlaceRange(s: Units, f: seq<nat>, b: nat, j: nat, pos: nat)
    requires PlaceUp(s, f, b, j, pos)
    ensures j <= |f|
  {
  }

  lemma WithNoDupRing(s: Units, f: seq<nat>, anchor: nat, j: nat, x: nat)
    requires RingOk(s, f, anchor) && j <= |f| && x !in f
    ensures forall y :: y in With(f, j, x) <==> y in f || y == x
  {
    WithNoDup(f, j, x);
  }

  /** Merging and link writes together. */
  ghost predicate FreeWrites(s: Units, ch: seq<nat>, i: nat, s4: Units)
    requires 1 <= i < |ch| - 1
  {
    && (forall j :: 0 <= j < |ch| ==> ch[j] < |s|)
    && NextSec(s, ch[i]) == ch[i + 1] && PrevSec(s, ch[i]) == ch[i - 1]
    && SamePhysical(Merged(s, ch[i]), s4)
  }

  lemma FreeWritesReads(s: Units, ch: seq<nat>, i: nat, s4: Units)
    requires ChainOk(s, ch) && 1 <= i < |ch| - 1 && FreeWrites(s, ch, i, s4)
    ensures MergedFree(s, s4, ch[i], ch[i - 1])
    ensures forall y :: 0 <= y < |s| ==> s4[y].name == s[y].name
    ensures ch[i - 1] != |s| - 1 && s[ch[i]].freeNum >= 0 && s[ch[i - 1]].freeNum >= 0 && ch[i] != ch[i - 1]
  {
    Ascending(s, ch, i - 1, i);
    Ascending(s, ch, i - 1, |ch| - 1);
  }

  lemma WithoutNames(s: Units, s': Units, ch: seq<nat>, i: nat)
    requires NamesOk(s, ch) && 1 <= i < |ch| - 1 && |s'| == |s| && forall y :: 0 <= y < |s| ==> s'[y].name == s[y].name
    ensures NamesOk(s', Without(ch, i))
  {
    var ch' := Without(ch, i);
    assert forall j :: 0 <= j < |ch'| ==> ch'[j] == ch[if j < i then j else j + 1];
    forall a, b | 0 <= a < b < |ch'| && s'[ch'[a]].name != "" ensures s'[ch'[a]].name != s'[ch'[b]].name {
      var a', b' := if a < i then a else a + 1, if b < i then b else b + 1;
      assert s[ch[a']].name != "" && s[ch[a']].name != s[ch[b']].name;
    }
  }

  /** The chain, names and counters after a free, whatever happened to the list. */
  lemma FreedChain(s: Units, ch: seq<nat>, i: nat, s5: Units)
    requires ChainOk(s, ch) && NamesOk(s, ch) && 1 <= i < |ch| - 1 && FreeWrites(s, ch, i, s5)
    ensures ChainOk(s5, Without(ch, i)) && NamesOk(s5, Without(ch, i))
    ensures Total(UsedOf, s5, Without(ch, i)) == Total(UsedOf, s, ch) - s[ch[i]].usedNum
    ensures Total(ReqOf, s5, Without(ch, i)) == Total(ReqOf, s, ch) - s[ch[i]].reqSize
  {
    hide ChainOk, NamesOk, SamePhysical, Merged, Without, Total, NextSec, PrevSec;
    InRange(s, ch);
    MergedChain(s, ch, i);
    MergedTotals(s, ch, i);
    LinksKeepChain(Merged(s, ch[i]), s5, Without(ch, i));
    FreeWritesReads(s, ch, i, s5);
    WithoutNames(s, s5, ch, i);
  }

  /** After a free there is a well-formed free list exactly when the free was safe. */
  lemma FreedListIff(s: Units, ch: seq<nat>, free: seq<nat>, i: nat, s4: Units, f: seq<nat>, b: nat, j: nat)
    requires ChainOk(s, ch) && ListOk(s, ch, free) && 1 <= i < |ch| - 1 && FreeWrites(s, ch, i, s4)
    requires ch[i] < |s| && ch[i - 1] < |s| && Unlisted(s, free, ch[i], ch[i - 1], s4, f, b) &&
             PlaceUp(s4, f, b, j, ch[i - 1])
    requires |s| > 0 && At(f, |s| - 1, j) < |s4| && At(f, |s| - 1, j + 1) < |s4|
    ensures var s5, ch' := Inserted(s4, At(f, |s| - 1, j), ch[i - 1], At(f, |s| - 1, j + 1)), Without(ch, i);
      && (FreeSafe(s, free, ch[i], ch[i - 1]) ==> j <= |f| && ListOk(s5, ch', With(f, j, ch[i - 1])))
      && (!FreeSafe(s, free, ch[i], ch[i - 1]) ==> forall g :: !ListOk(s5, ch', g))
  {
    hide ChainOk, ListOk, Inserted, With, Without, At, FreeWrites, MergedFree, PlaceUp;
    var x, prev, ch' := ch[i], ch[i - 1], Without(ch, i);
    FreeWritesReads(s, ch, i, s4);
    ChainNoDup(s, ch);
    WithoutNoDup(ch, i);
    PlaceRange(s4, f, b, j, prev);
    var s5 := Inserted(s4, At(f, |s| - 1, j), prev, At(f, |s| - 1, j + 1));
    if FreeSafe(s, free, x, prev) {
      FreedList(s, ch, free, x, prev, s4, f, b, j, ch');
    } else if prev in f {
      StopsAtSelf(s, free, x, prev, s4, f, b, j);
      forall g ensures !ListOk(s5, ch', g) {
        FreedLooped(s4, f, j, ch', g);
      }
    } else {
      forall g ensures !ListOk(s5, ch', g) {
        FreedDangling(s, free, x, prev, s4, f, b, j, ch', g);
      }
    }
  }

  ghost predicate SameSet(free': seq<nat>, free: seq<nat>, x: nat, prev: nat) {
    forall y :: y in free' <==> (y in free && y != x) || y == prev
  }

  /** Reads at the start of a free. */
  lemma FreeStart(s: Units, ch: seq<nat>, free: seq<nat>, i: nat)
    requires ChainOk(s, ch) && ListOk(s, ch, free) && 1 <= i < |ch| - 1
    ensures |s| > 0 && ch[i] < |s| && NextSec(s, ch[i]) == ch[i + 1] < |s| && PrevSec(s, ch[i]) == ch[i - 1] < |s|
    ensures ch[i] != ch[i + 1] && ch[i - 1] != ch[i + 1] && ch[i] != ch[i - 1]
    ensures var s1 := s[ch[i + 1] := s[ch[i + 1]].(prevRel := SecRel(ch[i + 1], ch[i - 1]))];
      RingOk(s1, free, |s| - 1) && (s1[ch[i]].freeNum != 0 ==> ch[i] in free) && s1[ch[i - 1]] == s[ch[i - 1]] &&
        s1[ch[i]] == s[ch[i]]
  {
    MergedChain(s, ch, i);
    ChainNoDup(s, ch);
    assert ch[i] in ch;
    var s1 := s[ch[i + 1] := s[ch[i + 1]].(prevRel := SecRel(ch[i + 1], ch[i - 1]))];
    RingFrame(s, s1, free, |s| - 1);
  }

  /** After the section left the list, its predecessor is still there if it has free space. */
  lemma StillListed(s: Units, ch: seq<nat>, free: seq<nat>, i: nat, s1: Units, s2: Units, f1: seq<nat>, a: nat)
    requires ChainOk(s, ch) && ListOk(s, ch, free) && 1 <= i < |ch| - 1 && ch[i + 1] < |s| && ch[i] < |s| &&
             ch[i - 1] < |s|
    requires s1 == s[ch[i + 1] := s[ch[i + 1]].(prevRel := SecRel(ch[i + 1], ch[i - 1]))] && SamePhysical(s1, s2)
    requires ch[i] != ch[i + 1] && ch[i - 1] != ch[i + 1] && ch[i] != ch[i - 1]
    requires if s[ch[i]].freeNum == 0 then f1 == free else a < |free| && free[a] == ch[i] && f1 == Without(free, a)
    ensures s2[ch[i - 1]].freeNum == s[ch[i - 1]].freeNum && (s2[ch[i - 1]].freeNum != 0 ==> ch[i - 1] in f1)
  {
    assert ch[i - 1] in ch;
    RingOf(s, ch, free);
    if s[ch[i]].freeNum != 0 {
      WithoutNoDup(free, a);
    }
  }

  /** The writes before the upward search: the list without the two sections, and the merged sizes. */
  lemma FreeMiddle(s: Units, ch: seq<nat>, free: seq<nat>, i: nat, s1: Units, s2: Units, s3: Units, s4: Units,
                   f1: seq<nat>, a: nat, f2: seq<nat>, b: nat)
    requires ChainOk(s, ch) && ListOk(s, ch, free) && 1 <= i < |ch| - 1 && ch[i + 1] < |s| && ch[i] < |s| &&
             ch[i - 1] < |s|
    requires s1 == s[ch[i + 1] := s[ch[i + 1]].(prevRel := SecRel(ch[i + 1], ch[i - 1]))]
    requires SamePhysical(s1, s2) && SamePhysical(s2, s3)
    requires s4 == s3[ch[i - 1] := s3[ch[i - 1]].(freeNum :=
                        s3[ch[i - 1]].freeNum + (s[ch[i]].usedNum + s[ch[i]].freeNum))]
    requires ch[i] != ch[i + 1] && ch[i - 1] != ch[i + 1] && ch[i] != ch[i - 1]
    requires if s[ch[i]].freeNum == 0 then f1 == free else a < |free| && free[a] == ch[i] && f1 == Without(free, a)
    requires if s[ch[i - 1]].freeNum == 0 then f2 == f1 && b == 0
             else b < |f1| && f1[b] == ch[i - 1] && f2 == Without(f1, b)
    requires |s| > 0 && RingOk(s3, f2, |s| - 1)
    ensures FreeWrites(s, ch, i, s4) && Unlisted(s, free, ch[i], ch[i - 1], s4, f2, b) && RingOk(s4, f2, |s| - 1)
  {
    hide ListOk, RingOk, Without, Unlisted, ChainOk;
    InRange(s, ch);
    MergedChain(s, ch, i);
    RingFrame(s3, s4, f2, |s| - 1);
    FreeWritesReads(s, ch, i, s4);
    UnlistedTwice(s, ch, free, ch[i], ch[i - 1], f1, a, s4, f2, b);
  }

  lemma FreeEnd(s: Units, ch: seq<nat>, free: seq<nat>, i: nat, s4: Units, f: seq<nat>, b: nat, j: nat)
    requires ChainOk(s, ch) && ListOk(s, ch, free) && NamesOk(s, ch) && 1 <= i < |ch| - 1 && FreeWrites(s, ch, i, s4)
    requires ch[i] < |s| && ch[i - 1] < |s| && Unlisted(s, free, ch[i], ch[i - 1], s4, f, b) &&
             PlaceUp(s4, f, b, j, ch[i - 1])
    requires |s| == |s4| > 0 && At(f, |s| - 1, j) < |s4| && At(f, |s| - 1, j + 1) < |s4|
    ensures var s5, ch' := Inserted(s4, At(f, |s| - 1, j), ch[i - 1], At(f, |s| - 1, j + 1)), Without(ch, i);
      && |s5| == |s| && FreeWrites(s, ch, i, s5) && ChainOk(s5, ch') && NamesOk(s5, ch')
      && Total(UsedOf, s5, ch') == Total(UsedOf, s, ch) - s[ch[i]].usedNum
      && Total(ReqOf, s5, ch') == Total(ReqOf, s, ch) - s[ch[i]].reqSize
      && s5[ch[i]].usedNum == s[ch[i]].usedNum && s5[ch[i]].reqSize == s[ch[i]].reqSize && j <= |f|
      && (FreeSafe(s, free, ch[i], ch[i - 1]) ==>
         ListOk(s5, ch', With(f, j, ch[i - 1])) && SameSet(With(f, j, ch[i - 1]), free, ch[i], ch[i - 1]))
      && (!FreeSafe(s, free, ch[i], ch[i - 1]) ==> forall g :: !ListOk(s5, ch', g))
      && (ch[i - 1] in free && s[ch[i - 1]].freeNum == 0 ==> MoreSec(s5, ch[i - 1]) == ch[i - 1])
  {
    hide ListOk, RingOk, With, Without, Unlisted, ChainOk, NamesOk, PlaceUp, Inserted, At, Total, SameSet;
    var s5 := Inserted(s4, At(f, |s| - 1, j), ch[i - 1], At(f, |s| - 1, j + 1));
    InsertedWrites(s, ch, i, s4, At(f, |s| - 1, j), At(f, |s| - 1, j + 1));
    PlaceRange(s4, f, b, j, ch[i - 1]);
    FreedChain(s, ch, i, s5);
    FreedListIff(s, ch, free, i, s4, f, b, j);
    if FreeSafe(s, free, ch[i], ch[i - 1]) {
      FreeWritesReads(s, ch, i, s4);
      SafeSet(s, free, ch[i], ch[i - 1], s4, f, b, j);
    }
    if ch[i - 1] in free && s[ch[i - 1]].freeNum == 0 {
      FreeWritesReads(s, ch, i, s4);
      OwnSuccessor(s, free, ch[i], ch[i - 1], s4, f, b, j);
    }
  }

  lemma OwnSuccessor(s: Units, free: seq<nat>, x: nat, prev: nat, s4: Units, f: seq<nat>, b: nat, j: nat)
    requires MergedFree(s, s4, x, prev) && Unlisted(s, free, x, prev, s4, f, b) && PlaceUp(s4, f, b, j, prev)
    requires prev in free && s[prev].freeNum == 0 && At(f, |s| - 1, j) < |s4| && At(f, |s| - 1, j + 1) < |s4|
    ensures MoreSec(Inserted(s4, At(f, |s| - 1, j), prev, At(f, |s| - 1, j + 1)), prev) == prev
  {
    StopsAtSelf(s, free, x, prev, s4, f, b, j);
    InsertedReads(s4, At(f, |s| - 1, j), prev, At(f, |s| - 1, j + 1));
  }

  lemma SafeSet(s: Units, free: seq<nat>, x: nat, prev: nat, s4: Units, f: seq<nat>, b: nat, j: nat)
    requires MergedFree(s, s4, x, prev) && Unlisted(s, free, x, prev, s4, f, b) && PlaceUp(s4, f, b, j, prev) &&
             FreeSafe(s, free, x, prev)
    ensures j <= |f| && SameSet(With(f, j, prev), free, x, prev)
  {
    hide MergedFree, Unlisted, PlaceUp, FreeSafe, RingOk;
    FreedPlace(s, free, x, prev, s4, f, b, j);
    RingNoDup(s4, f, |s| - 1);
    WithNoDup(f, j, prev);
    MergedDistinct(s, s4, x, prev);
  }

  lemma MergedDistinct(s: Units, s': Units, x: nat, prev: nat)
    requires MergedFree(s, s', x, prev)
    ensures x != prev
  {
  }

  lemma InsertedWrites(s: Units, ch: seq<nat>, i: nat, s4: Units, less: nat, more: nat)
    requires 1 <= i < |ch| - 1 && FreeWrites(s, ch, i, s4) && |s4| == |s| && less < |s| && more < |s| && ch[i - 1] < |s|
    ensures var s5 := Inserted(s4, less, ch[i - 1], more);
      |s5| == |s| && FreeWrites(s, ch, i, s5) && ch[i] < |s| && s5[ch[i]].usedNum == s[ch[i]].usedNum &&
        s5[ch[i]].reqSize == s[ch[i]].reqSize
  {
    InsertedKeeps(Merged(s, ch[i]), s4, less, ch[i - 1], more);
    MergedReads(s, ch, i);
  }

  lemma BackStep(s: Units, f: seq<nat>, anchor: nat, i: nat)
    requires RingOk(s, f, anchor) && 1 <= i <= |f| + 1
    ensures At(f, anchor, i) < |s| && LessSec(s, At(f, anchor, i)) == At(f, anchor, i - 1)
  {
  }

  /** The first section holds the segment record; the last one holds nothing. */
  ghost predicate EndsOk(s: Units) {
    |s| > 0 && s[0].reqSize == SEGMENT_SIZE && s[|s| - 1].reqSize == 0
  }

  lemma CarvedEnds(s: Units, ch: seq<nat>, i: nat, num: nat, size: nat, s': Units)
    requires ChainOk(s, ch) && EndsOk(s) && i < |ch| - 1 && 0 < num <= s[ch[i]].freeNum &&
             NextSec(s, ch[i]) == ch[i + 1] < |s|
    requires ch[i] < ch[i + 1] - num && SamePhysical(Carved(s, ch[i], num, size), s')
    ensures EndsOk(s')
  {
    CarvedSizes(s, ch[i], num, size);
  }

  lemma MergedEnds(s: Units, ch: seq<nat>, i: nat, s': Units)
    requires 1 <= i < |ch| - 1 && FreeWrites(s, ch, i, s') && EndsOk(s)
    ensures EndsOk(s')
  {
    MergedReads(s, ch, i);
  }

  /** Every member of the list has free space: no free was ever used up exactly. */
  ghost predicate Clean(s: Units, free: seq<nat>) {
    forall x :: x in free ==> x < |s| && s[x].freeNum > 0
  }

  /** From a clean state, allocation stays clean exactly when the best fit is not an exact fit. */
  lemma AllocClean(s: Units, ch: seq<nat>, free: seq<nat>, i: nat, size: nat, s': Units, ch': seq<nat>, r: nat,
                   free': seq<nat>)
    requires ChainOk(s, ch) && ListOk(s, ch, free) && Clean(s, free) && Allocated(s, ch, i, size, s', ch', r)
    requires forall y :: y in free' <==> y in free
    ensures Clean(s', free') <==> s[ch[i]].freeNum != CalcNum(size)
  {
    CarvedChain(s, ch, i, CalcNum(size), size);
    CarvedFreeReads(s, ch, i, CalcNum(size), size, s');
    RingOf(s, ch, free);
    assert ch[i] in ch && ch[i] in free;
  }

  /** Some section has exactly the units that are asked for. */
  ghost predicate HasExact(s: Units, ch: seq<nat>, num: nat) {
    exists x :: x in ch && x < |s| && s[x].freeNum == num
  }

  /** The sections are those from before and r. */
  ghost predicate NewBlock(ch: seq<nat>, ch': seq<nat>, r: nat) {
    r !in ch && forall x :: x in ch' <==> x in ch || x == r
  }

  /** What a client sees of an allocation: one more section, and a clean list unless some section was an exact fit. */
  lemma AllocSeen(s: Units, ch: seq<nat>, free: seq<nat>, i: nat, size: nat, s': Units, ch': seq<nat>, r: nat,
                  free': seq<nat>)
    requires ChainOk(s, ch) && ListOk(s, ch, free) && Allocated(s, ch, i, size, s', ch', r)
    requires forall y :: y in free' <==> y in free
    ensures NewBlock(ch, ch', r)
    ensures Clean(s, free) ==> (Clean(s', free') <==> !HasExact(s, ch, CalcNum(size)))
  {
    hide ListOk, Clean, CalcNum;
    CarvedChain(s, ch, i, CalcNum(size), size);
    WithMembers(ch, i + 1, r);
    assert ch[i] in ch;
    if Clean(s, free) {
      AllocClean(s, ch, free, i, size, s', ch', r, free');
    }
  }

  lemma WithMembers(ch: seq<nat>, i: nat, r: nat)
    requires i <= |ch|
    ensures forall x :: x in With(ch, i, r) <==> x in ch || x == r
  {
    assert ch == ch[..i] + ch[i..];
  }

  lemma CleanIsSafe(s: Units, ch: seq<nat>, free: seq<nat>, i: nat)
    requires ChainOk(s, ch) && Clean(s, free) && 1 <= i < |ch| - 1
    ensures FreeSafe(s, free, ch[i], ch[i - 1])
  {
  }

  lemma FreeClean(s: Units, ch: seq<nat>, free: seq<nat>, i: nat, s': Units, free': seq<nat>)
    requires ChainOk(s, ch) && Clean(s, free) && 1 <= i < |ch| - 1 && FreeWrites(s, ch, i, s')
    requires SameSet(free', free, ch[i], ch[i - 1])
    ensures Clean(s', free')
  {
    FreeWritesReads(s, ch, i, s');
  }

  // ---------- creation ----------

  const MAX_TOTAL := 0x7fff_ffff
  const WORD := 0x1_0000_0000_0000_0000

  function AlignedUp(base: nat): nat {
    (base + (SECTION_SIZE - 1)) / SECTION_SIZE * SECTION_SIZE
  }

  /** Number of units of a segment in the given memory, or -1; the byte count is computed in 64 bits. */
  function AlignSection(base: nat, size: nat): (total: int)
    requires size < WORD
    ensures total == -1 || SEG_NUM + 1 <= total <= MAX_TOTAL
    ensures total > 0 <==>
            (SEG_NUM + 1) * SECTION_SIZE <= base + size - AlignedUp(base) < (MAX_TOTAL + 1) * SECTION_SIZE
    ensures total > 0 ==> total * SECTION_SIZE <= base + size - AlignedUp(base) < (total + 1) * SECTION_SIZE
  {
    var pad := AlignedUp(base) - base;
    assert 0 <= pad < SECTION_SIZE;
    assert (size - pad) % WORD == if size < pad then size - pad + WORD else size - pad;
    var total := ((size - pad) % WORD) / SECTION_SIZE;
    if total > MAX_TOTAL then -1
    else if total < SEG_NUM + 1 then -1
    else total
  }

  ghost function FirstSection(total: int): Section {
    Section(0, SEG_NUM, total - (SEG_NUM + 1), SEGMENT_SIZE, total - 1, total - 1, "")
  }

  ghost function LastSection(total: int): Section {
    Section(1 - total, 0, 0, 0, 1 - total, 1 - total, "")
  }

  lemma PairTotal(f: Section -> int, s: Units, total: nat)
    requires total >= 2 && |s| == total
    ensures Total(f, s, [0, total - 1]) == f(s[0]) + f(s[total - 1])
  {
    var l: seq<nat> := [0];
    assert [0, total - 1][..1] == l && l[..0] == [];
    assert Total(f, s, l) == f(s[0]);
  }

  lemma CreatedOk(s: Units, total: nat)
    requires total >= SEG_NUM + 1 && |s| == total && s[0] == FirstSection(total) && s[total - 1] == LastSection(total)
    ensures ChainOk(s, [0, total - 1]) && ListOk(s, [0, total - 1], [0]) && NamesOk(s, [0, total - 1]) && EndsOk(s)
    ensures Total(UsedOf, s, [0, total - 1]) == SEG_NUM && Total(ReqOf, s, [0, total - 1]) == SEGMENT_SIZE
    ensures Clean(s, [0]) <==> total > SEG_NUM + 1
  {
    var ch, l: seq<nat> := [0, total - 1], [0];
    PairTotal(UsedOf, s, total);
    PairTotal(ReqOf, s, total);
    assert UsedOf(s[0]) == SEG_NUM && ReqOf(s[0]) == SEGMENT_SIZE;
    assert Clean(s, [0]) <==> s[0].freeNum > 0 by {
      assert 0 in l;
    }
  }

  /** A segment without user sections is the segment as created. */
  lemma EmptySegment(s: Units, ch: seq<nat>, free: seq<nat>)
    requires ChainOk(s, ch) && ListOk(s, ch, free) && NamesOk(s, ch) && EndsOk(s) && |s| > SEG_NUM + 1
    requires forall x :: x in ch ==> x == 0 || x == |s| - 1
    ensures ch == [0, |s| - 1] && free == [0] && s[0] == FirstSection(|s|) && s[|s| - 1] == LastSection(|s|)
  {
    var last := |s| - 1;
    ChainNoDup(s, ch);
    assert forall i :: 0 <= i < |ch| ==> ch[i] in ch;
    assert ch[1] == last && ch[|ch| - 1] == last;
    assert NextSec(s, ch[0]) == ch[1] && PrevSec(s, ch[1]) == ch[0];
    RingOf(s, ch, free);
    assert ch[0] in ch && 0 in free;
    var k := IndexOf(free, 0);
    assert free[0] in free && free[|free| - 1] in free;
    assert free[0] == free[|free| - 1];
    WalkStep(s, free, last, 0);
    WalkStep(s, free, last, 1);
    BackStep(s, free, last, 1);
    BackStep(s, free, last, 2);
  }

  // ---------- payloads ----------

  /** Payload units of section x. */
  ghost predicate InPayload(s: Units, x: nat, u: int)
    requires x < |s|
  {
    x + 1 <= u < x + s[x].usedNum
  }

  /** Every payload is large enough, shares no unit with another one, and contains no header. */
  lemma PayloadsApart(s: Units, ch: seq<nat>, i: nat, j: nat)
    requires ChainOk(s, ch) && i < |ch| - 1 && j < |ch|
    ensures (s[ch[i]].usedNum - 1) * SECTION_SIZE >= s[ch[i]].reqSize
    ensures !InPayload(s, ch[i], ch[j])
    ensures forall u :: InPayload(s, ch[i], u) ==> u < |s| - 1 && (i != j ==> !InPayload(s, ch[j], u))
  {
    if i < j {
      Ascending(s, ch, i, j);
    } else if j < i {
      Ascending(s, ch, j, i);
    }
    Ascending(s, ch, i, |ch| - 1);
  }

  /** Writing anything into units that are no headers does not disturb the segment. */
  lemma UserWrites(s: Units, s': Units, ch: seq<nat>, free: seq<nat>)
    requires ChainOk(s, ch) && ListOk(s, ch, free) && NamesOk(s, ch) && EndsOk(s) && |s'| == |s|
    requires forall x :: x in ch ==> x < |s| && s'[x] == s[x]
    ensures ChainOk(s', ch) && ListOk(s', ch, free) && NamesOk(s', ch) && EndsOk(s')
    ensures Total(UsedOf, s', ch) == Total(UsedOf, s, ch) && Total(ReqOf, s', ch) == Total(ReqOf, s, ch)
  {
    hide ListOk, RingOk;
    RingOf(s, ch, free);
    AnchorHeader(s, ch);
    assert forall i :: 0 <= i < |ch| ==> ch[i] in ch;
    RingFrame(s, s', free, |s| - 1);
    SortedFrame(s, s', free);
    MakeList(s', ch, free);
    TotalFrame(UsedOf, s, s', ch);
    TotalFrame(ReqOf, s, s', ch);
    UserChain(s, s', ch);
  }

  lemma UserChain(s: Units, s': Units, ch: seq<nat>)
    requires ChainOk(s, ch) && |s'| == |s| && forall i :: 0 <= i < |ch| ==> s'[ch[i]] == s[ch[i]]
    ensures ChainOk(s', ch)
  {
    forall i | 0 <= i < |ch| - 1 ensures NextSec(s', ch[i]) == ch[i + 1] {
      assert NextSec(s, ch[i]) == ch[i + 1];
    }
    forall i | 1 <= i < |ch| ensures PrevSec(s', ch[i]) == ch[i - 1] {
      assert PrevSec(s, ch[i]) == ch[i - 1];
    }
  }

  // ---------- names ----------

  const NAME_SIZE := 32

  /** The named blocks: each live name with the address of its payload. */
  ghost function NameMap(s: Units, ch: seq<nat>): map<string, nat>
    requires NamesOk(s, ch)
  {
    NamesUnique(s, ch);
    map x | x in ch && s[x].name != "" :: s[x].name := x + 1
  }

  lemma NamesUnique(s: Units, ch: seq<nat>)
    requires NamesOk(s, ch)
    ensures forall x, y :: x in ch && y in ch && s[x].name != "" && s[x].name == s[y].name ==> x == y
  {
  }

  /** The entries of the map are exactly the live named sections. */
  lemma MapEntry(s: Units, ch: seq<nat>, n: string, a: nat)
    requires NamesOk(s, ch)
    ensures n in NameMap(s, ch) && NameMap(s, ch)[n] == a <==> n != "" && a >= 1 && a - 1 in ch && s[a - 1].name == n
  {
    NamesUnique(s, ch);
  }

  ghost predicate Entry(m: map<string, nat>, n: string, a: nat) {
    n in m && m[n] == a
  }

  lemma SameEntries(m: map<string, nat>, m': map<string, nat>)
    requires forall n, a :: Entry(m, n, a) <==> Entry(m', n, a)
    ensures m == m'
  {
    forall n | n in m ensures n in m' && m'[n] == m[n] {
      assert Entry(m, n, m[n]);
    }
    forall n | n in m' ensures n in m {
      assert Entry(m', n, m'[n]);
    }
  }

  /** Naming a nameless section adds it to the map. */
  lemma NamedMap(s: Units, ch: seq<nat>, i: nat, name: string)
    requires NamesOk(s, ch) && 1 <= i < |ch| - 1 && NoDup(ch) && s[ch[i]].name == "" && name != "" &&
             name !in NameMap(s, ch)
    ensures var s' := s[ch[i] := s[ch[i]].(name := name)];
      NamesOk(s', ch) && NameMap(s', ch) == NameMap(s, ch)[name := ch[i] + 1]
  {
    hide NameMap, NamesOk, NoDup;
    NamedNames(s, ch, i, name);
    var s' := s[ch[i] := s[ch[i]].(name := name)];
    var m, m' := NameMap(s, ch)[name := ch[i] + 1], NameMap(s', ch);
    forall n, a ensures Entry(m, n, a) <==> Entry(m', n, a) {
      MapEntry(s, ch, n, a);
      MapEntry(s', ch, n, a);
      assert ch[i] in ch;
    }
    SameEntries(m, m');
  }

  lemma NamedNames(s: Units, ch: seq<nat>, i: nat, name: string)
    requires NamesOk(s, ch) && 1 <= i < |ch| - 1 && NoDup(ch) && s[ch[i]].name == "" && name != "" &&
             name !in NameMap(s, ch)
    ensures ch[i] < |s| && (forall x :: x in ch ==> x < |s|) && NamesOk(s[ch[i] := s[ch[i]].(name := name)], ch)
  {
    hide NameMap;
    forall j | 0 <= j < |ch| ensures s[ch[j]].name != name {
      if s[ch[j]].name == name {
        assert ch[j] in ch;
        InMap(s, ch, ch[j]);
      }
    }
  }

  lemma AllocNames(s: Units, ch: seq<nat>, i: nat, size: nat, s': Units, ch': seq<nat>, r: nat)
    requires ChainOk(s, ch) && NamesOk(s, ch) && NamesOk(s', ch') && Allocated(s, ch, i, size, s', ch', r)
    ensures NameMap(s', ch') == NameMap(s, ch) && 1 <= i + 1 < |ch'| - 1 && ch'[i + 1] == r < |s'| && s'[r].name == ""
  {
    hide NameMap, NamesOk, ChainOk, SamePhysical;
    CarvedChain(s, ch, i, CalcNum(size), size);
    NamesKept(s, ch, i, CalcNum(size), size, s');
    ChainNoDup(s, ch);
    WithNoDup(ch, i + 1, r);
    forall n, a ensures Entry(NameMap(s, ch), n, a) <==> Entry(NameMap(s', ch'), n, a) {
      MapEntry(s, ch, n, a);
      MapEntry(s', ch', n, a);
    }
    SameEntries(NameMap(s, ch), NameMap(s', ch'));
  }

  lemma FreeNames(s: Units, ch: seq<nat>, i: nat, s': Units)
    requires ChainOk(s, ch) && NamesOk(s, ch) && 1 <= i < |ch| - 1 && FreeWrites(s, ch, i, s') &&
             NamesOk(s', Without(ch, i))
    ensures ch[i] < |s| && NameMap(s', Without(ch, i)) == NameMap(s, ch) - {s[ch[i]].name}
  {
    hide NameMap, NamesOk, FreeWrites, Without, MergedFree, ChainOk, NoDup;
    FreeWritesReads(s, ch, i, s');
    InRange(s, ch);
    ChainNoDup(s, ch);
    WithoutNoDup(ch, i);
    NamesUnique(s, ch);
    assert ch[i] in ch;
    var m, m' := NameMap(s, ch) - {s[ch[i]].name}, NameMap(s', Without(ch, i));
    forall n, a ensures Entry(m, n, a) <==> Entry(m', n, a) {
      MapEntry(s, ch, n, a);
      MapEntry(s', Without(ch, i), n, a);
      FreeSizes(s, ch, i, s');
    }
    SameEntries(m, m');
  }

  lemma FreeSizes(s: Units, ch: seq<nat>, i: nat, s': Units)
    requires 1 <= i < |ch| - 1 && FreeWrites(s, ch, i, s')
    ensures |s'| == |s| && forall x :: x in ch ==> x < |s|
  {
  }

  lemma InMap(s: Units, ch: seq<nat>, x: nat)
    requires NamesOk(s, ch) && x in ch && s[x].name != ""
    ensures s[x].name in NameMap(s, ch) && NameMap(s, ch)[s[x].name] == x + 1
  {
    NamesUnique(s, ch);
  }

  lemma NotMapped(s: Units, ch: seq<nat>, k: nat, name: string)
    requires ChainOk(s, ch) && NamesOk(s, ch) && k < |ch| && ch[k] == 0 && name != ""
    requires forall j :: k < j < |ch| ==> s[ch[j]].name != name
    ensures name !in NameMap(s, ch)
  {
    ChainNoDup(s, ch);
  }

  lemma NoEmptyName(s: Units, ch: seq<nat>)
    requires NamesOk(s, ch)
    ensures "" !in NameMap(s, ch)
  {
  }

  lemma NamedIndex(s: Units, ch: seq<nat>, x: nat, name: string) returns (i: nat)
    requires NamesOk(s, ch) && x in ch && name != "" && name in NameMap(s, ch) && NameMap(s, ch)[name] == x + 1
    ensures 1 <= i < |ch| - 1 && ch[i] == x && s[x].name == name
  {
    i := IndexOf(ch, x);
  }

  /** Writing a name touches no link, size or counter. */
  lemma NamingKeeps(s: Units, ch: seq<nat>, free: seq<nat>, x: nat, name: string)
    requires ChainOk(s, ch) && ListOk(s, ch, free) && EndsOk(s) && x < |s|
    ensures var s' := s[x := s[x].(name := name)];
      && ChainOk(s', ch) && ListOk(s', ch, free) && EndsOk(s')
      && Total(UsedOf, s', ch) == Total(UsedOf, s, ch) && Total(ReqOf, s', ch) == Total(ReqOf, s, ch)
  {
    hide ListOk, RingOk, ChainOk, Total, SortedFree, SamePhysical;
    var s' := s[x := s[x].(name := name)];
    RingOf(s, ch, free);
    RingFrame(s, s', free, |s| - 1);
    SortedRange(s, free);
    SortedFrame(s, s', free);
    MakeList(s', ch, free);
    InRange(s, ch);
    TotalFrame(UsedOf, s, s', ch);
    TotalFrame(ReqOf, s, s', ch);
    SizesChain(s, s', ch);
  }

  lemma SizesChain(s: Units, s': Units, ch: seq<nat>)
    requires ChainOk(s, ch) && |s'| == |s|
    requires forall x :: 0 <= x < |s| ==>
             s'[x].prevRel == s[x].prevRel && s'[x].usedNum == s[x].usedNum && s'[x].freeNum == s[x].freeNum &&
             s'[x].reqSize == s[x].reqSize
    ensures ChainOk(s', ch)
  {
    forall i | 0 <= i < |ch| - 1 ensures NextSec(s', ch[i]) == ch[i + 1] {
      assert NextSec(s, ch[i]) == ch[i + 1];
    }
    forall i | 1 <= i < |ch| ensures PrevSec(s', ch[i]) == ch[i - 1] {
      assert PrevSec(s, ch[i]) == ch[i - 1];
    }
  }

  lemma UserIndex(s: Units, ch: seq<nat>, x: nat) returns (i: nat)
    requires ChainOk(s, ch) && x in ch && x != 0 && x != |s| - 1
    ensures 1 <= i < |ch| - 1 && ch[i] == x
  {
    i := IndexOf(ch, x);
  }

  /** The sections in us are exactly the user sections of the chain. */
  ghost predicate UserSections(us: seq<nat>, ch: seq<nat>, last: nat) {
    forall x :: x in us <==> x in ch && x != 0 && x != last
  }

  lemma OrderTail(order: seq<nat>, k: nat, ch: seq<nat>, ch': seq<nat>, last: nat)
    requires NoDup(order) && k < |order| && UserSections(order[k..], ch, last)
    requires forall x :: x in ch' <==> x in ch && x != order[k]
    ensures UserSections(order[k + 1..], ch', last)
  {
    var rest := order[k + 1..];
    assert order[k..] == [order[k]] + rest;
    assert forall j :: 0 <= j < |rest| ==> rest[j] == order[k + 1 + j];
    forall x ensures x in rest <==> x in ch' && x != 0 && x != last {
      assert x in order[k..] <==> x == order[k] || x in rest;
    }
  }

  class DmmSegment {
    /** The units of the segment, the first section at 0 and the last at totalNum - 1. */
    var sec: Units
    var totalNum: nat
    var usedNum: int
    var secNum: int
    var usedSize: int
    ghost var chain: seq<nat>
    ghost var free: seq<nat>

    ghost predicate Valid()
      reads this
    {
      && |sec| == totalNum && ChainOk(sec, chain) && ListOk(sec, chain, free) && NamesOk(sec, chain)
      && usedNum == Total(UsedOf, sec, chain) && usedSize == Total(ReqOf, sec, chain) && secNum == |chain|
      && EndsOk(sec)
    }

    /** Lays out a new segment in size bytes at base. */
    constructor Create(base: nat, size: nat, units: Units)
      requires size < WORD && AlignSection(base, size) > 0 && |units| == AlignSection(base, size)
      ensures Valid() && totalNum == AlignSection(base, size) && chain == [0, totalNum - 1] && free == [0]
      ensures sec[0] == FirstSection(totalNum) && sec[totalNum - 1] == LastSection(totalNum)
      ensures forall x :: 0 < x < totalNum - 1 ==> sec[x] == units[x]
      ensures Clean(sec, free) <==> totalNum > SEG_NUM + 1
    {
      var total := AlignSection(base, size);
      var first, last := 0, total - 1;
      var s := units;
      s := s[first := Section(0, SEG_NUM, total - (SEG_NUM + 1), SEGMENT_SIZE,
                              SecRel(first, last), SecRel(first, last), "")];
      s := s[last := Section(SecRel(last, first), 0, 0, 0, SecRel(last, first), SecRel(last, first), "")];
      CreatedOk(s, total);
      sec := s;
      totalNum := total;
      secNum := 2;
      usedSize := SEGMENT_SIZE;
      usedNum := s[first].usedNum;
      chain := [0, total - 1];
      free := [0];
    }

    /** Walks the free list to the first section with num free units. */
    method FindFit(num: nat) returns (r: Option<nat>, ghost k: nat)
      requires |sec| == totalNum && ListOk(sec, chain, free)
      ensures r.None? ==> forall x :: x in free ==> sec[x].freeNum < num
      ensures r.Some? ==> k < |free| && r.value == free[k] && num <= sec[free[k]].freeNum
      ensures r.Some? ==> forall j :: 0 <= j < k ==> sec[free[j]].freeNum < num
    {
      var last := totalNum - 1;
      var pos := last;
      k := 0;
      while true
        invariant 0 <= k <= |free| && pos == At(free, last, k)
        invariant forall j :: 0 <= j < k ==> sec[free[j]].freeNum < num
        decreases |free| - k
      {
        assert MoreSec(sec, At(free, last, k)) == At(free, last, k + 1);
        pos := MoreSec(sec, pos);
        if pos == last {
          return None, k;
        }
        if num <= sec[pos].freeNum {
          return Some(pos), k;
        }
        k := k + 1;
      }
    }

    /** Allocates size bytes; the section is carved from the tail of a best fit. */
    method MemAlloc(size: nat) returns (r: Option<nat>, ghost i: nat)
      requires Valid()
      modifies this
      ensures Valid()
      ensures r.None? <==> forall x :: x in old(chain) ==> old(sec)[x].freeNum < CalcNum(size)
      ensures r.None? ==> sec == old(sec) && chain == old(chain) && free == old(free)
      ensures r.None? ==> usedNum == old(usedNum) && usedSize == old(usedSize) && secNum == old(secNum)
      ensures r.Some? ==> Allocated(old(sec), old(chain), i, size, sec, chain, r.value)
      ensures totalNum == old(totalNum) && forall y :: y in free <==> y in old(free)
      ensures r.Some? ==> NewBlock(old(chain), chain, r.value)
      ensures r.Some? && old(Clean(sec, free)) ==>
              (Clean(sec, free) <==> !HasExact(old(sec), old(chain), CalcNum(size)))
    {
      hide Clean, HasExact, NewBlock, ChainOk, ListOk, NamesOk, RingOk, SortedFree, Total, With, Without, SamePhysical,
           CarvedFree, At, CalcNum, Carved, Inserted, NextSec, Allocated;
      var num := CalcNum(size);
      i := 0;
      if num > totalNum - usedNum {
        NoRoom(sec, chain, num);
        return None, i;
      }
      ghost var k;
      var fit;
      fit, k := FindFit(num);
      if fit.None? {
        NoFit(sec, chain, free, num);
        return None, i;
      }
      var pos := fit.value;
      ghost var s0, ch0, s2, j := sec, chain, sec, 0;
      i := HeaderIndex(sec, chain, free, k);
      BestFit(sec, chain, free, k, num);
      var cell;
      var less;
      cell, less := Carve(pos, num, size, i, k);
      s2 := sec;
      j := ListDown(pos, less, Without(free, k), k);
      AllocDone(s0, ch0, free, i, k, num, size, s2, j);
      AllocatedIntro(s0, ch0, i, size, sec, cell);
      SameMembers(s0, ch0, free, k, j);
      AllocSeen(s0, ch0, free, i, size, sec, With(ch0, i + 1, cell), cell, With(Without(free, k), j, pos));
      CarvedEnds(s0, ch0, i, num, size, sec);
      usedSize := usedSize + size;
      usedNum := usedNum + num;
      secNum := secNum + 1;
      chain := With(ch0, i + 1, cell);
      free := With(Without(free, k), j, pos);
      return Some(cell), i;
    }

    /** Carves the new section off the tail of pos and takes pos out of the free list. */
    method Carve(pos: nat, num: nat, size: nat, ghost i: nat, ghost k: nat) returns (cell: nat, less: nat)
      requires |sec| == totalNum && ChainOk(sec, chain) && ListOk(sec, chain, free)
      requires i < |chain| - 1 && k < |free| && free[k] == chain[i] == pos && num == CalcNum(size) <= sec[pos].freeNum
      modifies this`sec
      ensures |sec| == totalNum && NextSec(old(sec), pos) == chain[i + 1] < totalNum && pos < cell == chain[i + 1] - num
      ensures cell !in chain && ChainOk(Carved(old(sec), pos, num, size), With(chain, i + 1, cell))
      ensures SamePhysical(Carved(old(sec), pos, num, size), sec) && CarvedFree(old(sec), sec, chain, pos, cell, num)
      ensures RingOk(sec, Without(free, k), totalNum - 1) && SortedFree(sec, Without(free, k)) &&
              less == At(Without(free, k), totalNum - 1, k)
    {
      hide ChainOk, ListOk, RingOk, SortedFree, With, Without, SamePhysical, CarvedFree, At;
      ghost var last := totalNum - 1;
      CarvedChain(sec, chain, i, num, size);
      CarvedList(sec, chain, free, i, k, num, size);
      TakenList(sec, chain, free, i, k, num, size, At(free, last, k), At(free, last, k + 2));
      WithoutAt(free, last, k, k);
      var next := NextSec(sec, pos);
      sec := sec[next := sec[next].(prevRel := 0 - num)];
      cell := PrevSec(sec, next);
      sec := sec[cell := Section(SecRel(cell, pos), num, 0, size, 0, 0, "")];
      sec := sec[pos := sec[pos].(freeNum := sec[pos].freeNum - num)];
      less := LessSec(sec, pos);
      var more := MoreSec(sec, pos);
      sec := SetMore(sec, less, more);
      sec := SetLess(sec, more, less);
      sec := sec[pos := sec[pos].(moreRel := 0, lessRel := 0)];
    }

    /** Searches down from less for the place of pos by free space and links it there. */
    method ListDown(pos: nat, less0: nat, ghost f: seq<nat>, ghost k: nat) returns (ghost j: nat)
      requires |sec| == totalNum && totalNum > 0 && pos < totalNum
      requires RingOk(sec, f, totalNum - 1) && SortedFree(sec, f) && k <= |f| && less0 == At(f, totalNum - 1, k)
      modifies this`sec
      ensures j <= k && At(f, totalNum - 1, j) < totalNum && At(f, totalNum - 1, j + 1) < totalNum
      ensures sec == Inserted(old(sec), At(f, totalNum - 1, j), pos, At(f, totalNum - 1, j + 1))
      ensures j > 0 ==> old(sec)[f[j - 1]].freeNum <= old(sec)[pos].freeNum
      ensures j < k ==> old(sec)[pos].freeNum <= old(sec)[f[j]].freeNum
    {
      var last := totalNum - 1;
      var less := less0;
      j := k;
      while less != last
        invariant 0 <= j <= k && less == At(f, last, j) && sec == old(sec)
        invariant j < k ==> sec[pos].freeNum <= sec[f[j]].freeNum
        decreases j
      {
        if sec[pos].freeNum >= sec[less].freeNum {
          break;
        }
        assert LessSec(sec, At(f, last, j)) == At(f, last, j - 1);
        less := LessSec(sec, less);
        j := j - 1;
      }
      assert MoreSec(sec, At(f, last, j)) == At(f, last, j + 1);
      if j > 0 {
        assert f[j - 1] in f;
      }
      var more := MoreSec(sec, less);
      sec := SetMore(sec, less, pos);
      sec := SetLess(sec, more, pos);
      sec := SetMore(sec, pos, more);
      sec := SetLess(sec, pos, less);
    }

    /** Takes section x, unless it has no free space, out of the free list. */
    method Unlist(x: nat, ghost f: seq<nat>) returns (more: nat, ghost f': seq<nat>, ghost b: nat)
      requires |sec| == totalNum && totalNum > 0 && x < totalNum && RingOk(sec, f, totalNum - 1)
      requires sec[x].freeNum != 0 ==> x in f
      modifies this`sec
      ensures SamePhysical(old(sec), sec) && |sec| == totalNum && RingOk(sec, f', totalNum - 1)
      ensures old(sec)[x].freeNum == 0 ==> f' == f && b == 0
      ensures old(sec)[x].freeNum != 0 ==> b < |f| && f[b] == x && f' == Without(f, b)
      ensures more == At(f', totalNum - 1, b + 1) && b <= |f'|
    {
      hide RingOk, Without, SamePhysical, At;
      var last := totalNum - 1;
      Unchanged(sec);
      if sec[x].freeNum != 0 {
        b := UnlinkMember(sec, f, last, x);
        f' := Without(f, b);
        more := MoreSec(sec, x);
        var less := LessSec(sec, x);
        JoinedReads(sec, less, more);
        JoinedKeeps(sec, sec, less, more);
        sec := SetLess(sec, more, less);
        sec := SetMore(sec, less, more);
        WithoutAt(f, last, b, b + 1);
      } else {
        f', b := f, 0;
        FirstMember(sec, f, last);
        more := MoreSec(sec, last);
      }
    }

    /** Searches up from more for the place of pos by free space and links it there. */
    method ListUp(pos: nat, more0: nat, ghost f: seq<nat>, ghost b: nat) returns (ghost j: nat)
      requires |sec| == totalNum && totalNum > 0 && pos < totalNum
      requires RingOk(sec, f, totalNum - 1) && b <= |f| && more0 == At(f, totalNum - 1, b + 1)
      modifies this`sec
      ensures PlaceUp(old(sec), f, b, j, pos) && At(f, totalNum - 1, j) < totalNum &&
              At(f, totalNum - 1, j + 1) < totalNum
      ensures sec == Inserted(old(sec), At(f, totalNum - 1, j), pos, At(f, totalNum - 1, j + 1))
    {
      hide RingOk;
      var last := totalNum - 1;
      var more := more0;
      j := b;
      RingNoDup(sec, f, last);
      while more != last
        invariant b <= j <= |f| && more == At(f, last, j + 1) && sec == old(sec)
        invariant forall m :: b <= m < j ==> sec[f[m]].freeNum < sec[pos].freeNum
        decreases |f| - j
      {
        if sec[pos].freeNum <= sec[more].freeNum {
          break;
        }
        WalkStep(sec, f, last, j + 1);
        more := MoreSec(sec, more);
        j := j + 1;
      }
      MemberSize(sec, f, last, j);
      BackStep(sec, f, last, j + 1);
      var less := LessSec(sec, more);
      sec := SetMore(sec, less, pos);
      sec := SetLess(sec, more, pos);
      sec := SetMore(sec, pos, more);
      sec := SetLess(sec, pos, less);
    }

    /**
     Frees section x, the i-th of the chain: its units go to its predecessor. Chain,
     names and counters stay right; the free list does if and only if the free is safe.
     */
    method MemFree(x: nat, ghost i: nat)
      requires Valid() && 1 <= i < |chain| - 1 && chain[i] == x
      modifies this
      ensures |sec| == totalNum == old(totalNum) && chain == Without(old(chain), i)
      ensures FreeWrites(old(sec), old(chain), i, sec)
      ensures ChainOk(sec, chain) && NamesOk(sec, chain)
      ensures usedNum == Total(UsedOf, sec, chain) && usedSize == Total(ReqOf, sec, chain) && secNum == |chain|
      ensures FreeSafe(old(sec), old(free), x, old(chain)[i - 1]) ==>
              Valid() && SameSet(free, old(free), x, old(chain)[i - 1])
      ensures !FreeSafe(old(sec), old(free), x, old(chain)[i - 1]) ==> forall g :: !ListOk(sec, chain, g)
      ensures var prev := old(chain)[i - 1]; prev in old(free) && old(sec)[prev].freeNum == 0 ==>
              MoreSec(sec, prev) == prev
    {
      hide ChainOk, ListOk, NamesOk, RingOk, SortedFree, Total, With, Without, SamePhysical, At, Inserted, PlaceUp,
           Unlisted, FreeWrites, FreeSafe;
      ghost var s0, ch0 := sec, chain;
      FreeStart(sec, chain, free, i);
      var num := sec[x].usedNum + sec[x].freeNum;
      var next, prev := NextSec(sec, x), PrevSec(sec, x);
      sec := sec[next := sec[next].(prevRel := SecRel(next, prev))];
      ghost var s1 := sec;
      var more;
      ghost var f1, f2, a, b, j;
      more, f1, a := Unlist(x, free);
      StillListed(s0, ch0, free, i, s1, sec, f1, a);
      ghost var s2 := sec;
      more, f2, b := Unlist(prev, f1);
      ghost var s3 := sec;
      sec := sec[prev := sec[prev].(freeNum := sec[prev].freeNum + num)];
      ghost var s4 := sec;
      FreeMiddle(s0, ch0, free, i, s1, s2, s3, s4, f1, a, f2, b);
      j := ListUp(prev, more, f2, b);
      FreeEnd(s0, ch0, free, i, s4, f2, b, j);
      MergedEnds(s0, ch0, i, sec);

      usedSize := usedSize - sec[x].reqSize;
      usedNum := usedNum - sec[x].usedNum;
      secNum := secNum - 1;
      chain := Without(ch0, i);
      free := With(f2, j, prev);
    }

    /** Looks for a live section by name, from the last section down to the first. */
    method MemLookup(name: string) returns (r: Option<nat>)
      requires Valid() && name != ""
      ensures r.Some? ==> name in NameMap(sec, chain) && NameMap(sec, chain)[name] == r.value + 1 && r.value in chain
      ensures r.None? ==> name !in NameMap(sec, chain)
    {
      hide ListOk, Total, NameMap;
      var x: nat := totalNum - 1;
      ghost var k := |chain| - 1;
      while x != 0
        invariant 0 <= k < |chain| && x == chain[k]
        invariant forall j :: k < j < |chain| ==> sec[chain[j]].name != name
        decreases k
      {
        if sec[x].name != "" && sec[x].name == name {
          assert chain[k] in chain;
          InMap(sec, chain, x);
          return Some(x);
        }
        assert PrevSec(sec, chain[k]) == chain[k - 1];
        x := PrevSec(sec, x);
        k := k - 1;
      }
      NotMapped(sec, chain, k, name);
      return None;
    }

    /** Allocates a named block; fails if the name is bad or taken, or if there is no room. */
    method MemMap(size: nat, name: string) returns (mem: Option<nat>)
      requires Valid()
      modifies this
      ensures Valid() && totalNum == old(totalNum)
      ensures mem.Some? <==>
              0 < |name| < NAME_SIZE && name !in old(NameMap(sec, chain)) &&
              exists x :: x in old(chain) && old(sec)[x].freeNum >= CalcNum(size)
      ensures mem.Some? ==> NameMap(sec, chain) == old(NameMap(sec, chain))[name := mem.value]
      ensures mem.None? ==> sec == old(sec) && chain == old(chain) && free == old(free)
      ensures mem.Some? ==> mem.value > 0 && NewBlock(old(chain), chain, mem.value - 1)
      ensures mem.Some? && old(Clean(sec, free)) ==>
              (Clean(sec, free) <==> !HasExact(old(sec), old(chain), CalcNum(size)))
    {
      hide NewBlock, HasExact, ListOk, Total, NameMap, ChainOk, NamesOk, Allocated, EndsOk, CalcNum;
      if name == "" || |name| >= NAME_SIZE {
        return None;
      }
      var x := MemLookup(name);
      if x.Some? {
        return None;
      }
      var r;
      ghost var i;
      ghost var s0, ch0 := sec, chain;
      r, i := MemAlloc(size);
      if r.None? {
        return None;
      }
      AllocNames(s0, ch0, i, size, sec, chain, r.value);
      ChainNoDup(sec, chain);
      NamedMap(sec, chain, i + 1, name);
      NamingKeeps(sec, chain, free, r.value, name);
      sec := sec[r.value := sec[r.value].(name := name)];
      mem := Some(r.value + 1);
    }

    /** Frees the block of the given name, if there is one. */
    method MemUnmap(name: string) returns (ok: bool)
      requires Valid()
      modifies this
      ensures |sec| == totalNum == old(totalNum) && ChainOk(sec, chain) && NamesOk(sec, chain)
      ensures ok <==> name in old(NameMap(sec, chain))
      ensures NameMap(sec, chain) == old(NameMap(sec, chain)) - {name}
      ensures !ok ==> Valid() && sec == old(sec) && chain == old(chain)
      ensures old(Clean(sec, free)) ==> Valid() && Clean(sec, free)
      ensures ok ==> forall x :: x in chain <==> x in old(chain) && x != old(NameMap(sec, chain))[name] - 1
      ensures ok ==> old(SafeToFree(sec, free, NameMap(sec, chain)[name] - 1)) ==> Valid()
    {
      hide ListOk, Total, NameMap, ChainOk, NamesOk, EndsOk, FreeWrites, FreeSafe, SafeToFree, Without, SameSet, Clean;
      NoEmptyName(sec, chain);
      if name == "" {
        return false;
      }
      var r := MemLookup(name);
      if r.None? {
        return false;
      }
      ghost var s0, ch0, f0 := sec, chain, free;
      ghost var i := NamedIndex(sec, chain, r.value, name);
      ChainNoDup(s0, ch0);
      WithoutNoDup(ch0, i);
      MemFree(r.value, i);
      FreeNames(s0, ch0, i, sec);
      SafeAt(s0, ch0, f0, i);
      if Clean(s0, f0) {
        CleanIsSafe(s0, ch0, f0, i);
        FreeClean(s0, ch0, f0, i, sec, free);
      }
      return true;
    }

    /** Frees every user section, in any order: the segment is as it was created. */
    method FreeAll(order: seq<nat>)
      requires Valid() && Clean(sec, free) && NoDup(order) && totalNum > SEG_NUM + 1
      requires UserSections(order, chain, totalNum - 1)
      modifies this
      ensures Valid() && totalNum == old(totalNum) && chain == [0, totalNum - 1] && free == [0]
      ensures sec[0] == FirstSection(totalNum) && sec[totalNum - 1] == LastSection(totalNum)
      ensures usedNum == SEG_NUM && usedSize == SEGMENT_SIZE && secNum == 2
    {
      hide ListOk, Total, ChainOk, NamesOk, EndsOk, FreeWrites, FreeSafe, Without, SameSet, Clean, NoDup;
      assert order[0..] == order;
      for k := 0 to |order|
        invariant Valid() && Clean(sec, free) && totalNum == old(totalNum)
        invariant UserSections(order[k..], chain, totalNum - 1)
      {
        ghost var s0, ch0, f0 := sec, chain, free;
        assert order[k] in order[k..];
        ghost var i := UserIndex(sec, chain, order[k]);
        CleanIsSafe(sec, chain, free, i);
        ChainNoDup(sec, chain);
        MemFree(order[k], i);
        FreeClean(s0, ch0, f0, i, sec, free);
        WithoutNoDup(ch0, i);
        OrderTail(order, k, ch0, chain, totalNum - 1);
      }
      assert order[|order|..] == [];
      EmptySegment(sec, chain, free);
      CreatedOk(sec, totalNum);
    }
  }

  /** dmm_seg_create: null exactly when the memory is too small or too large for a segment. */
  method CreateSegment(base: nat, size: nat, units: Units) returns (seg: DmmSegment?)
    requires size < WORD && (AlignSection(base, size) > 0 ==> |units| == AlignSection(base, size))
    ensures seg == null <==>
              !((SEG_NUM + 1) * SECTION_SIZE <= base + size - AlignedUp(base) < (MAX_TOTAL + 1) * SECTION_SIZE)
    ensures seg != null ==>
              && fresh(seg) && seg.Valid() && seg.totalNum == AlignSection(base, size)
              && seg.chain == [0, seg.totalNum - 1] && seg.free == [0]
              && (Clean(seg.sec, seg.free) <==> seg.totalNum > SEG_NUM + 1)
  {
    hide AlignedUp, ListOk, ChainOk, NamesOk, Total, EndsOk, Clean;
    if AlignSection(base, size) <= 0 {
      return null;
    }
    seg := new DmmSegment.Create(base, size, units);
  }

  /** After an exact fit in a fresh segment the first section is a used-up member of the list. */
  lemma ExactFit(s: Units, i: nat, size: nat, s': Units, ch': seq<nat>, r: nat)
    requires |s| > SEG_NUM + 1 && ChainOk(s, [0, |s| - 1]) && s[0].freeNum == CalcNum(size)
    requires Allocated(s, [0, |s| - 1], i, size, s', ch', r)
    ensures i == 0 && |ch'| == 3 && ch'[0] == 0 && ch'[1] == r && |s'| == |s| && s'[0].freeNum == 0
  {
    CarvedChain(s, [0, |s| - 1], i, CalcNum(size), size);
    CarvedFreeReads(s, [0, |s| - 1], i, CalcNum(size), size, s');
  }

  /**
   An exact fit followed by a free breaks the list of a fresh segment: the first
   section becomes its own successor and no well-formed list exists any more.
   */
  method ExactFitBreaks(base: nat, size: nat, units: Units, request: nat) returns (seg: DmmSegment)
    requires size < WORD && AlignSection(base, size) == |units| > SEG_NUM + 1 &&
             CalcNum(request) == |units| - (SEG_NUM + 1)
    ensures |seg.sec| == |units| && MoreSec(seg.sec, 0) == 0 && forall g :: !ListOk(seg.sec, seg.chain, g)
  {
    hide ListOk, ChainOk, NamesOk, Total, Allocated, FreeWrites, Without, NameMap, EndsOk, Clean, SameSet;
    seg := new DmmSegment.Create(base, size, units);
    ghost var s0 := seg.sec;
    var r;
    ghost var i;
    assert 0 in seg.chain && 0 in seg.free;
    r, i := seg.MemAlloc(request);
    ExactFit(s0, i, request, seg.sec, seg.chain, r.value);
    seg.MemFree(r.value, 1);
  }
}
