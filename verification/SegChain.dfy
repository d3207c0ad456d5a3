/**
 The physical chain of sections: headers that tile the segment from the first
 section to the last, with sizes in 64-byte units.
 */
module SegChain {
  import opened Basics
  import opened SegRing

  const SECTION_SIZE := 64

  /** Size in bytes of the segment record, kept in the first section. */
  const SEGMENT_SIZE := 56

  const SEG_NUM := CalcNum(SEGMENT_SIZE)

  /** Units for a request: one header and the payload rounded up; an empty request gets one payload unit. */
  function CalcNum(size: nat): (num: nat)
    ensures num >= 2 && (num - 1) * SECTION_SIZE >= size
    ensures size > 0 ==> (num - 2) * SECTION_SIZE < size
  {
    if size != 0 then (size + (SECTION_SIZE - 1)) / SECTION_SIZE + 1 else 2
  }

  function NextSec(s: Units, x: nat): int
    requires x < |s|
  {
    x + (s[x].freeNum + s[x].usedNum)
  }

  function PrevSec(s: Units, x: nat): int
    requires x < |s|
  {
    x + s[x].prevRel
  }

  /**
   The headers ch tile the segment: the walk forwards by sizes and the walk
   backwards by prevRel visit the same sections, in opposite order.
   */
  ghost predicate ChainOk(s: Units, ch: seq<nat>) {
    && |ch| >= 2 && ch[0] == 0 && ch[|ch| - 1] == |s| - 1
    && (forall i :: 0 <= i < |ch| ==> ch[i] < |s|)
    && (forall i :: 0 <= i < |ch| - 1 ==> s[ch[i]].usedNum == CalcNum(s[ch[i]].reqSize) && s[ch[i]].freeNum >= 0)
    && (forall i {:trigger NextSec(s, ch[i])} :: 0 <= i < |ch| - 1 ==> NextSec(s, ch[i]) == ch[i + 1])
    && (forall i {:trigger PrevSec(s, ch[i])} :: 1 <= i < |ch| ==> PrevSec(s, ch[i]) == ch[i - 1])
    && s[0].prevRel == 0 && s[|s| - 1].usedNum == 0 && s[|s| - 1].freeNum == 0
  }

  /** Headers are in ascending order, each section's units before the next header. */
  lemma {:induction false} Ascending(s: Units, ch: seq<nat>, i: nat, j: nat)
    requires ChainOk(s, ch) && i < j < |ch|
    ensures ch[i] + s[ch[i]].usedNum + s[ch[i]].freeNum <= ch[j]
    decreases j
  {
    assert NextSec(s, ch[i]) == ch[i + 1];
    if i + 1 < j {
      Ascending(s, ch, i, j - 1);
      assert NextSec(s, ch[j - 1]) == ch[j];
    }
  }

  lemma ChainNoDup(s: Units, ch: seq<nat>)
    requires ChainOk(s, ch)
    ensures NoDup(ch)
  {
    forall i, j | 0 <= i < j < |ch| ensures ch[i] != ch[j] {
      Ascending(s, ch, i, j);
    }
  }

  // ---------- sums over sections ----------

  function UsedOf(x: Section): int { x.usedNum }
  function FreeOf(x: Section): int { x.freeNum }
  function ReqOf(x: Section): int { x.reqSize }

  ghost function Total(f: Section -> int, s: Units, ch: seq<nat>): int
    requires forall i :: 0 <= i < |ch| ==> ch[i] < |s|
  {
    if ch == [] then 0 else Total(f, s, ch[..|ch| - 1]) + f(s[ch[|ch| - 1]])
  }

  lemma {:induction false} TotalSplit(f: Section -> int, s: Units, a: seq<nat>, b: seq<nat>)
    requires forall i :: 0 <= i < |a| ==> a[i] < |s|
    requires forall i :: 0 <= i < |b| ==> b[i] < |s|
    ensures Total(f, s, a + b) == Total(f, s, a) + Total(f, s, b)
    decreases b
  {
    if b == [] {
      assert a + b == a;
    } else {
      assert (a + b)[..|a + b| - 1] == a + b[..|b| - 1];
      TotalSplit(f, s, a, b[..|b| - 1]);
    }
  }

  lemma {:induction false} TotalFrame(f: Section -> int, s: Units, s': Units, ch: seq<nat>)
    requires |s| == |s'| && (forall i :: 0 <= i < |ch| ==> ch[i] < |s|)
    requires forall i :: 0 <= i < |ch| ==> f(s[ch[i]]) == f(s'[ch[i]])
    ensures Total(f, s, ch) == Total(f, s', ch)
    decreases ch
  {
    if ch != [] {
      TotalFrame(f, s, s', ch[..|ch| - 1]);
    }
  }

  /** Up to any header, used and free units add up to the header's position. */
  lemma {:induction false} Tiled(s: Units, ch: seq<nat>, k: nat)
    requires ChainOk(s, ch) && k < |ch|
    ensures Total(UsedOf, s, ch[..k]) + Total(FreeOf, s, ch[..k]) == ch[k]
    decreases k
  {
    if k > 0 {
      Tiled(s, ch, k - 1);
      assert ch[..k][..k - 1] == ch[..k - 1];
      assert NextSec(s, ch[k - 1]) == ch[k];
    }
  }

  lemma {:induction false} TotalNat(s: Units, ch: seq<nat>, k: nat)
    requires ChainOk(s, ch) && k <= |ch|
    ensures Total(FreeOf, s, ch[..k]) >= 0
    ensures forall i :: 0 <= i < k ==> s[ch[i]].freeNum <= Total(FreeOf, s, ch[..k])
    decreases k
  {
    if k > 0 {
      TotalNat(s, ch, k - 1);
      assert ch[..k][..k - 1] == ch[..k - 1];
      if k == |ch| {
        assert s[ch[k - 1]].freeNum == 0;
      }
    }
  }

  /** Used and free units of all sections together are all units but the last header. */
  lemma AllTiled(s: Units, ch: seq<nat>)
    requires ChainOk(s, ch)
    ensures Total(UsedOf, s, ch) + Total(FreeOf, s, ch) == |s| - 1
    ensures forall i :: 0 <= i < |ch| ==> s[ch[i]].freeNum <= |s| - 1 - Total(UsedOf, s, ch)
  {
    Tiled(s, ch, |ch| - 1);
    TotalNat(s, ch, |ch|);
    assert ch[..|ch|] == ch;
  }

  // ---------- carving and merging ----------

  /** Writes to free-list links alone. */
  ghost predicate SamePhysical(s: Units, s': Units) {
    |s| == |s'| && forall i :: 0 <= i < |s| ==> s'[i] == s[i].(lessRel := s'[i].lessRel, moreRel := s'[i].moreRel)
  }

  lemma LinksKeepChain(s: Units, s': Units, ch: seq<nat>)
    requires ChainOk(s, ch) && SamePhysical(s, s')
    ensures ChainOk(s', ch)
    ensures Total(UsedOf, s', ch) == Total(UsedOf, s, ch) && Total(ReqOf, s', ch) == Total(ReqOf, s, ch)
  {
    TotalFrame(UsedOf, s, s', ch);
    TotalFrame(ReqOf, s, s', ch);
    assert forall i :: 0 <= i < |ch| ==>
           s'[ch[i]].usedNum == s[ch[i]].usedNum && s'[ch[i]].freeNum == s[ch[i]].freeNum &&
           s'[ch[i]].reqSize == s[ch[i]].reqSize;
    forall i | 0 <= i < |ch| - 1 ensures NextSec(s', ch[i]) == ch[i + 1] {
      assert NextSec(s, ch[i]) == ch[i + 1];
    }
    forall i | 1 <= i < |ch| ensures PrevSec(s', ch[i]) == ch[i - 1] {
      assert PrevSec(s, ch[i]) == ch[i - 1];
    }
  }

  /** A new section of num units at the tail of the free space of section pos. */
  function Carved(s: Units, pos: nat, num: nat, size: nat): (s': Units)
    requires pos < |s| && 0 < num <= NextSec(s, pos) < |s|
    ensures |s'| == |s|
  {
    var next := NextSec(s, pos);
    var sec := next - num;
    var s1 := s[next := s[next].(prevRel := 0 - num)];
    var s2 := s1[sec := Section(SecRel(sec, pos), num, 0, size, 0, 0, "")];
    s2[pos := s2[pos].(freeNum := s2[pos].freeNum - num)]
  }

  /** What carving changes: the header after, the new header and the free space of pos. */
  ghost predicate Carving(s: Units, s': Units, ch: seq<nat>, i: nat, num: nat)
    requires i + 1 < |ch|
  {
    var pos, next, sec := ch[i], ch[i + 1], ch[i + 1] - num;
    && |s'| == |s| && pos < sec < next < |s|
    && s'[sec].prevRel == pos - sec && s'[sec].usedNum == num == CalcNum(s'[sec].reqSize) && s'[sec].freeNum == 0
    && s'[pos] == s[pos].(freeNum := s[pos].freeNum - num)
    && s'[next] == s[next].(prevRel := 0 - num)
    && (forall x :: 0 <= x < |s| && x != pos && x != next && x != sec ==> s'[x] == s[x])
  }

  lemma CarvedNext(s: Units, s': Units, ch: seq<nat>, i: nat, num: nat, j: nat)
    requires ChainOk(s, ch) && i < |ch| - 1 && 2 <= num <= s[ch[i]].freeNum && Carving(s, s', ch, i, num)
    requires NoDup(ch) && ch[i + 1] - num !in ch && j < |ch|
    ensures var ch' := With(ch, i + 1, ch[i + 1] - num);
      ch'[j] < |s'| && NextSec(s', ch'[j]) == ch'[j + 1] && s'[ch'[j]].usedNum == CalcNum(s'[ch'[j]].reqSize) &&
        s'[ch'[j]].freeNum >= 0
  {
    var ch' := With(ch, i + 1, ch[i + 1] - num);
    if j <= i {
      assert ch'[j] == ch[j] && NextSec(s, ch[j]) == ch[j + 1];
      assert ch'[j + 1] == if j == i then ch[i + 1] - num else ch[j + 1];
    } else if j == i + 1 {
      assert ch'[j] == ch[i + 1] - num && ch'[j + 1] == ch[i + 1];
    } else {
      assert ch'[j] == ch[j - 1] && ch'[j + 1] == ch[j] && NextSec(s, ch[j - 1]) == ch[j];
    }
  }

  lemma CarvedPrev(s: Units, s': Units, ch: seq<nat>, i: nat, num: nat, j: nat)
    requires ChainOk(s, ch) && i < |ch| - 1 && 2 <= num <= s[ch[i]].freeNum && Carving(s, s', ch, i, num)
    requires NoDup(ch) && ch[i + 1] - num !in ch && 1 <= j <= |ch|
    ensures var ch' := With(ch, i + 1, ch[i + 1] - num);
      ch'[j] < |s'| && PrevSec(s', ch'[j]) == ch'[j - 1]
  {
    var ch' := With(ch, i + 1, ch[i + 1] - num);
    if j <= i {
      assert ch'[j] == ch[j] && ch'[j - 1] == ch[j - 1] && PrevSec(s, ch[j]) == ch[j - 1];
    } else if j == i + 1 {
      assert ch'[j] == ch[i + 1] - num && ch'[j - 1] == ch[i];
    } else {
      assert ch'[j] == ch[j - 1] && PrevSec(s, ch[j - 1]) == ch[j - 2];
      assert ch'[j - 1] == if j == i + 2 then ch[i + 1] - num else ch[j - 2];
    }
  }

  lemma CarvedChain(s: Units, ch: seq<nat>, i: nat, num: nat, size: nat)
    requires ChainOk(s, ch) && i < |ch| - 1 && num == CalcNum(size) <= s[ch[i]].freeNum
    ensures NextSec(s, ch[i]) == ch[i + 1] < |s| && ch[i] < ch[i + 1] - num < |s|
    ensures ch[i + 1] - num !in ch
    ensures ChainOk(Carved(s, ch[i], num, size), With(ch, i + 1, ch[i + 1] - num))
  {
    assert NextSec(s, ch[i]) == ch[i + 1];
    var s', ch' := Carved(s, ch[i], num, size), With(ch, i + 1, ch[i + 1] - num);
    ChainNoDup(s, ch);
    NotBetween(s, ch, i, ch[i + 1] - num);
    assert Carving(s, s', ch, i, num);
    assert ch'[0] == ch[0] && ch'[|ch|] == ch[|ch| - 1] && |ch'| == |ch| + 1;
    hide Carved, With, Carving, NoDup;
    forall j | 0 <= j < |ch'| - 1
      ensures ch'[j] < |s'| && NextSec(s', ch'[j]) == ch'[j + 1] && s'[ch'[j]].usedNum == CalcNum(s'[ch'[j]].reqSize) &&
              s'[ch'[j]].freeNum >= 0
    {
      CarvedNext(s, s', ch, i, num, j);
    }
    forall j | 1 <= j < |ch'| ensures ch'[j] < |s'| && PrevSec(s', ch'[j]) == ch'[j - 1] {
      CarvedPrev(s, s', ch, i, num, j);
    }
  }

  /** A unit strictly inside a section is no header. */
  lemma NotBetween(s: Units, ch: seq<nat>, i: nat, x: nat)
    requires ChainOk(s, ch) && i < |ch| - 1 && ch[i] < x < ch[i + 1]
    ensures x !in ch
  {
    forall j | 0 <= j < |ch| ensures ch[j] != x {
      if j < i {
        Ascending(s, ch, j, i);
      } else if j > i + 1 {
        Ascending(s, ch, i + 1, j);
      }
    }
  }

  lemma CarvedTotals(s: Units, ch: seq<nat>, i: nat, num: nat, size: nat)
    requires ChainOk(s, ch) && i < |ch| - 1 && 2 <= num <= s[ch[i]].freeNum
    requires ch[i + 1] - num > ch[i] && NextSec(s, ch[i]) == ch[i + 1] && ch[i + 1] - num !in ch
    ensures var s', ch' := Carved(s, ch[i], num, size), With(ch, i + 1, ch[i + 1] - num);
      && (forall j :: 0 <= j < |ch'| ==> ch'[j] < |s'|)
      && Total(UsedOf, s', ch') == Total(UsedOf, s, ch) + num
      && Total(ReqOf, s', ch') == Total(ReqOf, s, ch) + size
  {
    hide ChainOk, Total, CalcNum, Carved, With, NextSec;
    InRange(s, ch);
    CarvedSizes(s, ch[i], num, size);
    SplitTotals(UsedOf, s, Carved(s, ch[i], num, size), ch, i + 1, ch[i + 1] - num);
    SplitTotals(ReqOf, s, Carved(s, ch[i], num, size), ch, i + 1, ch[i + 1] - num);
    WithRange(ch, i + 1, ch[i + 1] - num, |s|);
  }

  lemma WithRange(f: seq<nat>, k: nat, x: nat, bound: nat)
    requires k <= |f| && x < bound && (forall i :: 0 <= i < |f| ==> f[i] < bound)
    ensures forall i :: 0 <= i <= |f| ==> With(f, k, x)[i] < bound
  {
  }

  lemma CarvedSizes(s: Units, pos: nat, num: nat, size: nat)
    requires pos < |s| && 0 < num <= NextSec(s, pos) < |s| && NextSec(s, pos) - num != pos
    ensures var s', sec := Carved(s, pos, num, size), NextSec(s, pos) - num;
      && (forall x :: 0 <= x < |s| && x != sec ==> s'[x].usedNum == s[x].usedNum && s'[x].reqSize == s[x].reqSize)
      && s'[sec].usedNum == num && s'[sec].reqSize == size
  {
  }

  lemma SplitTotals(f: Section -> int, s: Units, s': Units, ch: seq<nat>, k: nat, x: nat)
    requires k <= |ch| && |s| == |s'| && x < |s| && (forall i :: 0 <= i < |ch| ==> ch[i] < |s|)
    requires forall i :: 0 <= i < |ch| ==> f(s'[ch[i]]) == f(s[ch[i]])
    ensures Total(f, s', With(ch, k, x)) == Total(f, s, ch) + f(s'[x])
  {
    var a, b := ch[..k], ch[k..];
    assert ch == a + b;
    TotalSplit(f, s, a, b);
    TotalFrame(f, s, s', a);
    TotalFrame(f, s, s', b);
    TotalSplit(f, s', a + [x], b);
    TotalSplit(f, s', a, [x]);
    assert Total(f, s', [x]) == f(s'[x]) by {
      assert [x][..0] == [];
    }
  }

  /** Section sec given to the free space of its physical predecessor. */
  function Merged(s: Units, sec: nat): (s': Units)
    requires sec < |s| && 0 <= NextSec(s, sec) < |s| && 0 <= PrevSec(s, sec) < |s|
    ensures |s'| == |s|
  {
    var num := s[sec].usedNum + s[sec].freeNum;
    var next, prev := NextSec(s, sec), PrevSec(s, sec);
    var s1 := s[next := s[next].(prevRel := SecRel(next, prev))];
    s1[prev := s1[prev].(freeNum := s1[prev].freeNum + num)]
  }

  /** What merging changes: the header after and the free space of the header before. */
  ghost predicate Merging(s: Units, s': Units, ch: seq<nat>, i: nat)
    requires 1 <= i < |ch| - 1
  {
    var prev, sec, next := ch[i - 1], ch[i], ch[i + 1];
    && |s'| == |s| && prev < |s| && sec < |s| && next < |s|
    && s'[prev] == s[prev].(freeNum := s[prev].freeNum + s[sec].usedNum + s[sec].freeNum)
    && s'[next] == s[next].(prevRel := prev - next)
    && (forall x :: 0 <= x < |s| && x != prev && x != next ==> s'[x] == s[x])
  }

  lemma MergedNext(s: Units, s': Units, ch: seq<nat>, i: nat, j: nat)
    requires ChainOk(s, ch) && 1 <= i < |ch| - 1 && Merging(s, s', ch, i) && NoDup(ch) && j < |ch| - 2
    ensures var ch' := Without(ch, i);
      ch'[j] < |s'| && NextSec(s', ch'[j]) == ch'[j + 1] && s'[ch'[j]].usedNum == CalcNum(s'[ch'[j]].reqSize) &&
        s'[ch'[j]].freeNum >= 0
  {
    var ch' := Without(ch, i);
    assert NextSec(s, ch[i - 1]) == ch[i] && NextSec(s, ch[i]) == ch[i + 1];
    if j < i {
      assert ch'[j] == ch[j] && ch'[j + 1] == ch[if j + 1 < i then j + 1 else j + 2] && NextSec(s, ch[j]) == ch[j + 1];
    } else {
      assert ch'[j] == ch[j + 1] && ch'[j + 1] == ch[j + 2] && NextSec(s, ch[j + 1]) == ch[j + 2];
    }
  }

  lemma MergedPrev(s: Units, s': Units, ch: seq<nat>, i: nat, j: nat)
    requires ChainOk(s, ch) && 1 <= i < |ch| - 1 && Merging(s, s', ch, i) && NoDup(ch) && 1 <= j < |ch| - 1
    ensures var ch' := Without(ch, i); ch'[j] < |s'| && PrevSec(s', ch'[j]) == ch'[j - 1]
  {
    var ch' := Without(ch, i);
    if j < i {
      assert ch'[j] == ch[j] && ch'[j - 1] == ch[j - 1] && PrevSec(s, ch[j]) == ch[j - 1];
    } else {
      assert ch'[j] == ch[j + 1] && ch'[j - 1] == ch[if j == i then j - 1 else j] && PrevSec(s, ch[j + 1]) == ch[j];
    }
  }

  lemma MergedChain(s: Units, ch: seq<nat>, i: nat)
    requires ChainOk(s, ch) && 1 <= i < |ch| - 1
    ensures NextSec(s, ch[i]) == ch[i + 1] && PrevSec(s, ch[i]) == ch[i - 1]
    ensures ChainOk(Merged(s, ch[i]), Without(ch, i))
  {
    assert NextSec(s, ch[i]) == ch[i + 1] && PrevSec(s, ch[i]) == ch[i - 1];
    var s', ch' := Merged(s, ch[i]), Without(ch, i);
    ChainNoDup(s, ch);
    assert Merging(s, s', ch, i);
    assert ch'[0] == ch[0] && ch'[|ch| - 2] == ch[|ch| - 1] && |ch'| == |ch| - 1;
    Ascending(s, ch, 0, i);
    Ascending(s, ch, i - 1, |ch| - 1);
    assert s'[0].prevRel == 0 && s'[|s| - 1].usedNum == 0 && s'[|s| - 1].freeNum == 0;
    hide Merged, Without, Merging, NoDup;
    forall j | 0 <= j < |ch'| - 1
      ensures ch'[j] < |s'| && NextSec(s', ch'[j]) == ch'[j + 1] && s'[ch'[j]].usedNum == CalcNum(s'[ch'[j]].reqSize) &&
              s'[ch'[j]].freeNum >= 0
    {
      MergedNext(s, s', ch, i, j);
    }
    forall j | 1 <= j < |ch'| ensures ch'[j] < |s'| && PrevSec(s', ch'[j]) == ch'[j - 1] {
      MergedPrev(s, s', ch, i, j);
    }
  }

  lemma MergedTotals(s: Units, ch: seq<nat>, i: nat)
    requires ChainOk(s, ch) && 1 <= i < |ch| - 1
    requires NextSec(s, ch[i]) == ch[i + 1] && PrevSec(s, ch[i]) == ch[i - 1]
    ensures var s', ch' := Merged(s, ch[i]), Without(ch, i);
      && (forall j :: 0 <= j < |ch'| ==> ch'[j] < |s'|)
      && Total(UsedOf, s', ch') == Total(UsedOf, s, ch) - s[ch[i]].usedNum
      && Total(ReqOf, s', ch') == Total(ReqOf, s, ch) - s[ch[i]].reqSize
  {
    hide ChainOk, Total, CalcNum, Merged, With, Without, NextSec, PrevSec;
    InRange(s, ch);
    MergedReads(s, ch, i);
    var s', ch' := Merged(s, ch[i]), Without(ch, i);
    WithoutWith(ch, i);
    SplitTotals(UsedOf, s', s, ch', i, ch[i]);
    SplitTotals(ReqOf, s', s, ch', i, ch[i]);
  }

  lemma InRange(s: Units, ch: seq<nat>)
    requires ChainOk(s, ch)
    ensures forall i :: 0 <= i < |ch| ==> ch[i] < |s|
  {
  }

  lemma MergedReads(s: Units, ch: seq<nat>, i: nat)
    requires 1 <= i < |ch| - 1 && (forall j :: 0 <= j < |ch| ==> ch[j] < |s|)
    requires NextSec(s, ch[i]) == ch[i + 1] && PrevSec(s, ch[i]) == ch[i - 1]
    ensures forall x :: 0 <= x < |s| ==>
            Merged(s, ch[i])[x].usedNum == s[x].usedNum && Merged(s, ch[i])[x].reqSize == s[x].reqSize
  {
  }

  lemma WithoutWith(f: seq<nat>, k: nat)
    requires k < |f|
    ensures With(Without(f, k), k, f[k]) == f
    ensures forall j :: 0 <= j < |f| - 1 ==> Without(f, k)[j] in f && Without(f, k)[j] == f[if j < k then j else j + 1]
  {
    assert Without(f, k)[..k] == f[..k] && Without(f, k)[k..] == f[k + 1..];
  }
}
