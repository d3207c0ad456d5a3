// Storing an object: the members follow the header of the object in the order of its
// descriptor, and the lengths in the headers grow as the members are written.
module SnapshotStore {
  import opened SnapshotFormat

  method FindDesc(descs: seq<ObjDesc>, id: nat) returns (k: int)
    ensures k == Find(descs, id)
  {
    k := 0;
    while k < |descs|
      invariant 0 <= k <= |descs|
      invariant Find(descs, id) == if Find(descs[k..], id) < 0 then -1 else k + Find(descs[k..], id)
    {
      if descs[k].objType == id {
        return;
      }
      assert descs[k..][1..] == descs[k + 1..];
      k := k + 1;
    }
    k := -1;
  }

  ghost predicate SameOutside(a: seq<Byte>, b: seq<Byte>, from: nat, upto: nat) {
    && |a| == |b|
    && forall i | 0 <= i < |a| && !(from <= i < upto) :: a[i] == b[i]
  }

  // The first i members of the object at position at are in place.
  ghost predicate StoredUpTo(descs: seq<ObjDesc>, rank: seq<nat>, buf: seq<Byte>, at: nat, k: nat, i: nat,
                             src: Memory, base: int)
    requires Acyclic(descs, rank) && k < |descs| && i <= |descs[k].mems|
  {
    forall j | 0 <= j < i :: StoredMem(descs, rank, buf, at, k, j, src, base) && ResolvedMem(descs, rank, k, j)
  }

  lemma StoredUpToFrame(descs: seq<ObjDesc>, rank: seq<nat>, a: seq<Byte>, b: seq<Byte>, at: nat, k: nat, i: nat,
                        src: Memory, base: int)
    requires Acyclic(descs, rank) && k < |descs| && i <= |descs[k].mems|
    requires StoredUpTo(descs, rank, a, at, k, i, src, base)
    requires SameFrom(a, b, at + HEADER, at + HEADER + SizeMems(descs, rank, k, i))
    ensures StoredUpTo(descs, rank, b, at, k, i, src, base)
  {
    hide StoredMem, SizeMem, ResolvedMem;
    forall j | 0 <= j < i
      ensures StoredMem(descs, rank, b, at, k, j, src, base)
    {
      SizeMemInside(descs, rank, k, j);
      SizeMemsGrow(descs, rank, k, j + 1, i);
      StoredMemFrame(descs, rank, a, b, at, k, j, src, base);
    }
  }

  method SetType(buf: array<Byte>, at: nat, tag: nat)
    requires at + 2 <= buf.Length && tag <= U16_MAX
    modifies buf
    ensures U16(buf[..], at) == tag && SameOutside(old(buf[..]), buf[..], at, at + 2)
  {
    hide Digit;
    Digits(tag);
    buf[at] := Digit(tag, 0);
    buf[at + 1] := Digit(tag, 1);
  }

  method SetLength(buf: array<Byte>, at: nat, n: nat)
    requires at + HEADER <= buf.Length && n <= INT_MAX
    modifies buf
    ensures U32(buf[..], at + 4) == n && SameOutside(old(buf[..]), buf[..], at + 4, at + 8)
  {
    hide Digit;
    Digits(n);
    buf[at + 4] := Digit(n, 0);
    buf[at + 5] := Digit(n, 1);
    buf[at + 6] := Digit(n, 2);
    buf[at + 7] := Digit(n, 3);
  }

  method SetHeader(buf: array<Byte>, at: nat, tag: nat, n: nat)
    requires at + HEADER <= buf.Length && tag <= U16_MAX && n <= INT_MAX
    modifies buf
    ensures HeaderAt(buf[..], at, tag, n) && SameOutside(old(buf[..]), buf[..], at, at + HEADER)
  {
    SetType(buf, at, tag);
    SetLength(buf, at, n);
  }

  // MEMCPY_S into the buffer, which has room for the n bytes.
  method CopyOut(buf: array<Byte>, at: nat, src: Memory, from: int, n: nat)
    requires at + n <= buf.Length
    modifies buf
    ensures buf[at..at + n] == Bytes(src, from, n) && SameOutside(old(buf[..]), buf[..], at, at + n)
  {
    ghost var b := buf[..];
    for i := 0 to n
      invariant buf[at..at + i] == Bytes(src, from, n)[..i]
      invariant SameOutside(b, buf[..], at, at + n)
    {
      buf[at + i] := Read(src, from + i);
    }
  }

  // Tags are 16 bits wide.
  predicate TagsFit(descs: seq<ObjDesc>) {
    forall k, i | 0 <= k < |descs| && 0 <= i < |descs[k].mems| :: descs[k].mems[i].tag <= U16_MAX
  }

  // What storing an object of type tag returns when len bytes are left.
  ghost function StoreResult(descs: seq<ObjDesc>, rank: seq<nat>, tag: nat, len: nat): int
    requires Acyclic(descs, rank)
  {
    var k := Find(descs, ObjOf(tag));
    if k >= 0 && Resolved(descs, rank, k) && Size(descs, rank, k) <= len then Size(descs, rank, k) else -1
  }

  ghost function Height(descs: seq<ObjDesc>, rank: seq<nat>, tag: nat): nat
    requires |rank| == |descs|
  {
    var k := Find(descs, ObjOf(tag));
    if k < 0 then 0 else rank[k] + 1
  }

  method StoreObj(descs: seq<ObjDesc>, ghost rank: seq<nat>, buf: array<Byte>, tag: nat, src: Memory, base: int,
                  at: nat, len: nat) returns (ret: int)
    requires Fits(descs, rank) && TagsFit(descs) && tag <= U16_MAX && at + len <= buf.Length
    modifies buf
    ensures ret == StoreResult(descs, rank, tag, len)
    ensures ret >= 0 ==> Stored(descs, rank, buf[..], at, tag, Find(descs, ObjOf(tag)), src, base)
    ensures SameOutside(old(buf[..]), buf[..], at, at + len)
    decreases Height(descs, rank, tag), 2
  {
    hide StoredMem, SizeMem, ResolvedMem, SizeMems, HeaderAt, StoredUpTo;
    var k := FindDesc(descs, ObjOf(tag));
    if k < 0 || len < HEADER {
      return -1;
    }
    SetHeader(buf, at, tag, 0);
    var total, p, left := 0, at + HEADER, len - HEADER;
    StartStore(descs, rank, buf[..], at, k, src, base);
    for i := 0 to |descs[k].mems|
      invariant total == SizeMems(descs, rank, k, i) && p == at + HEADER + total && left == len - HEADER - total >= 0
      invariant HeaderAt(buf[..], at, tag, total) && StoredUpTo(descs, rank, buf[..], at, k, i, src, base)
      invariant SameOutside(old(buf[..]), buf[..], at, at + len)
    {
      ghost var b := buf[..];
      var n := StoreMem(descs, rank, buf, at, k, i, src, base, p, left);
      if n < 0 {
        MemFails(descs, rank, k, i, left, len);
        return -1;
      }
      ghost var c := buf[..];
      SizeMemInside(descs, rank, k, i);
      SetLength(buf, at, total + n);
      NextStored(descs, rank, b, c, buf[..], at, tag, k, i, src, base);
      total, p, left := total + n, p + n, left - n;
    }
    EndStore(descs, rank, buf[..], at, tag, k, src, base);
    ret := total + HEADER;
  }

  lemma StartStore(descs: seq<ObjDesc>, rank: seq<nat>, buf: seq<Byte>, at: nat, k: nat, src: Memory, base: int)
    requires Acyclic(descs, rank) && k < |descs|
    ensures SizeMems(descs, rank, k, 0) == 0 && StoredUpTo(descs, rank, buf, at, k, 0, src, base)
  {
  }

  // Member i does not fit or is not resolved, so neither is the object.
  lemma MemFails(descs: seq<ObjDesc>, rank: seq<nat>, k: nat, i: nat, left: nat, len: nat)
    requires Acyclic(descs, rank) && k < |descs| && i < |descs[k].mems|
    requires left == len - HEADER - SizeMems(descs, rank, k, i)
    requires !ResolvedMem(descs, rank, k, i) || left < SizeMem(descs, rank, k, i)
    ensures !Resolved(descs, rank, k) || len < Size(descs, rank, k)
  {
    hide SizeMem, ResolvedMem, SizeMems;
    SizeMemInside(descs, rank, k, i);
  }

  lemma NextStored(descs: seq<ObjDesc>, rank: seq<nat>, a: seq<Byte>, b: seq<Byte>, c: seq<Byte>, at: nat, tag: nat,
                   k: nat, i: nat, src: Memory, base: int)
    requires Acyclic(descs, rank) && k < |descs| && i < |descs[k].mems|
    requires HeaderAt(a, at, tag, SizeMems(descs, rank, k, i)) && StoredUpTo(descs, rank, a, at, k, i, src, base)
    requires SameFrom(a, b, 0, at + HEADER + SizeMems(descs, rank, k, i))
    requires StoredMem(descs, rank, b, at, k, i, src, base) && ResolvedMem(descs, rank, k, i)
    requires SameOutside(b, c, at + 4, at + 8) && U32(c, at + 4) == SizeMems(descs, rank, k, i + 1)
    ensures HeaderAt(c, at, tag, SizeMems(descs, rank, k, i + 1))
    ensures StoredUpTo(descs, rank, c, at, k, i + 1, src, base)
  {
    hide SizeMem, ResolvedMem, SizeMems, StoredMem;
    MemPlace(descs, rank, b, at, k, i, src, base);
    StoredUpToFrame(descs, rank, a, c, at, k, i, src, base);
    StoredMemFrame(descs, rank, b, c, at, k, i, src, base);
  }

  lemma MemPlace(descs: seq<ObjDesc>, rank: seq<nat>, b: seq<Byte>, at: nat, k: nat, i: nat, src: Memory, base: int)
    requires Acyclic(descs, rank) && k < |descs| && i < |descs[k].mems|
    requires StoredMem(descs, rank, b, at, k, i, src, base)
    ensures at + HEADER + SizeMems(descs, rank, k, i) + SizeMem(descs, rank, k, i) <= |b|
  {
  }

  lemma EndStore(descs: seq<ObjDesc>, rank: seq<nat>, buf: seq<Byte>, at: nat, tag: nat, k: nat, src: Memory,
                 base: int)
    requires Acyclic(descs, rank) && k < |descs| && at + Size(descs, rank, k) <= |buf|
    requires StoredUpTo(descs, rank, buf, at, k, |descs[k].mems|, src, base)
    requires HeaderAt(buf, at, tag, SizeMems(descs, rank, k, |descs[k].mems|))
    ensures Stored(descs, rank, buf, at, tag, k, src, base) && Resolved(descs, rank, k)
  {
    hide SizeMem, ResolvedMem, SizeMems, StoredMem, HeaderAt;
  }

  // Member i of object k, whose object starts at position at.
  method StoreMem(descs: seq<ObjDesc>, ghost rank: seq<nat>, buf: array<Byte>, ghost at: nat, k: nat, i: nat,
                  src: Memory, base: int, p: nat, left: nat) returns (n: int)
    requires Fits(descs, rank) && TagsFit(descs) && k < |descs| && i < |descs[k].mems|
    requires p == at + HEADER + SizeMems(descs, rank, k, i) && p + left <= buf.Length
    modifies buf
    ensures n == if ResolvedMem(descs, rank, k, i) && SizeMem(descs, rank, k, i) <= left
                 then SizeMem(descs, rank, k, i) else -1
    ensures n >= 0 ==> StoredMem(descs, rank, buf[..], at, k, i, src, base)
    ensures SameOutside(old(buf[..]), buf[..], p, p + left)
    decreases rank[k] + 1, 1
  {
    hide Stored, SizeMems, HeaderAt, Resolved, StoredElements, Size;
    var m := descs[k].mems[i];
    assert Below(descs, rank, k, i);
    if IsObj(m.tag) {
      if IsArray(m.tag) {
        n := StoreArray(descs, rank, buf, k, i, src, base, p, left);
      } else {
        n := StoreObj(descs, rank, buf, m.tag, src, base + m.offset, p, left);
      }
    } else {
      SizeMemInside(descs, rank, k, i);
      n := StoreLeaf(buf, m, src, base + m.offset, p, left);
    }
  }

  method StoreLeaf(buf: array<Byte>, m: MemDesc, src: Memory, from: int, p: nat, left: nat) returns (n: int)
    requires m.tag <= U16_MAX && m.length <= INT_MAX && p + left <= buf.Length
    modifies buf
    ensures n == if HEADER + m.length <= left then HEADER + m.length else -1
    ensures n >= 0 ==> HeaderAt(buf[..], p, m.tag, m.length)
    ensures n >= 0 ==> buf[p + HEADER..p + HEADER + m.length] == Bytes(src, from, m.length)
    ensures SameOutside(old(buf[..]), buf[..], p, p + left)
  {
    if left < HEADER {
      return -1;
    }
    SetHeader(buf, p, m.tag, m.length);
    if left - HEADER < m.length {
      return -1;
    }
    CopyOut(buf, p + HEADER, src, from, m.length);
    n := HEADER + m.length;
  }

  method StoreArray(descs: seq<ObjDesc>, ghost rank: seq<nat>, buf: array<Byte>, k: nat, i: nat, src: Memory,
                    base: int, p: nat, left: nat) returns (n: int)
    requires Fits(descs, rank) && TagsFit(descs) && k < |descs| && i < |descs[k].mems|
    requires IsObj(descs[k].mems[i].tag) && IsArray(descs[k].mems[i].tag) && p + left <= buf.Length
    modifies buf
    ensures n == if ResolvedMem(descs, rank, k, i) && SizeMem(descs, rank, k, i) <= left
                 then SizeMem(descs, rank, k, i) else -1
    ensures n >= 0 ==>
              var c, m := Inner(descs, k, i), descs[k].mems[i];
              && c >= 0
              && HeaderAt(buf[..], p, m.tag, Times(Elements(descs, k, i), Size(descs, rank, c)))
              && StoredElements(descs, rank, buf[..], p + HEADER, c, Elements(descs, k, i), src, base + m.offset)
    ensures SameOutside(old(buf[..]), buf[..], p, p + left)
    decreases rank[k] + 1, 0
  {
    hide Stored, HeaderAt, Resolved, StoredElements, Size, ResolvedMem, SizeMem, ObjOf, ObjTag, Times;
    var m := descs[k].mems[i];
    ElementFacts(descs, rank, k, i);
    if left < HEADER {
      return -1;
    }
    SetHeader(buf, p, m.tag, 0);
    var c := FindDesc(descs, ObjOf(m.tag));
    if c < 0 {
      return -1;
    }
    var count := m.length / descs[c].objSize;
    n := StoreElements(descs, rank, buf, m.tag, c, count, src, base + m.offset, p, left - HEADER);
    if n >= 0 {
      n := n + HEADER;
    }
  }

  // The elements of an array of objects c, whose header is at position p.
  method StoreElements(descs: seq<ObjDesc>, ghost rank: seq<nat>, buf: array<Byte>, tag: nat, c: nat, count: nat,
                       src: Memory, base: int, p: nat, left: nat) returns (n: int)
    requires Fits(descs, rank) && TagsFit(descs) && c < |descs| && Times(count, Size(descs, rank, c)) <= INT_MAX
    requires ObjOf(tag) == descs[c].objType && c == Find(descs, ObjOf(ObjTag(ObjOf(tag), 0)))
    requires p + HEADER + left <= buf.Length && HeaderAt(buf[..], p, tag, 0)
    modifies buf
    ensures n == if (count == 0 || Resolved(descs, rank, c)) && Times(count, Size(descs, rank, c)) <= left
                 then Times(count, Size(descs, rank, c)) else -1
    ensures n >= 0 ==> HeaderAt(buf[..], p, tag, n)
    ensures n >= 0 ==> StoredElements(descs, rank, buf[..], p + HEADER, c, count, src, base)
    ensures SameOutside(old(buf[..]), buf[..], p, p + HEADER + left)
    decreases rank[c] + 1, 3
  {
    hide Stored, HeaderAt, Resolved, StoredElements, Size, Times;
    ghost var size := Size(descs, rank, c);
    var q, rest := p + HEADER, left;
    n := 0;
    NoElements(descs, rank, buf[..], q, c, src, base);
    for j := 0 to count
      invariant n == Times(j, size) && q == p + HEADER + n && rest == left - n >= 0
      invariant HeaderAt(buf[..], p, tag, n) && (j > 0 ==> Resolved(descs, rank, c))
      invariant StoredElements(descs, rank, buf[..], p + HEADER, c, j, src, base)
      invariant SameOutside(old(buf[..]), buf[..], p, p + HEADER + left)
    {
      ghost var b0 := buf[..];
      ElementInside(count, j, size);
      assert ObjOf(tag) < 128;
      var r := StoreObj(descs, rank, buf, ObjTag(ObjOf(tag), 0), src, base + Times(j, descs[c].objSize), q, rest);
      if r < 0 {
        return -1;
      }
      ghost var b1 := buf[..];
      SetLength(buf, p, n + r);
      NextElement(descs, rank, b0, b1, buf[..], p, tag, c, j, src, base);
      n, q, rest := n + r, q + r, rest - r;
    }
  }

  // The element type of an array member and the room its elements take.
  lemma ElementFacts(descs: seq<ObjDesc>, rank: seq<nat>, k: nat, i: nat)
    requires Fits(descs, rank) && k < |descs| && i < |descs[k].mems|
    requires IsObj(descs[k].mems[i].tag) && IsArray(descs[k].mems[i].tag)
    ensures var c, tag := Inner(descs, k, i), descs[k].mems[i].tag;
            c >= 0 ==>
              && 0 < descs[c].objSize && rank[c] < rank[k]
              && Find(descs, ObjOf(ObjTag(ObjOf(tag), 0))) == c && ObjTag(ObjOf(tag), 0) <= U16_MAX
              && descs[c].objType == ObjOf(tag)
              && Times(Elements(descs, k, i), Size(descs, rank, c)) <= INT_MAX
              && SizeMem(descs, rank, k, i) == HEADER + Times(Elements(descs, k, i), Size(descs, rank, c))
              && (ResolvedMem(descs, rank, k, i) <==> Elements(descs, k, i) == 0 || Resolved(descs, rank, c))
    ensures ResolvedMem(descs, rank, k, i) ==> Inner(descs, k, i) >= 0
  {
    hide SizeMems, Times;
    var tag := descs[k].mems[i].tag;
    assert Below(descs, rank, k, i);
    assert ObjOf(tag) < 128;
    TagFields(ObjOf(tag), 0);
    SizeMemInside(descs, rank, k, i);
  }

  lemma NoElements(descs: seq<ObjDesc>, rank: seq<nat>, buf: seq<Byte>, at: nat, c: nat, src: Memory, base: int)
    requires Acyclic(descs, rank) && c < |descs|
    ensures StoredElements(descs, rank, buf, at, c, 0, src, base) && Times(0, Size(descs, rank, c)) == 0
  {
  }

  lemma NoTimes(size: nat)
    ensures Times(0, size) == 0
  {
  }

  lemma NextElement(descs: seq<ObjDesc>, rank: seq<nat>, a: seq<Byte>, b: seq<Byte>, d: seq<Byte>, p: nat, tag: nat,
                    c: nat, j: nat, src: Memory, base: int)
    requires Acyclic(descs, rank) && c < |descs|
    requires var total := Times(j, Size(descs, rank, c));
             && HeaderAt(a, p, tag, total) && StoredElements(descs, rank, a, p + HEADER, c, j, src, base)
             && SameFrom(a, b, 0, p + HEADER + total)
             && Stored(descs, rank, b, p + HEADER + total, ObjTag(descs[c].objType, 0), c, src,
                       base + Times(j, descs[c].objSize))
             && SameOutside(b, d, p + 4, p + 8) && U32(d, p + 4) == total + Size(descs, rank, c)
    ensures HeaderAt(d, p, tag, Times(j + 1, Size(descs, rank, c)))
    ensures StoredElements(descs, rank, d, p + HEADER, c, j + 1, src, base)
  {
    hide Stored, Size, HeaderAt, StoredElements, ObjTag, Acyclic, U32, Times;
    var size := Size(descs, rank, c);
    ElementInside(j + 1, j, size);
    var q, from := p + HEADER + Times(j, size), base + Times(j, descs[c].objSize);
    ElementPlace(descs, rank, b, q, ObjTag(descs[c].objType, 0), c, src, from);
    HeaderKept(a, b, d, p, tag, Times(j, size), Times(j, size) + size);
    StoredElementsFrame(descs, rank, a, d, p + HEADER, c, j, src, base);
    StoredFrame(descs, rank, b, d, q, ObjTag(descs[c].objType, 0), c, src, from);
    OneMoreElement(descs, rank, d, p + HEADER, c, j, src, base);
  }

  lemma HeaderKept(a: seq<Byte>, b: seq<Byte>, d: seq<Byte>, p: nat, tag: nat, m: nat, n: nat)
    requires HeaderAt(a, p, tag, m) && SameFrom(a, b, 0, p + HEADER) && SameOutside(b, d, p + 4, p + 8)
    requires U32(d, p + 4) == n
    ensures HeaderAt(d, p, tag, n)
  {
  }

  lemma OneMoreElement(descs: seq<ObjDesc>, rank: seq<nat>, d: seq<Byte>, at: nat, c: nat, j: nat, src: Memory,
                       base: int)
    requires Acyclic(descs, rank) && c < |descs| && StoredElements(descs, rank, d, at, c, j, src, base)
    requires Stored(descs, rank, d, at + Times(j, Size(descs, rank, c)), ObjTag(descs[c].objType, 0), c, src,
                    base + Times(j, descs[c].objSize))
    ensures StoredElements(descs, rank, d, at, c, j + 1, src, base)
  {
    hide Stored, Size, ObjTag, Times;
  }

  lemma ElementPlace(descs: seq<ObjDesc>, rank: seq<nat>, b: seq<Byte>, at: nat, tag: nat, c: nat, src: Memory,
                     base: int)
    requires Acyclic(descs, rank) && c < |descs| && Stored(descs, rank, b, at, tag, c, src, base)
    ensures at + Size(descs, rank, c) <= |b|
  {
  }

  lemma StoreTag(objType: nat)
    ensures ObjOf(ObjTag(objType, 0)) == objType % 128 && IsObj(ObjTag(objType, 0)) && ObjTag(objType, 0) <= U16_MAX
  {
    hide ObjOf, MemberOf, IsObj, IsArray;
    TagParts(objType % 128, 0, 2);
  }

  // nsfw_ss_store
  method Store(descs: seq<ObjDesc>, ghost rank: seq<nat>, objType: nat, src: Memory, base: int, buf: array<Byte>,
               len: nat) returns (ret: int)
    requires Fits(descs, rank) && TagsFit(descs) && objType <= U16_MAX && len <= buf.Length
    modifies buf
    ensures ret == StoreResult(descs, rank, ObjTag(objType, 0), len)
    ensures ret >= 0 ==>
              Stored(descs, rank, buf[..], 0, ObjTag(objType, 0), Find(descs, objType % 128), src, base)
    ensures SameOutside(old(buf[..]), buf[..], 0, len)
  {
    hide Stored, StoreResult, ObjTag, ObjOf;
    StoreTag(objType);
    ret := StoreObj(descs, rank, buf, ObjTag(objType, 0), src, base, 0, len);
  }

  ghost function LengthResult(descs: seq<ObjDesc>, rank: seq<nat>, objType: nat): int
    requires Acyclic(descs, rank)
  {
    var k := Find(descs, objType);
    if k >= 0 && Resolved(descs, rank, k) then Size(descs, rank, k) else -1
  }

  // The length that is announced for an object type is the one that storing needs: with
  // len bytes storing succeeds exactly when the length is there and fits, and returns it.
  ghost predicate Announced(descs: seq<ObjDesc>, rank: seq<nat>, objType: nat, len: nat)
    requires Acyclic(descs, rank)
  {
    var n := LengthResult(descs, rank, objType);
    StoreResult(descs, rank, ObjTag(objType, 0), len) == if 0 <= n <= len then n else -1
  }

  lemma LengthAnnounced(descs: seq<ObjDesc>, rank: seq<nat>, objType: nat, len: nat)
    requires Acyclic(descs, rank) && objType < 128
    ensures Announced(descs, rank, objType, len)
  {
    hide ObjOf, ObjTag, Size, Resolved;
    StoreTag(objType);
  }

  // The length is looked up under the whole type and storing under its last seven bits,
  // so that they agree for all buffers exactly when the two lengths do.
  lemma LengthAnnouncedIff(descs: seq<ObjDesc>, rank: seq<nat>, objType: nat)
    requires Acyclic(descs, rank)
    ensures (forall len: nat :: Announced(descs, rank, objType, len)) <==>
            LengthResult(descs, rank, objType) == LengthResult(descs, rank, objType % 128)
  {
    hide ObjOf, ObjTag, Size, Resolved;
    StoreTag(objType);
    var a, b := LengthResult(descs, rank, objType), LengthResult(descs, rank, objType % 128);
    if a != b {
      var len: nat := if a < b then b else a;
      assert !Announced(descs, rank, objType, len);
    }
  }

  // A length is announced for type 200, which is stored as type 72.
  lemma LengthOfType200(len: nat)
    ensures var descs := [ObjDesc(200, 1, [MemDesc(4, 1, 0)])];
            && Acyclic(descs, [0]) && LengthResult(descs, [0], 200) == 17
            && StoreResult(descs, [0], ObjTag(200, 0), len) == -1
  {
    var descs := [ObjDesc(200, 1, [MemDesc(4, 1, 0)])];
    StoreTag(200);
    assert descs[1..] == [];
    assert Find(descs, 72) == -1 && Find(descs, 200) == 0;
    assert !IsObj(4) && ResolvedMem(descs, [0], 0, 0);
    assert SizeMem(descs, [0], 0, 0) == 9;
    assert SizeMems(descs, [0], 0, 1) == 9;
  }

  // nsfw_ss_getObjStoreMemLen
  method StoreLength(descs: seq<ObjDesc>, ghost rank: seq<nat>, objType: nat) returns (ret: int)
    requires Fits(descs, rank)
    ensures ret == LengthResult(descs, rank, objType)
    decreases if Find(descs, objType) < 0 then 0 else rank[Find(descs, objType)] + 1, 1
  {
    hide SizeMem, ResolvedMem;
    var k := FindDesc(descs, objType);
    if k < 0 {
      return -1;
    }
    ret := HEADER;
    for i := 0 to |descs[k].mems|
      invariant ret == HEADER + SizeMems(descs, rank, k, i)
      invariant forall j | 0 <= j < i :: ResolvedMem(descs, rank, k, j)
    {
      var n := MemLength(descs, rank, k, i);
      if n < 0 {
        assert !Resolved(descs, rank, k);
        return -1;
      }
      ret := ret + n;
    }
    assert Resolved(descs, rank, k);
  }

  method MemLength(descs: seq<ObjDesc>, ghost rank: seq<nat>, k: nat, i: nat) returns (n: int)
    requires Fits(descs, rank) && k < |descs| && i < |descs[k].mems|
    ensures n == if ResolvedMem(descs, rank, k, i) then SizeMem(descs, rank, k, i) else -1
    decreases rank[k] + 1, 0
  {
    hide Size, Resolved, Times;
    var m := descs[k].mems[i];
    assert Below(descs, rank, k, i);
    if !IsObj(m.tag) {
      return HEADER + m.length;
    }
    var c := FindDesc(descs, ObjOf(m.tag));
    if c < 0 {
      return -1;
    }
    if !IsArray(m.tag) {
      n := StoreLength(descs, rank, descs[c].objType);
      return;
    }
    n := HEADER;
    ghost var size := Size(descs, rank, c);
    NoTimes(size);
    var count := m.length / descs[c].objSize;
    for j := 0 to count
      invariant n == HEADER + Times(j, size) && (j > 0 ==> Resolved(descs, rank, c))
    {
      var r := StoreLength(descs, rank, descs[c].objType);
      if r < 0 {
        return -1;
      }
      ElementInside(count, j, size);
      n := n + r;
    }
  }
}
