// The descriptors of the snapshot codec, the type tags and the layout of a stored
// object: a header with a 16-bit type and a 32-bit length, then the members.
module SnapshotFormat {

  type Byte = x: nat | x < 256

  // Memory of an object; addresses that are not recorded read as zero.
  type Memory = map<int, Byte>

  const HEADER := 8
  const U16_MAX := 0xffff
  const INT_MAX := 0x7fff_ffff

  datatype MemDesc = MemDesc(tag: nat, length: nat, offset: nat)

  datatype ObjDesc = ObjDesc(objType: nat, objSize: nat, mems: seq<MemDesc>)

  // The type tag: object type (7 bits), member type (7 bits), object flag, array flag.

  function ObjOf(tag: nat): nat { tag % 0x10000 / 512 }

  function MemberOf(tag: nat): nat { tag % 512 / 4 }

  predicate IsObj(tag: nat) { tag / 2 % 2 == 1 }

  predicate IsArray(tag: nat) { tag % 2 == 1 }

  function ItemTag(member: nat): nat { member % 128 * 4 }

  function ObjTag(obj: nat, member: nat): nat { obj % 128 * 512 + ItemTag(member) + 2 }

  function ArrayTag(obj: nat, member: nat): nat { ObjTag(obj, member) + 1 }

  lemma TagFields(obj: nat, member: nat)
    requires obj < 128 && member < 128
    ensures ObjOf(ObjTag(obj, member)) == obj && MemberOf(ObjTag(obj, member)) == member
    ensures IsObj(ObjTag(obj, member)) && !IsArray(ObjTag(obj, member))
    ensures ObjOf(ArrayTag(obj, member)) == obj && MemberOf(ArrayTag(obj, member)) == member
    ensures IsObj(ArrayTag(obj, member)) && IsArray(ArrayTag(obj, member))
    ensures !IsObj(ItemTag(member)) && MemberOf(ItemTag(member)) == member
    ensures ArrayTag(obj, member) <= U16_MAX
  {
    hide ObjOf, MemberOf, IsObj, IsArray;
    TagParts(obj, member, 2);
    TagParts(obj, member, 3);
    TagParts(0, member, 0);
  }

  lemma TagParts(obj: nat, member: nat, flags: nat)
    requires obj < 128 && member < 128 && flags < 4
    ensures var tag := obj * 512 + member * 4 + flags;
            && ObjOf(tag) == obj && MemberOf(tag) == member
            && (IsObj(tag) <==> flags >= 2) && (IsArray(tag) <==> flags % 2 == 1)
  {
    var tag := obj * 512 + member * 4 + flags;
    assert tag / 512 == obj && tag % 512 == member * 4 + flags;
    assert tag == 4 * (obj * 128 + member) + flags;
    assert tag % 4 == flags && tag / 2 == 2 * (obj * 128 + member) + flags / 2;
  }

  // The first descriptor of an object type, and the first member with a tag.

  function Find(descs: seq<ObjDesc>, id: nat): (k: int)
    ensures -1 <= k < |descs|
    ensures k >= 0 ==> descs[k].objType == id
    ensures k < 0 ==> forall j | 0 <= j < |descs| :: descs[j].objType != id
  {
    if descs == [] then -1
    else if descs[0].objType == id then 0
    else var k := Find(descs[1..], id); if k < 0 then -1 else k + 1
  }

  function FindMem(mems: seq<MemDesc>, tag: nat): (k: int)
    ensures -1 <= k < |mems|
    ensures k >= 0 ==> mems[k].tag == tag
    ensures k < 0 ==> forall j | 0 <= j < |mems| :: mems[j].tag != tag
  {
    if mems == [] then -1
    else if mems[0].tag == tag then 0
    else var k := FindMem(mems[1..], tag); if k < 0 then -1 else k + 1
  }

  // No object contains itself: ranks go down from an object to its members.
  ghost predicate Acyclic(descs: seq<ObjDesc>, rank: seq<nat>) {
    && |rank| == |descs|
    && forall k, i | 0 <= k < |descs| && 0 <= i < |descs[k].mems| :: Below(descs, rank, k, i)
  }

  ghost predicate Below(descs: seq<ObjDesc>, rank: seq<nat>, k: nat, i: nat)
    requires |rank| == |descs| && k < |descs| && i < |descs[k].mems|
  {
    var m := descs[k].mems[i];
    var c := Find(descs, ObjOf(m.tag));
    IsObj(m.tag) && c >= 0 ==> rank[c] < rank[k] && (IsArray(m.tag) ==> 0 < descs[c].objSize)
  }

  // The object type of member i of descriptor k, -1 when it is not registered.
  function Inner(descs: seq<ObjDesc>, k: nat, i: nat): (c: int)
    requires k < |descs| && i < |descs[k].mems|
    ensures -1 <= c < |descs|
  {
    Find(descs, ObjOf(descs[k].mems[i].tag))
  }

  function Elements(descs: seq<ObjDesc>, k: nat, i: nat): nat
    requires k < |descs| && i < |descs[k].mems|
  {
    var c := Inner(descs, k, i);
    if c < 0 || descs[c].objSize == 0 then 0 else descs[k].mems[i].length / descs[c].objSize
  }

  // An array has room for that many whole objects and no more.
  lemma ElementsWhole(descs: seq<ObjDesc>, k: nat, i: nat)
    requires k < |descs| && i < |descs[k].mems| && Inner(descs, k, i) >= 0
    requires 0 < descs[Inner(descs, k, i)].objSize
    ensures var n, size := Elements(descs, k, i), descs[Inner(descs, k, i)].objSize;
            Times(n, size) <= descs[k].mems[i].length < Times(n + 1, size)
  {
    var size, length := descs[Inner(descs, k, i)].objSize, descs[k].mems[i].length;
    assert length == length / size * size + length % size;
  }

  // The first descriptor and the first member are found.
  lemma {:induction false} FindsFirst(descs: seq<ObjDesc>, id: nat, j: nat)
    requires j < |descs| && descs[j].objType == id
    ensures 0 <= Find(descs, id) <= j
  {
    if descs[0].objType != id {
      FindsFirst(descs[1..], id, j - 1);
    }
  }

  lemma {:induction false} FindsFirstMem(mems: seq<MemDesc>, tag: nat, j: nat)
    requires j < |mems| && mems[j].tag == tag
    ensures 0 <= FindMem(mems, tag) <= j
  {
    if mems[0].tag != tag {
      FindsFirstMem(mems[1..], tag, j - 1);
    }
  }

  // Bytes of n elements.
  function Times(n: nat, size: nat): nat { n * size }

  // Bytes that a stored object takes.

  ghost function Size(descs: seq<ObjDesc>, rank: seq<nat>, k: nat): (n: nat)
    requires Acyclic(descs, rank) && k < |descs|
    ensures n >= HEADER
    decreases rank[k], 2, 0
  {
    HEADER + SizeMems(descs, rank, k, |descs[k].mems|)
  }

  ghost function SizeMems(descs: seq<ObjDesc>, rank: seq<nat>, k: nat, i: nat): nat
    requires Acyclic(descs, rank) && k < |descs| && i <= |descs[k].mems|
    decreases rank[k], 1, i
  {
    if i == 0 then 0 else SizeMems(descs, rank, k, i - 1) + SizeMem(descs, rank, k, i - 1)
  }

  ghost function SizeMem(descs: seq<ObjDesc>, rank: seq<nat>, k: nat, i: nat): nat
    requires Acyclic(descs, rank) && k < |descs| && i < |descs[k].mems|
    decreases rank[k], 0, 0
  {
    var m := descs[k].mems[i];
    var c := Inner(descs, k, i);
    assert Below(descs, rank, k, i);
    if !IsObj(m.tag) then HEADER + m.length
    else if c < 0 then 0
    else if IsArray(m.tag) then HEADER + Times(Elements(descs, k, i), Size(descs, rank, c))
    else Size(descs, rank, c)
  }

  // Every object type that a stored object reaches is registered.

  ghost predicate Resolved(descs: seq<ObjDesc>, rank: seq<nat>, k: nat)
    requires Acyclic(descs, rank) && k < |descs|
    decreases rank[k], 1
  {
    forall i | 0 <= i < |descs[k].mems| :: ResolvedMem(descs, rank, k, i)
  }

  ghost predicate ResolvedMem(descs: seq<ObjDesc>, rank: seq<nat>, k: nat, i: nat)
    requires Acyclic(descs, rank) && k < |descs| && i < |descs[k].mems|
    decreases rank[k], 0
  {
    var m := descs[k].mems[i];
    var c := Inner(descs, k, i);
    assert Below(descs, rank, k, i);
    IsObj(m.tag) ==> c >= 0 && ((IsArray(m.tag) && Elements(descs, k, i) == 0) || Resolved(descs, rank, c))
  }

  // The lengths stay within the int that the functions return.
  ghost predicate Fits(descs: seq<ObjDesc>, rank: seq<nat>) {
    && Acyclic(descs, rank)
    && forall k | 0 <= k < |descs| :: Size(descs, rank, k) <= INT_MAX
  }

  lemma {:induction false} SizeMemsGrow(descs: seq<ObjDesc>, rank: seq<nat>, k: nat, i: nat, j: nat)
    requires Acyclic(descs, rank) && k < |descs| && i <= j <= |descs[k].mems|
    ensures SizeMems(descs, rank, k, i) <= SizeMems(descs, rank, k, j)
  {
    if i < j {
      SizeMemsGrow(descs, rank, k, i, j - 1);
    }
  }

  // Member i lies inside the object.
  lemma SizeMemInside(descs: seq<ObjDesc>, rank: seq<nat>, k: nat, i: nat)
    requires Acyclic(descs, rank) && k < |descs| && i < |descs[k].mems|
    ensures HEADER + SizeMems(descs, rank, k, i) + SizeMem(descs, rank, k, i) <= Size(descs, rank, k)
    ensures SizeMems(descs, rank, k, i + 1) == SizeMems(descs, rank, k, i) + SizeMem(descs, rank, k, i)
  {
    hide SizeMem;
    SizeMemsGrow(descs, rank, k, i + 1, |descs[k].mems|);
  }

  // Numbers in the buffer, low byte first.

  function U16(buf: seq<Byte>, at: nat): nat
    requires at + 2 <= |buf|
  {
    buf[at] as int + 0x100 * (buf[at + 1] as int)
  }

  function U32(buf: seq<Byte>, at: nat): nat
    requires at + 4 <= |buf|
  {
    buf[at] as int + 0x100 * (buf[at + 1] as int) + 0x1_0000 * (buf[at + 2] as int) + 0x100_0000 * (buf[at + 3] as int)
  }

  // Byte k of n.
  function Digit(n: nat, k: nat): Byte {
    if k == 0 then n % 256 else Digit(n / 256, k - 1)
  }

  lemma Digits(n: nat)
    ensures n <= U16_MAX ==> Digit(n, 0) as int + 0x100 * (Digit(n, 1) as int) == n
    ensures n < 0x1_0000_0000 ==>
              Digit(n, 0) as int + 0x100 * (Digit(n, 1) as int) + 0x1_0000 * (Digit(n, 2) as int) +
              0x100_0000 * (Digit(n, 3) as int) == n
  {
    hide Digit;
    NextDigit(n);
    NextDigit(n / 256);
    NextDigit(n / 256 / 256);
    NextDigit(n / 256 / 256 / 256);
    ShiftDigit(n, 1);
    ShiftDigit(n, 2);
    ShiftDigit(n, 3);
    ShiftDigit(n / 256, 1);
    ShiftDigit(n / 256, 2);
    ShiftDigit(n / 256 / 256, 1);
  }

  lemma NextDigit(n: nat)
    ensures n == Digit(n, 0) as int + 256 * (n / 256)
  {
  }

  lemma ShiftDigit(n: nat, k: nat)
    requires k > 0
    ensures Digit(n, k) == Digit(n / 256, k - 1)
  {
  }

  predicate HeaderAt(buf: seq<Byte>, at: nat, tag: nat, n: nat) {
    at + HEADER <= |buf| && U16(buf, at) == tag && U32(buf, at + 4) == n
  }

  function Read(m: Memory, x: int): Byte { if x in m then m[x] else 0 }

  function Bytes(m: Memory, at: int, n: nat): (b: seq<Byte>)
    ensures |b| == n
  {
    seq<Byte>(n, i requires 0 <= i < n => Read(m, at + i))
  }

  // The buffer holds object k, read from address base of src, from position at on.
  ghost predicate Stored(descs: seq<ObjDesc>, rank: seq<nat>, buf: seq<Byte>, at: nat, tag: nat, k: nat,
                         src: Memory, base: int)
    requires Acyclic(descs, rank) && k < |descs|
    decreases rank[k], 1
  {
    && at + Size(descs, rank, k) <= |buf|
    && HeaderAt(buf, at, tag, Size(descs, rank, k) - HEADER)
    && forall i | 0 <= i < |descs[k].mems| :: StoredMem(descs, rank, buf, at, k, i, src, base)
  }

  // Member i of the object at position at.
  ghost predicate StoredMem(descs: seq<ObjDesc>, rank: seq<nat>, buf: seq<Byte>, at: nat, k: nat, i: nat,
                            src: Memory, base: int)
    requires Acyclic(descs, rank) && k < |descs| && i < |descs[k].mems|
    decreases rank[k], 0
  {
    var m := descs[k].mems[i];
    var c := Inner(descs, k, i);
    var p := at + HEADER + SizeMems(descs, rank, k, i);
    assert Below(descs, rank, k, i);
    && p + SizeMem(descs, rank, k, i) <= |buf|
    && if !IsObj(m.tag) then
         && HeaderAt(buf, p, m.tag, m.length)
         && buf[p + HEADER..p + HEADER + m.length] == Bytes(src, base + m.offset, m.length)
       else if c < 0 then
         false
       else if IsArray(m.tag) then
         && HeaderAt(buf, p, m.tag, Times(Elements(descs, k, i), Size(descs, rank, c)))
         && StoredElements(descs, rank, buf, p + HEADER, c, Elements(descs, k, i), src, base + m.offset)
       else
         Stored(descs, rank, buf, p, m.tag, c, src, base + m.offset)
  }

  ghost predicate StoredElements(descs: seq<ObjDesc>, rank: seq<nat>, buf: seq<Byte>, at: nat, c: nat, n: nat,
                                 src: Memory, base: int)
    requires Acyclic(descs, rank) && c < |descs|
    decreases rank[c], 3
  {
    forall j | 0 <= j < n :: StoredElement(descs, rank, buf, at, c, j, src, base)
  }

  // Element j of an array of objects c whose first element is at position at.
  ghost predicate StoredElement(descs: seq<ObjDesc>, rank: seq<nat>, buf: seq<Byte>, at: nat, c: nat, j: nat,
                                src: Memory, base: int)
    requires Acyclic(descs, rank) && c < |descs|
    decreases rank[c], 2
  {
    Stored(descs, rank, buf, at + Times(j, Size(descs, rank, c)), ObjTag(descs[c].objType, 0), c, src,
           base + Times(j, descs[c].objSize))
  }

  ghost predicate SameFrom(a: seq<Byte>, b: seq<Byte>, from: nat, upto: nat) {
    |a| == |b| && upto <= |a| && forall i | from <= i < upto :: a[i] == b[i]
  }

  // What is stored depends on the bytes of the object alone.
  lemma {:induction false} StoredFrame(descs: seq<ObjDesc>, rank: seq<nat>, a: seq<Byte>, b: seq<Byte>, at: nat,
                                       tag: nat, k: nat, src: Memory, base: int)
    requires Acyclic(descs, rank) && k < |descs| && Stored(descs, rank, a, at, tag, k, src, base)
    requires SameFrom(a, b, at, at + Size(descs, rank, k))
    ensures Stored(descs, rank, b, at, tag, k, src, base)
    decreases rank[k], 1
  {
    hide StoredMem, SizeMem, SizeMems;
    forall i | 0 <= i < |descs[k].mems|
      ensures StoredMem(descs, rank, b, at, k, i, src, base)
    {
      SizeMemInside(descs, rank, k, i);
      StoredMemFrame(descs, rank, a, b, at, k, i, src, base);
    }
  }

  lemma {:induction false} StoredMemFrame(descs: seq<ObjDesc>, rank: seq<nat>, a: seq<Byte>, b: seq<Byte>, at: nat,
                                          k: nat, i: nat, src: Memory, base: int)
    requires Acyclic(descs, rank) && k < |descs| && i < |descs[k].mems|
    requires StoredMem(descs, rank, a, at, k, i, src, base)
    requires var p := at + HEADER + SizeMems(descs, rank, k, i);
             SameFrom(a, b, p, p + SizeMem(descs, rank, k, i))
    ensures StoredMem(descs, rank, b, at, k, i, src, base)
    decreases rank[k], 0
  {
    hide SizeMems, Stored, Times;
    var m := descs[k].mems[i];
    var c := Inner(descs, k, i);
    var p := at + HEADER + SizeMems(descs, rank, k, i);
    assert Below(descs, rank, k, i);
    if !IsObj(m.tag) {
      assert a[p + HEADER..p + HEADER + m.length] == b[p + HEADER..p + HEADER + m.length];
    } else if IsArray(m.tag) {
      StoredElementsFrame(descs, rank, a, b, p + HEADER, c, Elements(descs, k, i), src, base + m.offset);
    } else {
      StoredFrame(descs, rank, a, b, p, m.tag, c, src, base + m.offset);
    }
  }

  lemma {:induction false} StoredElementsFrame(descs: seq<ObjDesc>, rank: seq<nat>, a: seq<Byte>, b: seq<Byte>,
                                               at: nat, c: nat, n: nat, src: Memory, base: int)
    requires Acyclic(descs, rank) && c < |descs| && StoredElements(descs, rank, a, at, c, n, src, base)
    requires SameFrom(a, b, at, at + Times(n, Size(descs, rank, c)))
    ensures StoredElements(descs, rank, b, at, c, n, src, base)
    decreases rank[c], 2
  {
    hide Stored, Size, Times;
    forall j | 0 <= j < n
      ensures StoredElement(descs, rank, b, at, c, j, src, base)
    {
      var size := Size(descs, rank, c);
      ElementInside(n, j, size);
      assert StoredElement(descs, rank, a, at, c, j, src, base);
      StoredFrame(descs, rank, a, b, at + Times(j, size), ObjTag(descs[c].objType, 0), c, src,
                  base + Times(j, descs[c].objSize));
    }
  }

  lemma ElementInside(n: nat, j: nat, size: nat)
    requires j < n
    ensures Times(j, size) + size <= Times(n, size) && Times(j + 1, size) == Times(j, size) + size
  {
    assert (j + 1) * size <= n * size;
  }
}
