// Which bytes a buffer of a given length can make restoring change: exactly those that a
// buffer built for the purpose does change.
module SnapshotReach {
  import opened SnapshotFormat
  import opened SnapshotStore
  import opened SnapshotRestore
  import opened SnapshotBounds

  const U32_MAX := 0xffff_ffff

  // Offset x of object k is within reach of len bytes. An element of an array is reached
  // past those before it, which take two headers each, however many the array has room for.

  ghost predicate HitObj(descs: seq<ObjDesc>, secure: bool, k: nat, x: int, len: nat)
    requires k < |descs|
    decreases len, 0
  {
    len >= HEADER && HitMembers(descs, secure, k, x, len - HEADER)
  }

  ghost predicate HitMembers(descs: seq<ObjDesc>, secure: bool, k: nat, x: int, len: nat)
    requires k < |descs|
    decreases len, 3
  {
    exists i | 0 <= i < |descs[k].mems| :: HitMem(descs, secure, k, i, x, len)
  }

  ghost predicate HitMem(descs: seq<ObjDesc>, secure: bool, k: nat, i: nat, x: int, len: nat)
    requires k < |descs| && i < |descs[k].mems|
    decreases len, 2
  {
    var m, c := descs[k].mems[i], Inner(descs, k, i);
    && FindMem(descs[k].mems, m.tag) == i && len >= HEADER
    && if !IsObj(m.tag) then
         m.offset <= x && (secure ==> x < m.offset + m.length) && x - m.offset < len - HEADER
       else
         c >= 0 && if IsArray(m.tag) then HitElements(descs, secure, c, 0, x - m.offset, len - HEADER)
                   else HitObj(descs, secure, c, x - m.offset, len)
  }

  ghost predicate HitElements(descs: seq<ObjDesc>, secure: bool, c: nat, j: nat, x: int, len: nat)
    requires c < |descs|
    decreases len, 1
  {
    || HitObj(descs, secure, c, x - Times(j, descs[c].objSize), len)
    || (len >= 2 * HEADER && HitElements(descs, secure, c, j + 1, x, len - 2 * HEADER))
  }

  // More bytes reach no less.

  lemma {:induction false} MoreObj(descs: seq<ObjDesc>, secure: bool, k: nat, x: int, len: nat, more: nat)
    requires k < |descs| && len <= more && HitObj(descs, secure, k, x, len)
    ensures HitObj(descs, secure, k, x, more)
    decreases len, 0
  {
    MoreMembers(descs, secure, k, x, len - HEADER, more - HEADER);
  }

  lemma {:induction false} MoreMembers(descs: seq<ObjDesc>, secure: bool, k: nat, x: int, len: nat, more: nat)
    requires k < |descs| && len <= more && HitMembers(descs, secure, k, x, len)
    ensures HitMembers(descs, secure, k, x, more)
    decreases len, 3
  {
    hide HitMem;
    var i :| 0 <= i < |descs[k].mems| && HitMem(descs, secure, k, i, x, len);
    MoreMem(descs, secure, k, i, x, len, more);
  }

  lemma {:induction false} MoreMem(descs: seq<ObjDesc>, secure: bool, k: nat, i: nat, x: int, len: nat, more: nat)
    requires k < |descs| && i < |descs[k].mems| && len <= more && HitMem(descs, secure, k, i, x, len)
    ensures HitMem(descs, secure, k, i, x, more)
    decreases len, 2
  {
    hide HitObj, HitElements;
    var m, c := descs[k].mems[i], Inner(descs, k, i);
    if IsObj(m.tag) {
      if IsArray(m.tag) {
        MoreElements(descs, secure, c, 0, x - m.offset, len - HEADER, more - HEADER);
      } else {
        MoreObj(descs, secure, c, x - m.offset, len, more);
      }
    }
  }

  lemma {:induction false} MoreElements(descs: seq<ObjDesc>, secure: bool, c: nat, j: nat, x: int, len: nat, more: nat)
    requires c < |descs| && len <= more && HitElements(descs, secure, c, j, x, len)
    ensures HitElements(descs, secure, c, j, x, more)
    decreases len, 1
  {
    hide HitObj;
    if HitObj(descs, secure, c, x - Times(j, descs[c].objSize), len) {
      MoreObj(descs, secure, c, x - Times(j, descs[c].objSize), len, more);
    } else {
      MoreElements(descs, secure, c, j + 1, x, len - 2 * HEADER, more - 2 * HEADER);
    }
  }

  // What is out of reach stays as it is, whatever the buffer holds.

  lemma {:induction false} ObjKept(descs: seq<ObjDesc>, secure: bool, mem: Memory, base: int, buf: seq<Byte>, at: nat,
                                   len: nat, x: int)
    requires at + len <= |buf|
    requires len >= HEADER ==>
               var k := Find(descs, ObjOf(U16(buf, at))); k >= 0 ==> !HitObj(descs, secure, k, x - base, len)
    ensures Read(RestoreObj(descs, secure, mem, base, buf, at, len).mem, x) == Read(mem, x)
    decreases len, 0
  {
    hide RestoreMembers, HitMembers, U16, U32, ObjOf, Find, Read;
    if len >= HEADER {
      var n, k := U32(buf, at + 4), Find(descs, ObjOf(U16(buf, at)));
      if k >= 0 && n <= len - HEADER {
        if HitMembers(descs, secure, k, x - base, n) {
          MoreMembers(descs, secure, k, x - base, n, len - HEADER);
        }
        MembersKept(descs, secure, k, mem, base, buf, at + HEADER, n, x);
      }
    }
  }

  lemma {:induction false} MembersKept(descs: seq<ObjDesc>, secure: bool, k: nat, mem: Memory, base: int,
                                       buf: seq<Byte>, at: nat, len: nat, x: int)
    requires at + len <= |buf| && k < |descs| && !HitMembers(descs, secure, k, x - base, len)
    ensures Read(RestoreMembers(descs, secure, k, mem, base, buf, at, len).mem, x) == Read(mem, x)
    decreases len, 2
  {
    hide RestoreMember, HitMembers, U32, Read;
    if len >= HEADER {
      MemberKept(descs, secure, k, mem, base, buf, at, len, x);
      var n, r := U32(buf, at + 4), RestoreMember(descs, secure, k, mem, base, buf, at, len);
      if r.ret != -1 {
        if HitMembers(descs, secure, k, x - base, len - HEADER - n) {
          MoreMembers(descs, secure, k, x - base, len - HEADER - n, len);
        }
        MembersKept(descs, secure, k, r.mem, base, buf, at + HEADER + n, len - HEADER - n, x);
      }
    }
  }

  lemma {:induction false} MemberKept(descs: seq<ObjDesc>, secure: bool, k: nat, mem: Memory, base: int,
                                      buf: seq<Byte>, at: nat, len: nat, x: int)
    requires at + len <= |buf| && k < |descs| && HEADER <= len && !HitMembers(descs, secure, k, x - base, len)
    ensures Read(RestoreMember(descs, secure, k, mem, base, buf, at, len).mem, x) == Read(mem, x)
    decreases len, 1
  {
    hide RestoreObj, RestoreArray, HitObj, HitElements, Write, U16, U32, ObjOf, IsObj, IsArray, Read, Find, FindMem;
    var tag, n := U16(buf, at), U32(buf, at + 4);
    var i := FindMem(descs[k].mems, tag);
    if i >= 0 {
      assert !HitMem(descs, secure, k, i, x - base, len);
      var m := descs[k].mems[i];
      if !IsObj(tag) {
        if n <= len - HEADER {
          WriteReads(mem, base + m.offset, buf[at + HEADER..at + HEADER + n], x);
        }
        WriteReads(mem, base + m.offset, seq<Byte>(m.length, _ => 0), x);
      } else if IsArray(tag) {
        ArrayKept(descs, secure, ObjOf(tag), mem, base + m.offset, buf, at, len, x);
      } else {
        ObjKept(descs, secure, mem, base + m.offset, buf, at, len, x);
      }
    }
  }

  lemma {:induction false} ArrayKept(descs: seq<ObjDesc>, secure: bool, id: nat, mem: Memory, base: int,
                                     buf: seq<Byte>, at: nat, len: nat, x: int)
    requires at + len <= |buf| && HEADER <= len
    requires var c := Find(descs, id); c >= 0 ==> !HitElements(descs, secure, c, 0, x - base, len - HEADER)
    ensures Read(RestoreArray(descs, secure, id, mem, base, buf, at, len).mem, x) == Read(mem, x)
    decreases len, 0
  {
    hide RestoreElements, HitElements, U32, Read;
    var n, c := U32(buf, at + 4), Find(descs, id);
    if c >= 0 && n <= len - HEADER {
      if HitElements(descs, secure, c, 0, x - base, n) {
        MoreElements(descs, secure, c, 0, x - base, n, len - HEADER);
      }
      ElementsKept(descs, secure, c, 0, mem, base, buf, at + HEADER, n, x);
    }
  }

  // An object that is restored has a member, so it takes two headers.
  lemma RestoredLength(descs: seq<ObjDesc>, secure: bool, mem: Memory, base: int, buf: seq<Byte>, at: nat, len: nat)
    requires at + len <= |buf| && RestoreObj(descs, secure, mem, base, buf, at, len).ret != -1
    ensures HEADER <= len && HEADER <= U32(buf, at + 4) <= len - HEADER
  {
    hide RestoreMember, U16, U32, ObjOf, Find;
  }

  lemma {:induction false} ElementsKept(descs: seq<ObjDesc>, secure: bool, c: nat, j: nat, mem: Memory, base: int,
                                        buf: seq<Byte>, at: nat, len: nat, x: int)
    requires at + len <= |buf| && c < |descs| && c == Find(descs, descs[c].objType)
    requires !HitElements(descs, secure, c, j, x - base, len)
    ensures Read(RestoreElements(descs, secure, c, j, mem, base, buf, at, len).mem, x) == Read(mem, x)
    decreases len, 1
  {
    hide RestoreObj, HitObj, U16, U32, ObjOf, Read, Times, Find;
    if len >= HEADER && ObjOf(U16(buf, at)) == descs[c].objType {
      var to := base + Times(j, descs[c].objSize);
      ObjKept(descs, secure, mem, to, buf, at, len, x);
      var n, r := U32(buf, at + 4), RestoreObj(descs, secure, mem, to, buf, at, len);
      if r.ret != -1 {
        RestoredLength(descs, secure, mem, to, buf, at, len);
        if HitElements(descs, secure, c, j + 1, x - base, len - HEADER - n) {
          MoreElements(descs, secure, c, j + 1, x - base, len - HEADER - n, len - 2 * HEADER);
        }
        ElementsKept(descs, secure, c, j + 1, r.mem, base, buf, at + HEADER + n, len - HEADER - n, x);
      }
    }
  }

  // A buffer that changes the byte at offset x to v: each header claims all bytes behind it.

  function HeaderBytes(tag: nat, n: nat): (b: seq<Byte>)
    ensures |b| == HEADER
  {
    [Digit(tag, 0), Digit(tag, 1), 0, 0, Digit(n, 0), Digit(n, 1), Digit(n, 2), Digit(n, 3)]
  }

  lemma HeaderThere(buf: seq<Byte>, at: nat, tag: nat, n: nat)
    requires at + HEADER <= |buf| && buf[at..at + HEADER] == HeaderBytes(tag, n) && tag <= U16_MAX && n <= U32_MAX
    ensures U16(buf, at) == tag && U32(buf, at + 4) == n
  {
    hide Digit;
    Digits(tag);
    Digits(n);
    var b := buf[at..at + HEADER];
    assert buf[at] == b[0] && buf[at + 1] == b[1];
    assert buf[at + 4] == b[4] && buf[at + 5] == b[5] && buf[at + 6] == b[6] && buf[at + 7] == b[7];
  }

  function Filled(n: nat, v: Byte): (b: seq<Byte>)
    ensures |b| == n
  {
    seq<Byte>(n, _ => v)
  }

  lemma HitSome(descs: seq<ObjDesc>, secure: bool, k: nat, x: int, len: nat)
    requires k < |descs| && HitMembers(descs, secure, k, x, len)
    ensures exists i :: 0 <= i < |descs[k].mems| && HitMem(descs, secure, k, i, x, len)
  {
  }

  ghost function MembersBytes(descs: seq<ObjDesc>, secure: bool, k: nat, x: int, len: nat, v: Byte): (b: seq<Byte>)
    requires k < |descs| && HitMembers(descs, secure, k, x, len)
    ensures |b| == len
    decreases len, 3
  {
    HitSome(descs, secure, k, x, len);
    var i :| 0 <= i < |descs[k].mems| && HitMem(descs, secure, k, i, x, len);
    MemBytes(descs, secure, k, i, x, len, v)
  }

  ghost function MemBytes(descs: seq<ObjDesc>, secure: bool, k: nat, i: nat, x: int, len: nat, v: Byte): (b: seq<Byte>)
    requires k < |descs| && i < |descs[k].mems| && HitMem(descs, secure, k, i, x, len)
    ensures |b| == len
    decreases len, 2
  {
    var m, c := descs[k].mems[i], Inner(descs, k, i);
    if !IsObj(m.tag) then
      var n := x - m.offset + 1;
      HeaderBytes(m.tag, n) + (Filled(n, v) + Filled(len - HEADER - n, 0))
    else if IsArray(m.tag) then
      HeaderBytes(m.tag, len - HEADER) + ElementsBytes(descs, secure, c, 0, x - m.offset, len - HEADER, v)
    else
      ObjBytes(descs, secure, m.tag, c, x - m.offset, len, v)
  }

  ghost function ObjBytes(descs: seq<ObjDesc>, secure: bool, tag: nat, k: nat, x: int, len: nat, v: Byte)
    : (b: seq<Byte>)
    requires k < |descs| && HitObj(descs, secure, k, x, len)
    ensures |b| == len
    decreases len, 0
  {
    HeaderBytes(tag, len - HEADER) + MembersBytes(descs, secure, k, x, len - HEADER, v)
  }

  ghost function ElementsBytes(descs: seq<ObjDesc>, secure: bool, c: nat, j: nat, x: int, len: nat, v: Byte)
    : (b: seq<Byte>)
    requires c < |descs| && HitElements(descs, secure, c, j, x, len)
    ensures |b| == len
    decreases len, 1
  {
    var tag, y := ObjTag(descs[c].objType, 0), x - Times(j, descs[c].objSize);
    if HitObj(descs, secure, c, y, len) then ObjBytes(descs, secure, tag, c, y, len, v)
    else
      HeaderBytes(tag, HEADER) + (HeaderBytes(0, 0) + ElementsBytes(descs, secure, c, j + 1, x, len - 2 * HEADER, v))
  }

  // The buffer holds b at position at.
  ghost predicate Holds(buf: seq<Byte>, at: nat, b: seq<Byte>) { at + |b| <= |buf| && buf[at..at + |b|] == b }

  lemma HoldsParts(buf: seq<Byte>, at: nat, a: seq<Byte>, b: seq<Byte>)
    requires Holds(buf, at, a + b)
    ensures Holds(buf, at, a) && Holds(buf, at + |a|, b)
  {
    var all := buf[at..at + |a + b|];
    assert all[..|a|] == a && all[|a|..] == b;
  }

  lemma HoldsHeader(buf: seq<Byte>, at: nat, tag: nat, n: nat, b: seq<Byte>)
    requires Holds(buf, at, HeaderBytes(tag, n) + b) && tag <= U16_MAX && n <= U32_MAX
    ensures at + HEADER + |b| <= |buf| && U16(buf, at) == tag && U32(buf, at + 4) == n && Holds(buf, at + HEADER, b)
  {
    hide HeaderBytes, U16, U32;
    HoldsParts(buf, at, HeaderBytes(tag, n), b);
    HeaderThere(buf, at, tag, n);
  }

  // Zeros are headers of empty members of type zero, which are skipped or copy nothing.
  lemma EmptyMember(descs: seq<ObjDesc>, secure: bool, k: nat, mem: Memory, base: int, buf: seq<Byte>, at: nat,
                    len: nat)
    requires at + len <= |buf| && k < |descs| && HEADER <= len && U16(buf, at) == 0 && U32(buf, at + 4) == 0
    ensures RestoreMember(descs, secure, k, mem, base, buf, at, len) == Outcome(0, mem)
  {
    assert !IsObj(0) && buf[at + HEADER..at + HEADER + 0] == [];
  }

  lemma ZeroHeader(buf: seq<Byte>, at: nat, len: nat)
    requires HEADER <= len && Holds(buf, at, Filled(len, 0))
    ensures U16(buf, at) == 0 && U32(buf, at + 4) == 0
  {
    var b := buf[at..at + len];
    assert buf[at] == b[0] && buf[at + 1] == b[1];
    assert buf[at + 4] == b[4] && buf[at + 5] == b[5] && buf[at + 6] == b[6] && buf[at + 7] == b[7];
  }

  lemma {:induction false} ZeroMembers(descs: seq<ObjDesc>, secure: bool, k: nat, mem: Memory, base: int,
                                       buf: seq<Byte>, at: nat, len: nat)
    requires k < |descs| && Holds(buf, at, Filled(len, 0))
    ensures RestoreMembers(descs, secure, k, mem, base, buf, at, len).mem == mem
    decreases len
  {
    hide RestoreMember;
    if len >= HEADER {
      ZeroHeader(buf, at, len);
      EmptyMember(descs, secure, k, mem, base, buf, at, len);
      assert buf[at + HEADER..at + len] == Filled(len - HEADER, 0);
      ZeroMembers(descs, secure, k, mem, base, buf, at + HEADER, len - HEADER);
    }
  }

  lemma HitLength(descs: seq<ObjDesc>, secure: bool, k: nat, x: int, len: nat)
    requires k < |descs| && HitMembers(descs, secure, k, x, len)
    ensures HEADER <= len
  {
  }

  lemma {:induction false} ObjSet(descs: seq<ObjDesc>, secure: bool, tag: nat, k: nat, mem: Memory, base: int,
                                  buf: seq<Byte>, at: nat, len: nat, x: int, v: Byte)
    requires TagsFit(descs) && len <= U32_MAX && tag <= U16_MAX && IsObj(tag) && k == Find(descs, ObjOf(tag)) >= 0
    requires HitObj(descs, secure, k, x - base, len)
    requires Holds(buf, at, ObjBytes(descs, secure, tag, k, x - base, len, v))
    ensures at + len <= |buf| && Read(RestoreObj(descs, secure, mem, base, buf, at, len).mem, x) == v
    ensures len >= HEADER && U16(buf, at) == tag && U32(buf, at + 4) == len - HEADER
    decreases len, 0
  {
    hide RestoreMembers, MembersBytes, HitMembers, HeaderBytes, U16, U32, ObjOf, IsObj, Find, Read, Holds;
    HoldsHeader(buf, at, tag, len - HEADER, MembersBytes(descs, secure, k, x - base, len - HEADER, v));
    HitLength(descs, secure, k, x - base, len - HEADER);
    MembersSet(descs, secure, k, mem, base, buf, at + HEADER, len - HEADER, x, v);
  }

  lemma {:induction false} MembersSet(descs: seq<ObjDesc>, secure: bool, k: nat, mem: Memory, base: int,
                                      buf: seq<Byte>, at: nat, len: nat, x: int, v: Byte)
    requires TagsFit(descs) && len <= U32_MAX && k < |descs| && HitMembers(descs, secure, k, x - base, len)
    requires Holds(buf, at, MembersBytes(descs, secure, k, x - base, len, v))
    ensures at + len <= |buf| && Read(RestoreMembers(descs, secure, k, mem, base, buf, at, len).mem, x) == v
    decreases len, 3
  {
    hide RestoreMember, MemBytes, HitMem, U32, Read;
    var i :| 0 <= i < |descs[k].mems| && HitMem(descs, secure, k, i, x - base, len) &&
             MembersBytes(descs, secure, k, x - base, len, v) == MemBytes(descs, secure, k, i, x - base, len, v);
    HitLength(descs, secure, k, x - base, len);
    MemberSet(descs, secure, k, i, mem, base, buf, at, len, x, v);
    var n, r := U32(buf, at + 4), RestoreMember(descs, secure, k, mem, base, buf, at, len);
    if r.ret != -1 {
      ZeroMembers(descs, secure, k, r.mem, base, buf, at + HEADER + n, len - HEADER - n);
    }
  }

  lemma {:induction false} MemberSet(descs: seq<ObjDesc>, secure: bool, k: nat, i: nat, mem: Memory, base: int,
                                     buf: seq<Byte>, at: nat, len: nat, x: int, v: Byte)
    requires TagsFit(descs) && len <= U32_MAX && k < |descs| && i < |descs[k].mems|
    requires HitMem(descs, secure, k, i, x - base, len)
    requires Holds(buf, at, MemBytes(descs, secure, k, i, x - base, len, v))
    ensures at + len <= |buf| && HEADER <= len && HEADER + U32(buf, at + 4) <= len
    ensures Read(RestoreMember(descs, secure, k, mem, base, buf, at, len).mem, x) == v
    ensures var n := U32(buf, at + 4); Holds(buf, at + HEADER + n, Filled(len - HEADER - n, 0))
    decreases len, 2
  {
    hide RestoreObj, RestoreArray, ObjBytes, ElementsBytes, HitObj, HitElements, HeaderBytes, Filled, Write, U16, U32,
      ObjOf, IsObj, IsArray, Find, FindMem, Read, Holds;
    var m, c := descs[k].mems[i], Inner(descs, k, i);
    NoneLeft(buf, at + len);
    if !IsObj(m.tag) {
      LeafSet(buf, at, m.tag, x - base - m.offset + 1, len, v, mem, base + m.offset, x);
    } else if IsArray(m.tag) {
      HoldsHeader(buf, at, m.tag, len - HEADER,
                  ElementsBytes(descs, secure, c, 0, x - base - m.offset, len - HEADER, v));
      ArraySet(descs, secure, k, i, mem, base + m.offset, buf, at, len, x, v);
    } else {
      ObjSet(descs, secure, m.tag, c, mem, base + m.offset, buf, at, len, x, v);
    }
  }

  lemma NoneLeft(buf: seq<Byte>, at: nat)
    ensures at <= |buf| ==> Holds(buf, at, Filled(0, 0))
  {
  }

  lemma LeafSet(buf: seq<Byte>, at: nat, tag: nat, n: nat, len: nat, v: Byte, mem: Memory, to: int, x: int)
    requires tag <= U16_MAX && HEADER + n <= len <= U32_MAX && 0 < n && x == to + n - 1
    requires Holds(buf, at, HeaderBytes(tag, n) + (Filled(n, v) + Filled(len - HEADER - n, 0)))
    ensures at + len <= |buf| && U16(buf, at) == tag && U32(buf, at + 4) == n
    ensures Read(Write(mem, to, buf[at + HEADER..at + HEADER + n]), x) == v
    ensures Holds(buf, at + HEADER + n, Filled(len - HEADER - n, 0))
  {
    hide U16, U32, HeaderBytes, Write, Read;
    HoldsHeader(buf, at, tag, n, Filled(n, v) + Filled(len - HEADER - n, 0));
    HoldsParts(buf, at + HEADER, Filled(n, v), Filled(len - HEADER - n, 0));
    WriteReads(mem, to, buf[at + HEADER..at + HEADER + n], x);
  }

  lemma {:induction false} ArraySet(descs: seq<ObjDesc>, secure: bool, k: nat, i: nat, mem: Memory, base: int,
                                    buf: seq<Byte>, at: nat, len: nat, x: int, v: Byte)
    requires TagsFit(descs) && HEADER <= len <= U32_MAX && k < |descs| && i < |descs[k].mems|
    requires Inner(descs, k, i) >= 0 && at + len <= |buf| && U32(buf, at + 4) == len - HEADER
    requires HitElements(descs, secure, Inner(descs, k, i), 0, x - base, len - HEADER)
    requires Holds(buf, at + HEADER, ElementsBytes(descs, secure, Inner(descs, k, i), 0, x - base, len - HEADER, v))
    ensures Read(RestoreArray(descs, secure, ObjOf(descs[k].mems[i].tag), mem, base, buf, at, len).mem, x) == v
    decreases len, 1
  {
    hide RestoreElements, ElementsBytes, HitElements, U32, Read, Find, Holds;
    InnerFound(descs, k, i);
    ElementsLength(descs, secure, Inner(descs, k, i), 0, x - base, len - HEADER);
    ElementsSet(descs, secure, Inner(descs, k, i), 0, mem, base, buf, at + HEADER, len - HEADER, x, v);
  }

  lemma ElementsLength(descs: seq<ObjDesc>, secure: bool, c: nat, j: nat, x: int, len: nat)
    requires c < |descs| && HitElements(descs, secure, c, j, x, len)
    ensures HEADER <= len
  {
  }

  // An element that changes nothing.
  lemma FillerRestored(descs: seq<ObjDesc>, secure: bool, c: nat, mem: Memory, base: int, buf: seq<Byte>, at: nat,
                       len: nat)
    requires c < |descs| && c == Find(descs, descs[c].objType) && descs[c].objType < 128
    requires 2 * HEADER <= len && at + len <= |buf|
    requires U16(buf, at) == ObjTag(descs[c].objType, 0) && U32(buf, at + 4) == HEADER
    requires U16(buf, at + HEADER) == 0 && U32(buf, at + HEADER + 4) == 0
    ensures ObjOf(U16(buf, at)) == descs[c].objType
    ensures var r := RestoreObj(descs, secure, mem, base, buf, at, len); r.ret != -1 && r.mem == mem
  {
    hide RestoreMember, U16, U32, ObjOf, IsObj, Find, ObjTag;
    ElementTag(descs[c].objType);
    EmptyMember(descs, secure, c, mem, base, buf, at + HEADER, HEADER);
    assert RestoreMembers(descs, secure, c, mem, base, buf, at + 2 * HEADER, 0) == Outcome(0, mem);
    assert RestoreMembers(descs, secure, c, mem, base, buf, at + HEADER, HEADER) == Outcome(0, mem);
  }

  lemma {:induction false} ElementsSet(descs: seq<ObjDesc>, secure: bool, c: nat, j: nat, mem: Memory, base: int,
                                       buf: seq<Byte>, at: nat, len: nat, x: int, v: Byte)
    requires TagsFit(descs) && len <= U32_MAX && c < |descs| && c == Find(descs, descs[c].objType)
    requires descs[c].objType < 128 && HitElements(descs, secure, c, j, x - base, len)
    requires Holds(buf, at, ElementsBytes(descs, secure, c, j, x - base, len, v))
    ensures at + len <= |buf| && Read(RestoreElements(descs, secure, c, j, mem, base, buf, at, len).mem, x) == v
    decreases len, 1
  {
    hide RestoreObj, ObjBytes, HitObj, HeaderBytes, U16, U32, ObjOf, IsObj, Find, Read, Times, ObjTag, Holds;
    var tag, to := ObjTag(descs[c].objType, 0), base + Times(j, descs[c].objSize);
    ElementTag(descs[c].objType);
    StoreTag(descs[c].objType);
    if HitObj(descs, secure, c, x - to, len) {
      ObjSet(descs, secure, tag, c, mem, to, buf, at, len, x, v);
    } else {
      var rest := ElementsBytes(descs, secure, c, j + 1, x - base, len - 2 * HEADER, v);
      HoldsHeader(buf, at, tag, HEADER, HeaderBytes(0, 0) + rest);
      HoldsHeader(buf, at + HEADER, 0, 0, rest);
      FillerRestored(descs, secure, c, mem, to, buf, at, len);
      ElementsSet(descs, secure, c, j + 1, mem, base, buf, at + 2 * HEADER, len - 2 * HEADER, x, v);
    }
  }

  // The buffer is for object k.
  ghost predicate IsFor(descs: seq<ObjDesc>, k: nat, buf: seq<Byte>)
    requires k < |descs|
  {
    HEADER <= |buf| && ObjOf(U16(buf, 0)) == descs[k].objType
  }

  ghost predicate Changes(descs: seq<ObjDesc>, secure: bool, mem: Memory, base: int, buf: seq<Byte>, x: int) {
    Read(RestoreObj(descs, secure, mem, base, buf, 0, |buf|).mem, x) != Read(mem, x)
  }

  /**
   For every table, memory and byte, with the plain and with the checked copy: some buffer
   of len bytes for object k changes the byte if and only if its offset is within reach.
   */
  lemma ChangeIff(descs: seq<ObjDesc>, secure: bool, k: nat, mem: Memory, base: int, x: int, len: nat)
    requires TagsFit(descs) && len <= U32_MAX && k < |descs|
    requires k == Find(descs, descs[k].objType) && descs[k].objType < 128
    ensures (exists buf: seq<Byte> ::
              |buf| == len && IsFor(descs, k, buf) && Changes(descs, secure, mem, base, buf, x)) <==>
            HitObj(descs, secure, k, x - base, len)
  {
    hide RestoreObj, HitObj, ObjBytes, Find, ObjOf, U16, U32, Read, ObjTag, IsObj;
    if HitObj(descs, secure, k, x - base, len) {
      var v: Byte := if Read(mem, x) == 0 then 1 else 0;
      var tag := ObjTag(descs[k].objType, 0);
      ElementTag(descs[k].objType);
      StoreTag(descs[k].objType);
      var buf := ObjBytes(descs, secure, tag, k, x - base, len, v);
      assert buf[0..0 + |buf|] == buf;
      ObjSet(descs, secure, tag, k, mem, base, buf, 0, len, x, v);
      assert |buf| == len && IsFor(descs, k, buf) && Changes(descs, secure, mem, base, buf, x);
    } else {
      forall buf: seq<Byte> | |buf| == len && IsFor(descs, k, buf)
        ensures !Changes(descs, secure, mem, base, buf, x)
      {
        ObjKept(descs, secure, mem, base, buf, 0, len, x);
      }
    }
  }

  // With the checked copy, no buffer of len bytes changes a byte that is not described if
  // and only if all offsets within reach are described.
  lemma DescribedIff(descs: seq<ObjDesc>, rank: seq<nat>, k: nat, mem: Memory, base: int, len: nat)
    requires Acyclic(descs, rank) && TagsFit(descs) && len <= U32_MAX && k < |descs|
    requires k == Find(descs, descs[k].objType) && descs[k].objType < 128
    ensures (forall buf: seq<Byte>, x |
              |buf| == len && IsFor(descs, k, buf) && Changes(descs, true, mem, base, buf, x) ::
              Described(descs, rank, k, x - base)) <==>
            (forall y | HitObj(descs, true, k, y, len) :: Described(descs, rank, k, y))
  {
    hide RestoreObj, HitObj, Find, ObjOf, Described, Changes, IsFor, Acyclic, TagsFit;
    if forall y | HitObj(descs, true, k, y, len) :: Described(descs, rank, k, y) {
      forall buf: seq<Byte>, x | |buf| == len && IsFor(descs, k, buf) && Changes(descs, true, mem, base, buf, x)
        ensures Described(descs, rank, k, x - base)
      {
        ChangeIff(descs, true, k, mem, base, x, len);
      }
    } else {
      var y :| HitObj(descs, true, k, y, len) && !Described(descs, rank, k, y);
      ChangeIff(descs, true, k, mem, base, base + y, len);
      var buf: seq<Byte> :|
        |buf| == len && IsFor(descs, k, buf) && Changes(descs, true, mem, base, buf, base + y);
      assert !Described(descs, rank, k, base + y - base);
    }
  }
}
