// What restoring can read and write, for every buffer.
module SnapshotBounds {
  import opened SnapshotFormat
  import opened SnapshotStore
  import opened SnapshotRestore

  // The two buffers hold the same len bytes from position at on.
  ghost predicate Agree(a: seq<Byte>, b: seq<Byte>, at: nat, len: nat) {
    && at + len <= |a| && at + len <= |b|
    && forall i | at <= i < at + len :: a[i] == b[i]
  }

  lemma AgreeHeader(a: seq<Byte>, b: seq<Byte>, at: nat, len: nat)
    requires Agree(a, b, at, len) && HEADER <= len
    ensures U16(a, at) == U16(b, at) && U32(a, at + 4) == U32(b, at + 4)
  {
  }

  lemma AgreeInside(a: seq<Byte>, b: seq<Byte>, at: nat, len: nat, p: nat, n: nat)
    requires Agree(a, b, at, len) && at <= p && p + n <= at + len
    ensures Agree(a, b, p, n) && a[p..p + n] == b[p..p + n]
  {
  }

  // Restoring depends on the bytes it was given alone: it reads nothing outside them.
  lemma {:induction false} ReadsInside(descs: seq<ObjDesc>, secure: bool, mem: Memory, base: int, a: seq<Byte>,
                                       b: seq<Byte>, at: nat, len: nat)
    requires Agree(a, b, at, len)
    ensures RestoreObj(descs, secure, mem, base, a, at, len) == RestoreObj(descs, secure, mem, base, b, at, len)
    decreases len, 0
  {
    hide RestoreMembers, U16, U32, ObjOf, Agree;
    AgreeBounds(a, b, at, len);
    if len >= HEADER {
      AgreeHeader(a, b, at, len);
      var n := U32(a, at + 4);
      var k := Find(descs, ObjOf(U16(a, at)));
      if k >= 0 && n <= len - HEADER {
        AgreeInside(a, b, at, len, at + HEADER, n);
        MembersInside(descs, secure, k, mem, base, a, b, at + HEADER, n);
      }
    }
  }

  lemma AgreeBounds(a: seq<Byte>, b: seq<Byte>, at: nat, len: nat)
    requires Agree(a, b, at, len)
    ensures at + len <= |a| && at + len <= |b|
  {
  }

  lemma {:induction false} MembersInside(descs: seq<ObjDesc>, secure: bool, k: nat, mem: Memory, base: int,
                                         a: seq<Byte>, b: seq<Byte>, at: nat, len: nat)
    requires Agree(a, b, at, len) && k < |descs|
    ensures at + len <= |a| && at + len <= |b|
    ensures RestoreMembers(descs, secure, k, mem, base, a, at, len) ==
            RestoreMembers(descs, secure, k, mem, base, b, at, len)
    decreases len, 2
  {
    hide RestoreMember, U32, Agree;
    AgreeBounds(a, b, at, len);
    if len >= HEADER {
      AgreeHeader(a, b, at, len);
      MemberInside(descs, secure, k, mem, base, a, b, at, len);
      var n, r := U32(a, at + 4), RestoreMember(descs, secure, k, mem, base, a, at, len);
      if r.ret != -1 {
        AgreeInside(a, b, at, len, at + HEADER + n, len - HEADER - n);
        MembersInside(descs, secure, k, r.mem, base, a, b, at + HEADER + n, len - HEADER - n);
      }
    }
  }

  lemma {:induction false} MemberInside(descs: seq<ObjDesc>, secure: bool, k: nat, mem: Memory, base: int,
                                        a: seq<Byte>, b: seq<Byte>, at: nat, len: nat)
    requires Agree(a, b, at, len) && k < |descs| && HEADER <= len
    ensures at + len <= |a| && at + len <= |b|
    ensures RestoreMember(descs, secure, k, mem, base, a, at, len) ==
            RestoreMember(descs, secure, k, mem, base, b, at, len)
    decreases len, 1
  {
    hide RestoreObj, RestoreArray, Write, U16, U32, ObjOf, IsObj, IsArray, Agree;
    AgreeBounds(a, b, at, len);
    AgreeHeader(a, b, at, len);
    var tag, n := U16(a, at), U32(a, at + 4);
    var i := FindMem(descs[k].mems, tag);
    if i >= 0 {
      var m := descs[k].mems[i];
      if IsObj(tag) {
        if IsArray(tag) {
          ArrayInside(descs, secure, ObjOf(tag), mem, base + m.offset, a, b, at, len);
        } else {
          ReadsInside(descs, secure, mem, base + m.offset, a, b, at, len);
        }
      } else if n <= len - HEADER {
        AgreeInside(a, b, at, len, at + HEADER, n);
      }
    }
  }

  lemma {:induction false} ArrayInside(descs: seq<ObjDesc>, secure: bool, id: nat, mem: Memory, base: int,
                                       a: seq<Byte>, b: seq<Byte>, at: nat, len: nat)
    requires Agree(a, b, at, len)
    ensures at + len <= |a| && at + len <= |b|
    ensures RestoreArray(descs, secure, id, mem, base, a, at, len) ==
            RestoreArray(descs, secure, id, mem, base, b, at, len)
    decreases len, 0
  {
    hide RestoreElements, U32, Agree;
    AgreeBounds(a, b, at, len);
    if len >= HEADER {
      AgreeHeader(a, b, at, len);
      var n, k := U32(a, at + 4), Find(descs, id);
      if k >= 0 && n <= len - HEADER {
        AgreeInside(a, b, at, len, at + HEADER, n);
        ElementsInside(descs, secure, k, 0, mem, base, a, b, at + HEADER, n);
      }
    }
  }

  lemma {:induction false} ElementsInside(descs: seq<ObjDesc>, secure: bool, k: nat, j: nat, mem: Memory, base: int,
                                          a: seq<Byte>, b: seq<Byte>, at: nat, len: nat)
    requires Agree(a, b, at, len) && k < |descs|
    ensures at + len <= |a| && at + len <= |b|
    ensures RestoreElements(descs, secure, k, j, mem, base, a, at, len) ==
            RestoreElements(descs, secure, k, j, mem, base, b, at, len)
    decreases len, 1
  {
    hide RestoreObj, U16, U32, ObjOf, Agree, Times;
    AgreeBounds(a, b, at, len);
    if len >= HEADER && ObjOf(U16(a, at)) == descs[k].objType {
      AgreeHeader(a, b, at, len);
      var to := base + Times(j, descs[k].objSize);
      ReadsInside(descs, secure, mem, to, a, b, at, len);
      var n, r := U32(a, at + 4), RestoreObj(descs, secure, mem, to, a, at, len);
      if r.ret != -1 {
        AgreeInside(a, b, at, len, at + HEADER + n, len - HEADER - n);
        ElementsInside(descs, secure, k, j + 1, r.mem, base, a, b, at + HEADER + n, len - HEADER - n);
      }
    } else if len >= HEADER {
      AgreeHeader(a, b, at, len);
    }
  }

  // The checked copy refuses more bytes than a plain member has, and clears the member.
  lemma RefusedClears(descs: seq<ObjDesc>, k: nat, mem: Memory, base: int, buf: seq<Byte>, at: nat, len: nat, x: int)
    requires at + len <= |buf| && k < |descs| && HEADER <= len && HEADER + U32(buf, at + 4) <= len
    requires var tag := U16(buf, at); var i := FindMem(descs[k].mems, tag);
             !IsObj(tag) && i >= 0 && descs[k].mems[i].length < U32(buf, at + 4)
    ensures var m := descs[k].mems[FindMem(descs[k].mems, U16(buf, at))];
            var r := RestoreMember(descs, true, k, mem, base, buf, at, len);
            && r.ret == -1
            && Read(r.mem, x) == if base + m.offset <= x < base + m.offset + m.length then 0 else Read(mem, x)
  {
    hide Write, U16, U32, IsObj, FindMem, Read;
    var m := descs[k].mems[FindMem(descs[k].mems, U16(buf, at))];
    WriteReads(mem, base + m.offset, seq<Byte>(m.length, _ => 0), x);
  }

  // No array in the buffer has more elements than its member has room for. Restoring
  // does not compare the two.

  predicate FitObj(descs: seq<ObjDesc>, buf: seq<Byte>, at: nat, len: nat)
    requires at + len <= |buf|
    decreases len, 0
  {
    len < HEADER ||
    var n, k := U32(buf, at + 4), Find(descs, ObjOf(U16(buf, at)));
    k < 0 || len - HEADER < n || FitMembers(descs, k, buf, at + HEADER, n)
  }

  predicate FitMembers(descs: seq<ObjDesc>, k: nat, buf: seq<Byte>, at: nat, len: nat)
    requires at + len <= |buf| && k < |descs|
    decreases len, 2
  {
    len < HEADER ||
    var n := U32(buf, at + 4);
    && FitMember(descs, k, buf, at, len)
    && (n <= len - HEADER ==> FitMembers(descs, k, buf, at + HEADER + n, len - HEADER - n))
  }

  predicate FitMember(descs: seq<ObjDesc>, k: nat, buf: seq<Byte>, at: nat, len: nat)
    requires at + len <= |buf| && k < |descs| && HEADER <= len
    decreases len, 1
  {
    var tag := U16(buf, at);
    var i := FindMem(descs[k].mems, tag);
    i >= 0 && IsObj(tag) ==>
      if IsArray(tag) then FitArray(descs, ObjOf(tag), Elements(descs, k, i), buf, at, len)
      else FitObj(descs, buf, at, len)
  }

  predicate FitArray(descs: seq<ObjDesc>, id: nat, room: nat, buf: seq<Byte>, at: nat, len: nat)
    requires at + len <= |buf|
    decreases len, 0
  {
    len < HEADER ||
    var n, k := U32(buf, at + 4), Find(descs, id);
    k < 0 || len - HEADER < n || FitElements(descs, k, 0, room, buf, at + HEADER, n)
  }

  predicate FitElements(descs: seq<ObjDesc>, k: nat, j: nat, room: nat, buf: seq<Byte>, at: nat, len: nat)
    requires at + len <= |buf| && k < |descs|
    decreases len, 1
  {
    len < HEADER || ObjOf(U16(buf, at)) != descs[k].objType ||
    var n := U32(buf, at + 4);
    && j < room && FitObj(descs, buf, at, len)
    && (n <= len - HEADER ==> FitElements(descs, k, j + 1, room, buf, at + HEADER + n, len - HEADER - n))
  }

  // Offset x of object k lies under a plain member of it, or of an object inside it.
  ghost predicate Described(descs: seq<ObjDesc>, rank: seq<nat>, k: nat, x: int)
    requires Acyclic(descs, rank) && k < |descs|
  {
    Covers(descs, descs, rank, k, x)
  }

  lemma {:induction false} MemDescribed(descs: seq<ObjDesc>, rank: seq<nat>, k: nat, j: nat, i: nat, x: int)
    requires Acyclic(descs, rank) && k < |descs| && j <= i < |descs[k].mems|
    requires CoversMem(descs, descs, rank, k, i, x)
    ensures CoversFrom(descs, descs, rank, k, j, x)
    decreases i - j
  {
    hide CoversMem;
    if j < i {
      MemDescribed(descs, rank, k, j + 1, i, x);
    }
  }

  lemma {:induction false} ElementDescribed(descs: seq<ObjDesc>, rank: seq<nat>, c: nat, i: nat, j: nat, n: nat, x: int)
    requires Acyclic(descs, rank) && c < |descs| && i <= j < n
    requires Covers(descs, descs, rank, c, x - Times(j, descs[c].objSize))
    ensures CoversElements(descs, descs, rank, c, i, n, x)
    decreases j - i
  {
    hide Covers, Times;
    if i < j {
      ElementDescribed(descs, rank, c, i + 1, j, n, x);
    }
  }

  // Every byte of a plain member is described, and so is what an object in it describes, for
  // every element that an array has room for.
  lemma AllDescribed(descs: seq<ObjDesc>, rank: seq<nat>, k: nat, i: nat, j: nat, x: int)
    requires Acyclic(descs, rank) && k < |descs| && k == Find(descs, descs[k].objType) && i < |descs[k].mems|
    requires FindMem(descs[k].mems, descs[k].mems[i].tag) == i
    requires var m, c := descs[k].mems[i], Inner(descs, k, i);
      if !IsObj(m.tag) then m.offset <= x < m.offset + m.length
      else if !IsArray(m.tag) then c >= 0 && Described(descs, rank, c, x - m.offset)
      else c >= 0 && j < Elements(descs, k, i) && Described(descs, rank, c, x - m.offset - Times(j, descs[c].objSize))
    ensures Described(descs, rank, k, x)
  {
    hide Covers, CoversElements, Times, Find, FindMem;
    var m, c := descs[k].mems[i], Inner(descs, k, i);
    if IsObj(m.tag) && IsArray(m.tag) {
      ElementDescribed(descs, rank, c, 0, j, Elements(descs, k, i), x - m.offset);
    }
    assert CoversMem(descs, descs, rank, k, i, x);
    MemDescribed(descs, rank, k, 0, i, x);
    CoversWhole(descs, rank, k, x);
  }

  lemma CoversWhole(descs: seq<ObjDesc>, rank: seq<nat>, k: nat, x: int)
    requires Acyclic(descs, rank) && k < |descs| && CoversFrom(descs, descs, rank, k, 0, x)
    ensures Described(descs, rank, k, x)
  {
  }

  // With the checked copy a buffer whose arrays fit, however malformed, changes described
  // bytes alone, also when restoring ends in an error.
  lemma {:induction false} WritesDescribed(descs: seq<ObjDesc>, rank: seq<nat>, mem: Memory, base: int, buf: seq<Byte>,
                                           at: nat, len: nat, x: int)
    requires Acyclic(descs, rank) && at + len <= |buf| && FitObj(descs, buf, at, len)
    requires HEADER <= len ==>
               var k := Find(descs, ObjOf(U16(buf, at))); k >= 0 ==> !Described(descs, rank, k, x - base)
    ensures Read(RestoreObj(descs, true, mem, base, buf, at, len).mem, x) == Read(mem, x)
    decreases len, 0
  {
    hide RestoreMembers, FitMembers, Covers, U16, U32, ObjOf, Find, Read;
    if len >= HEADER {
      var n, k := U32(buf, at + 4), Find(descs, ObjOf(U16(buf, at)));
      if k >= 0 && n <= len - HEADER {
        MembersDescribed(descs, rank, k, mem, base, buf, at + HEADER, n, x);
      }
    }
  }

  lemma {:induction false} MembersDescribed(descs: seq<ObjDesc>, rank: seq<nat>, k: nat, mem: Memory, base: int,
                                            buf: seq<Byte>, at: nat, len: nat, x: int)
    requires Acyclic(descs, rank) && at + len <= |buf| && k < |descs| && FitMembers(descs, k, buf, at, len)
    requires !Described(descs, rank, k, x - base) && k == Find(descs, descs[k].objType)
    ensures Read(RestoreMembers(descs, true, k, mem, base, buf, at, len).mem, x) == Read(mem, x)
    decreases len, 2
  {
    hide RestoreMember, FitMember, Covers, U32, Read;
    if len >= HEADER {
      MemberDescribed(descs, rank, k, mem, base, buf, at, len, x);
      var n, r := U32(buf, at + 4), RestoreMember(descs, true, k, mem, base, buf, at, len);
      if r.ret != -1 {
        MembersDescribed(descs, rank, k, r.mem, base, buf, at + HEADER + n, len - HEADER - n, x);
      }
    }
  }

  lemma {:induction false} MemberDescribed(descs: seq<ObjDesc>, rank: seq<nat>, k: nat, mem: Memory, base: int,
                                           buf: seq<Byte>, at: nat, len: nat, x: int)
    requires Acyclic(descs, rank) && at + len <= |buf| && k < |descs| && HEADER <= len
    requires FitMember(descs, k, buf, at, len) && !Described(descs, rank, k, x - base)
    requires k == Find(descs, descs[k].objType)
    ensures Read(RestoreMember(descs, true, k, mem, base, buf, at, len).mem, x) == Read(mem, x)
    decreases len, 1
  {
    hide RestoreObj, RestoreArray, FitObj, FitArray, Described, Write, U16, U32, ObjOf, IsObj, IsArray, Read;
    var tag, n := U16(buf, at), U32(buf, at + 4);
    var i := FindMem(descs[k].mems, tag);
    if i >= 0 {
      var m := descs[k].mems[i];
      NotDescribed(descs, rank, k, i, x - base);
      if !IsObj(tag) {
        if n <= len - HEADER {
          WriteReads(mem, base + m.offset, buf[at + HEADER..at + HEADER + n], x);
        }
        WriteReads(mem, base + m.offset, seq<Byte>(m.length, _ => 0), x);
      } else if IsArray(tag) {
        ArrayDescribed(descs, rank, k, i, mem, base + m.offset, buf, at, len, x);
      } else {
        WritesDescribed(descs, rank, mem, base + m.offset, buf, at, len, x);
      }
    }
  }

  // What an offset outside the object means for member i.
  lemma NotDescribed(descs: seq<ObjDesc>, rank: seq<nat>, k: nat, i: nat, x: int)
    requires Acyclic(descs, rank) && k < |descs| && i < |descs[k].mems| && !Described(descs, rank, k, x)
    requires FindMem(descs[k].mems, descs[k].mems[i].tag) == i && k == Find(descs, descs[k].objType)
    ensures var m, c := descs[k].mems[i], Inner(descs, k, i);
            if !IsObj(m.tag) then !(m.offset <= x < m.offset + m.length)
            else c >= 0 ==>
              if IsArray(m.tag) then !CoversElements(descs, descs, rank, c, 0, Elements(descs, k, i), x - m.offset)
              else !Described(descs, rank, c, x - m.offset)
  {
    hide CoversFrom, CoversElements;
    if CoversMem(descs, descs, rank, k, i, x) {
      MemDescribed(descs, rank, k, 0, i, x);
    }
  }

  lemma {:induction false} ArrayDescribed(descs: seq<ObjDesc>, rank: seq<nat>, k: nat, i: nat, mem: Memory, base: int,
                                          buf: seq<Byte>, at: nat, len: nat, x: int)
    requires Acyclic(descs, rank) && at + len <= |buf| && k < |descs| && i < |descs[k].mems|
    requires FitArray(descs, ObjOf(descs[k].mems[i].tag), Elements(descs, k, i), buf, at, len)
    requires var c := Inner(descs, k, i);
             c >= 0 ==> !CoversElements(descs, descs, rank, c, 0, Elements(descs, k, i), x - base)
    ensures Read(RestoreArray(descs, true, ObjOf(descs[k].mems[i].tag), mem, base, buf, at, len).mem, x) == Read(mem, x)
    decreases len, 0
  {
    hide RestoreElements, FitElements, CoversElements, U32, ObjOf, Find, Read;
    if len >= HEADER {
      var n, c := U32(buf, at + 4), Inner(descs, k, i);
      if c >= 0 && n <= len - HEADER {
        ElementsDescribed(descs, rank, c, 0, Elements(descs, k, i), mem, base, buf, at + HEADER, n, x);
      }
    }
  }

  lemma {:induction false} ElementsDescribed(descs: seq<ObjDesc>, rank: seq<nat>, c: nat, j: nat, room: nat,
                                             mem: Memory, base: int, buf: seq<Byte>, at: nat, len: nat, x: int)
    requires Acyclic(descs, rank) && at + len <= |buf| && c < |descs| && FitElements(descs, c, j, room, buf, at, len)
    requires !CoversElements(descs, descs, rank, c, 0, room, x - base) && c == Find(descs, descs[c].objType)
    ensures Read(RestoreElements(descs, true, c, j, mem, base, buf, at, len).mem, x) == Read(mem, x)
    decreases len, 1
  {
    hide RestoreObj, FitObj, Covers, CoversElements, U16, U32, ObjOf, Read, Times, Find;
    if len >= HEADER && ObjOf(U16(buf, at)) == descs[c].objType {
      var to := base + Times(j, descs[c].objSize);
      if Covers(descs, descs, rank, c, x - to) {
        ElementDescribed(descs, rank, c, 0, j, room, x - base);
      }
      WritesDescribed(descs, rank, mem, to, buf, at, len, x);
      var n, r := U32(buf, at + 4), RestoreObj(descs, true, mem, to, buf, at, len);
      if r.ret != -1 {
        ElementsDescribed(descs, rank, c, j + 1, room, r.mem, base, buf, at + HEADER + n, len - HEADER - n, x);
      }
    }
  }

  // An object 2 with an array of one object 1, which has one byte.
  ghost predicate OneElement(d: seq<ObjDesc>) {
    d == [ObjDesc(1, 1, [MemDesc(4, 1, 0)]), ObjDesc(2, 1, [MemDesc(519, 1, 0)])]
  }

  lemma OneElementFinds(d: seq<ObjDesc>)
    requires OneElement(d)
    ensures |d| == 2 && Find(d, 1) == 0 && Find(d, 2) == 1 && FindMem(d[0].mems, 4) == 0 && FindMem(d[1].mems, 519) == 0
    ensures d[0] == ObjDesc(1, 1, [MemDesc(4, 1, 0)]) && d[1] == ObjDesc(2, 1, [MemDesc(519, 1, 0)])
    ensures ObjOf(514) == 1 && IsObj(514) && ObjOf(519) == 1 && IsObj(519) && IsArray(519) && !IsObj(4)
    ensures ObjOf(1026) == 2 && IsObj(1026)
  {
    assert d[1..][0] == d[1];
  }

  // A stored object 1 with byte 7 at position at.
  predicate ElementIn(b: seq<Byte>, at: nat) {
    && at + 17 <= |b| && b[at + 16] == 7
    && HeaderAt(b, at, 514, 9) && HeaderAt(b, at + 8, 4, 1)
  }

  lemma ElementRestored(d: seq<ObjDesc>, b: seq<Byte>, mem: Memory, base: int, at: nat, len: nat)
    requires OneElement(d) && ElementIn(b, at) && 17 <= len && at + len <= |b|
    ensures RestoreObj(d, true, mem, base, b, at, len) == Outcome(514, mem[base := 7])
  {
    hide OneElement, Find, FindMem, ObjOf, IsObj, IsArray, RestoreElements, RestoreArray, U16, U32;
    OneElementFinds(d);
    assert b[at + 16..at + 17] == [7];
    WriteOne(mem, base, 7);
    assert RestoreMember(d, true, 0, mem, base, b, at + 8, 9) == Outcome(0, mem[base := 7]);
    assert RestoreMembers(d, true, 0, mem[base := 7], base, b, at + 17, 0) == Outcome(0, mem[base := 7]);
    assert RestoreMembers(d, true, 0, mem, base, b, at + 8, 9) == Outcome(0, mem[base := 7]);
  }

  lemma WriteOne(mem: Memory, at: int, v: Byte)
    ensures Write(mem, at, [v]) == mem[at := v]
  {
    assert Write(mem, at, [v][..0]) == mem;
  }

  // A stored object 2 whose array has two elements.
  predicate TwoElements(b: seq<Byte>) {
    && |b| == 50 && HeaderAt(b, 0, 1026, 42) && HeaderAt(b, 8, 519, 34)
    && ElementIn(b, 16) && ElementIn(b, 33)
  }

  lemma ElementsRestored(d: seq<ObjDesc>, b: seq<Byte>)
    requires OneElement(d) && TwoElements(b)
    ensures |d| == 2
    ensures RestoreElements(d, true, 0, 0, map[], 0, b, 16, 34) == Outcome(0, map[0 := 7, 1 := 7])
  {
    hide OneElement, RestoreObj, ObjOf, IsObj, IsArray, Find, FindMem, U16, U32;
    OneElementFinds(d);
    ElementRestored(d, b, map[], 0, 16, 34);
    ElementRestored(d, b, map[0 := 7], 1, 33, 17);
    assert RestoreElements(d, true, 0, 2, map[0 := 7, 1 := 7], 0, b, 50, 0) == Outcome(0, map[0 := 7, 1 := 7]);
    assert RestoreElements(d, true, 0, 1, map[0 := 7], 0, b, 33, 17) == Outcome(0, map[0 := 7, 1 := 7]);
  }

  // The second element is written behind the array, where nothing is described.
  lemma ElementTooMany(d: seq<ObjDesc>, b: seq<Byte>)
    requires OneElement(d) && TwoElements(b)
    ensures Acyclic(d, [0, 1]) && |d| == 2 && !Described(d, [0, 1], 1, 1)
    ensures RestoreObj(d, true, map[], 0, b, 0, 50) == Outcome(1026, map[0 := 7, 1 := 7])
  {
    hide OneElement, Find, FindMem, ObjOf, IsObj, IsArray, RestoreElements, U16, U32, Described;
    OneElementFinds(d);
    NothingBehind(d);
    ElementsRestored(d, b);
    var m := map[0 := 7, 1 := 7];
    assert RestoreArray(d, true, 1, map[], 0, b, 8, 42) == Outcome(0, m);
    assert RestoreMember(d, true, 1, map[], 0, b, 8, 42) == Outcome(0, m);
    assert RestoreMembers(d, true, 1, m, 0, b, 50, 0) == Outcome(0, m);
    assert RestoreMembers(d, true, 1, map[], 0, b, 8, 42) == Outcome(0, m);
  }

  lemma NothingBehind(d: seq<ObjDesc>)
    requires OneElement(d)
    ensures Acyclic(d, [0, 1]) && |d| == 2 && !Described(d, [0, 1], 1, 1)
  {
    hide OneElement, Find, FindMem, ObjOf, IsObj, IsArray;
    OneElementFinds(d);
    var rank: seq<nat> := [0, 1];
    assert Acyclic(d, rank);
    assert Elements(d, 1, 0) == 1;
    assert !CoversMem(d, d, rank, 0, 0, 1);
    assert !Covers(d, d, rank, 0, 1);
    assert !CoversElements(d, d, rank, 0, 1, 1, 1);
    assert !CoversElements(d, d, rank, 0, 0, 1, 1);
    assert !CoversMem(d, d, rank, 1, 0, 1);
    assert !CoversFrom(d, d, rank, 1, 1, 1);
    assert !Covers(d, d, rank, 1, 1);
  }

  // There is such a buffer.
  lemma TwoElementsExist() returns (b: seq<Byte>)
    ensures TwoElements(b)
  {
    b := [2, 4, 0, 0, 42, 0, 0, 0, 7, 2, 0, 0, 34, 0, 0, 0] +
         [2, 2, 0, 0, 9, 0, 0, 0, 4, 0, 0, 0, 1, 0, 0, 0, 7] +
         [2, 2, 0, 0, 9, 0, 0, 0, 4, 0, 0, 0, 1, 0, 0, 0, 7];
  }
}
