// Restoring an object. The reader may know other members than the writer did: a
// member whose tag it does not know is skipped whole.
module SnapshotRestore {
  import opened SnapshotFormat
  import opened SnapshotStore

  // What is returned, and the object memory afterwards, also after an error.
  datatype Outcome = Outcome(ret: int, mem: Memory)

  function Write(m: Memory, at: int, b: seq<Byte>): Memory {
    if b == [] then m else Write(m, at, b[..|b| - 1])[at + |b| - 1 := b[|b| - 1]]
  }

  // MEMCPY_S into a member: the checked library refuses more bytes than the member
  // has and clears it, the plain one copies them all.
  predicate Refused(secure: bool, room: nat, n: nat) { secure && room < n }

  function Clear(m: Memory, at: int, n: nat): Memory { Write(m, at, seq<Byte>(n, _ => 0)) }

  // nsfw_ss_restore on len bytes at position at, into the object at address base.
  function RestoreObj(descs: seq<ObjDesc>, secure: bool, mem: Memory, base: int, buf: seq<Byte>, at: nat, len: nat)
    : (r: Outcome)
    requires at + len <= |buf|
    ensures r.ret != -1 ==> r.ret >= 0 && HEADER <= len && HEADER + U32(buf, at + 4) <= len
    decreases len, 0
  {
    if len < HEADER then Outcome(-1, mem)
    else
      var tag, n := U16(buf, at), U32(buf, at + 4);
      var k := Find(descs, ObjOf(tag));
      if k < 0 || !IsObj(tag) || n == 0 || len - HEADER < n then Outcome(-1, mem)
      else
        var r := RestoreMembers(descs, secure, k, mem, base, buf, at + HEADER, n);
        if r.ret == -1 then r else Outcome(tag, r.mem)
  }

  // The members of an object with descriptor k.
  function RestoreMembers(descs: seq<ObjDesc>, secure: bool, k: nat, mem: Memory, base: int, buf: seq<Byte>, at: nat,
                          len: nat): Outcome
    requires at + len <= |buf| && k < |descs|
    decreases len, 2
  {
    if len == 0 then Outcome(0, mem)
    else if len < HEADER then Outcome(-1, mem)
    else
      var n := U32(buf, at + 4);
      var r := RestoreMember(descs, secure, k, mem, base, buf, at, len);
      if r.ret == -1 then r
      else RestoreMembers(descs, secure, k, r.mem, base, buf, at + HEADER + n, len - HEADER - n)
  }

  function RestoreMember(descs: seq<ObjDesc>, secure: bool, k: nat, mem: Memory, base: int, buf: seq<Byte>, at: nat,
                         len: nat): (r: Outcome)
    requires at + len <= |buf| && k < |descs| && HEADER <= len
    ensures r.ret != -1 ==> HEADER + U32(buf, at + 4) <= len
    decreases len, 1
  {
    var tag, n := U16(buf, at), U32(buf, at + 4);
    var i := FindMem(descs[k].mems, tag);
    if i < 0 then Outcome(if len - HEADER < n then -1 else 0, mem)
    else
      var m := descs[k].mems[i];
      if IsObj(tag) then
        if IsArray(tag) then RestoreArray(descs, secure, ObjOf(tag), mem, base + m.offset, buf, at, len)
        else RestoreObj(descs, secure, mem, base + m.offset, buf, at, len)
      else if len - HEADER < n then Outcome(-1, mem)
      else if Refused(secure, m.length, n) then Outcome(-1, Clear(mem, base + m.offset, m.length))
      else Outcome(0, Write(mem, base + m.offset, buf[at + HEADER..at + HEADER + n]))
  }

  function RestoreArray(descs: seq<ObjDesc>, secure: bool, id: nat, mem: Memory, base: int, buf: seq<Byte>, at: nat,
                        len: nat): (r: Outcome)
    requires at + len <= |buf|
    ensures r.ret != -1 ==> HEADER <= len && HEADER + U32(buf, at + 4) <= len
    decreases len, 0
  {
    if len < HEADER then Outcome(-1, mem)
    else
      var n := U32(buf, at + 4);
      var k := Find(descs, id);
      if n == 0 || len - HEADER < n || k < 0 then Outcome(-1, mem)
      else RestoreElements(descs, secure, k, 0, mem, base, buf, at + HEADER, n)
  }

  // The elements of an array from number j on.
  function RestoreElements(descs: seq<ObjDesc>, secure: bool, k: nat, j: nat, mem: Memory, base: int, buf: seq<Byte>,
                           at: nat, len: nat): Outcome
    requires at + len <= |buf| && k < |descs|
    decreases len, 1
  {
    if len == 0 then Outcome(0, mem)
    else if len < HEADER || ObjOf(U16(buf, at)) != descs[k].objType then Outcome(-1, mem)
    else
      var n := U32(buf, at + 4);
      var r := RestoreObj(descs, secure, mem, base + Times(j, descs[k].objSize), buf, at, len);
      if r.ret == -1 then Outcome(-1, r.mem)
      else RestoreElements(descs, secure, k, j + 1, r.mem, base, buf, at + HEADER + n, len - HEADER - n)
  }

  // The memory of the object that is restored.
  class Target {
    var mem: Memory

    constructor (m: Memory)
      ensures mem == m
    {
      mem := m;
    }

    method Restore(descs: seq<ObjDesc>, secure: bool, base: int, buf: seq<Byte>, at: nat, len: nat)
      returns (ret: int)
      requires at + len <= |buf|
      modifies this
      ensures Outcome(ret, mem) == RestoreObj(descs, secure, old(mem), base, buf, at, len)
      decreases len, 0
    {
      hide RestoreMember, RestoreArray, RestoreElements;
      if len < HEADER {
        return -1;
      }
      var tag, n := U16(buf, at), U32(buf, at + 4);
      var k := FindDesc(descs, ObjOf(tag));
      if k < 0 || !IsObj(tag) || n == 0 || len - HEADER < n {
        return -1;
      }
      var p, left := at + HEADER, n;
      ghost var goal := RestoreMembers(descs, secure, k, mem, base, buf, p, left);
      while left > 0
        invariant 0 <= left && p + left == at + HEADER + n
        invariant RestoreMembers(descs, secure, k, mem, base, buf, p, left) == goal
      {
        if left < HEADER {
          return -1;
        }
        var step := U32(buf, p + 4);
        var r := RestoreOne(descs, secure, k, base, buf, p, left);
        if r == -1 {
          return -1;
        }
        p, left := p + HEADER + step, left - HEADER - step;
      }
      return tag;
    }

    method RestoreOne(descs: seq<ObjDesc>, secure: bool, k: nat, base: int, buf: seq<Byte>, at: nat, len: nat)
      returns (ret: int)
      requires at + len <= |buf| && k < |descs| && HEADER <= len
      modifies this
      ensures Outcome(ret, mem) == RestoreMember(descs, secure, k, old(mem), base, buf, at, len)
      decreases len, 1
    {
      hide RestoreMembers, RestoreArray, RestoreElements, RestoreObj;
      var tag, n := U16(buf, at), U32(buf, at + 4);
      var i := FindMember(descs[k].mems, tag);
      if i < 0 {
        if len - HEADER < n {
          return -1;
        }
        return 0;
      }
      var m := descs[k].mems[i];
      if IsObj(tag) {
        if IsArray(tag) {
          ret := RestoreObjects(descs, secure, ObjOf(tag), base + m.offset, buf, at, len);
        } else {
          ret := Restore(descs, secure, base + m.offset, buf, at, len);
        }
        return;
      }
      if len - HEADER < n {
        return -1;
      }
      if Refused(secure, m.length, n) {
        mem := Clear(mem, base + m.offset, m.length);
        return -1;
      }
      mem := Write(mem, base + m.offset, buf[at + HEADER..at + HEADER + n]);
      return 0;
    }

    // nsfw_ss_restoreObjArray
    method RestoreObjects(descs: seq<ObjDesc>, secure: bool, id: nat, base: int, buf: seq<Byte>, at: nat, len: nat)
      returns (ret: int)
      requires at + len <= |buf|
      modifies this
      ensures Outcome(ret, mem) == RestoreArray(descs, secure, id, old(mem), base, buf, at, len)
      decreases len, 0
    {
      hide RestoreMembers, RestoreMember, RestoreObj;
      if len < HEADER {
        return -1;
      }
      var n := U32(buf, at + 4);
      if n == 0 || len - HEADER < n {
        return -1;
      }
      var k := FindDesc(descs, id);
      if k < 0 {
        return -1;
      }
      var p, left, j := at + HEADER, n, 0;
      ghost var goal := RestoreElements(descs, secure, k, j, mem, base, buf, p, left);
      while left > 0
        invariant 0 <= left && p + left == at + HEADER + n
        invariant RestoreElements(descs, secure, k, j, mem, base, buf, p, left) == goal
      {
        if left < HEADER || ObjOf(U16(buf, p)) != id {
          return -1;
        }
        var step := U32(buf, p + 4);
        var r := Restore(descs, secure, base + Times(j, descs[k].objSize), buf, p, left);
        if r == -1 {
          return -1;
        }
        j, p, left := j + 1, p + HEADER + step, left - HEADER - step;
      }
      return 0;
    }
  }

  method FindMember(mems: seq<MemDesc>, tag: nat) returns (k: int)
    ensures k == FindMem(mems, tag)
  {
    k := 0;
    while k < |mems|
      invariant 0 <= k <= |mems|
      invariant FindMem(mems, tag) == if FindMem(mems[k..], tag) < 0 then -1 else k + FindMem(mems[k..], tag)
    {
      if mems[k].tag == tag {
        return;
      }
      assert mems[k..][1..] == mems[k + 1..];
      k := k + 1;
    }
    k := -1;
  }

  // The writer w and the reader r agree on what they both know: object sizes, and the
  // member behind a tag. So no two members of an object of w have one tag.
  ghost predicate Compatible(w: seq<ObjDesc>, r: seq<ObjDesc>) {
    forall k, q, i | 0 <= k < |w| && 0 <= q < |r| && 0 <= i < |w[k].mems| ::
      k == Find(w, w[k].objType) && q == Find(r, w[k].objType) ==> CompatibleMem(w, r, k, q, i)
  }

  ghost predicate CompatibleMem(w: seq<ObjDesc>, r: seq<ObjDesc>, k: nat, q: nat, i: nat)
    requires k < |w| && q < |r| && i < |w[k].mems|
  {
    var m := w[k].mems[i];
    var f := FindMem(r[q].mems, m.tag);
    && r[q].objSize == w[k].objSize
    && (f >= 0 ==> r[q].mems[f] == m && (IsObj(m.tag) && Inner(w, k, i) >= 0 ==> Find(r, ObjOf(m.tag)) >= 0))
  }

  // The objects that a reader meets in object k have members, and the arrays elements. A
  // stored object without members has length zero, which restoring takes for an error.

  ghost predicate Full(w: seq<ObjDesc>, r: seq<ObjDesc>, rank: seq<nat>, k: nat)
    requires Acyclic(w, rank) && k < |w|
    decreases rank[k], 1
  {
    w[k].mems != [] && forall i | 0 <= i < |w[k].mems| :: FullMem(w, r, rank, k, i)
  }

  ghost predicate FullMem(w: seq<ObjDesc>, r: seq<ObjDesc>, rank: seq<nat>, k: nat, i: nat)
    requires Acyclic(w, rank) && k < |w| && i < |w[k].mems|
    decreases rank[k], 0
  {
    var m := w[k].mems[i];
    var c := Inner(w, k, i);
    var q := Find(r, w[k].objType);
    assert Below(w, rank, k, i);
    q >= 0 && FindMem(r[q].mems, m.tag) >= 0 && IsObj(m.tag) && c >= 0 ==>
      (IsArray(m.tag) ==> Elements(w, k, i) > 0) && Full(w, r, rank, c)
  }

  // Offset x of object k belongs to a leaf that writer and reader know.

  ghost predicate Covers(w: seq<ObjDesc>, r: seq<ObjDesc>, rank: seq<nat>, k: nat, x: int)
    requires Acyclic(w, rank) && k < |w|
    decreases rank[k], 2, 0
  {
    CoversFrom(w, r, rank, k, 0, x)
  }

  ghost predicate CoversFrom(w: seq<ObjDesc>, r: seq<ObjDesc>, rank: seq<nat>, k: nat, i: nat, x: int)
    requires Acyclic(w, rank) && k < |w| && i <= |w[k].mems|
    decreases rank[k], 1, |w[k].mems| - i
  {
    i < |w[k].mems| && (CoversMem(w, r, rank, k, i, x) || CoversFrom(w, r, rank, k, i + 1, x))
  }

  ghost predicate CoversMem(w: seq<ObjDesc>, r: seq<ObjDesc>, rank: seq<nat>, k: nat, i: nat, x: int)
    requires Acyclic(w, rank) && k < |w| && i < |w[k].mems|
    decreases rank[k], 0, 0
  {
    var m := w[k].mems[i];
    var c := Inner(w, k, i);
    var q := Find(r, w[k].objType);
    assert Below(w, rank, k, i);
    && q >= 0 && FindMem(r[q].mems, m.tag) >= 0
    && if !IsObj(m.tag) then m.offset <= x < m.offset + m.length
       else if c < 0 then false
       else if IsArray(m.tag) then CoversElements(w, r, rank, c, 0, Elements(w, k, i), x - m.offset)
       else Covers(w, r, rank, c, x - m.offset)
  }

  ghost predicate CoversElements(w: seq<ObjDesc>, r: seq<ObjDesc>, rank: seq<nat>, c: nat, j: nat, n: nat, x: int)
    requires Acyclic(w, rank) && c < |w| && j <= n
    decreases rank[c], 3, n - j
  {
    j < n && (Covers(w, r, rank, c, x - Times(j, w[c].objSize)) || CoversElements(w, r, rank, c, j + 1, n, x))
  }

  // At address x, the bytes of src at the covered offsets and mem elsewhere.
  ghost predicate CopiedAt(mem: Memory, old_: Memory, src: Memory, covered: bool, x: int, delta: int) {
    Read(mem, x) == if covered then Read(src, x + delta) else Read(old_, x)
  }

  lemma {:induction false} WriteReads(m: Memory, at: int, b: seq<Byte>, x: int)
    ensures Read(Write(m, at, b), x) == if at <= x < at + |b| then b[x - at] else Read(m, x)
  {
    if b != [] {
      WriteReads(m, at, b[..|b| - 1], x);
    }
  }

  // Restoring a stored object into address base copies, byte by byte, what reader and
  // writer both know, and leaves the other bytes as they were.
  lemma {:induction false} RestoreStored(w: seq<ObjDesc>, rank: seq<nat>, r: seq<ObjDesc>, secure: bool, k: nat,
                                         buf: seq<Byte>, at: nat, len: nat, tag: nat, src: Memory, from: int,
                                         mem: Memory, base: int, x: int)
    requires Acyclic(w, rank) && Compatible(w, r) && k == Find(w, ObjOf(tag)) >= 0 && IsObj(tag)
    requires Find(r, ObjOf(tag)) >= 0 && Size(w, rank, k) <= len && at + len <= |buf|
    requires Stored(w, rank, buf, at, tag, k, src, from) && Full(w, r, rank, k)
    ensures var o := RestoreObj(r, secure, mem, base, buf, at, len);
            o.ret == tag && CopiedAt(o.mem, mem, src, Covers(w, r, rank, k, x - base), x, from - base)
    decreases rank[k], 2, 0
  {
    hide RestoreMembers, CoversFrom, StoredMem, SizeMem, FullMem;
    SizeMemInside(w, rank, k, 0);
    MemberHeader(w, rank, k, 0, buf, at, src, from);
    MembersStored(w, rank, r, secure, k, 0, buf, at, src, from, mem, base, x);
  }

  lemma {:induction false} MembersStored(w: seq<ObjDesc>, rank: seq<nat>, r: seq<ObjDesc>, secure: bool, k: nat, i: nat,
                                         buf: seq<Byte>, at: nat, src: Memory, from: int, mem: Memory, base: int,
                                         x: int)
    requires Acyclic(w, rank) && Compatible(w, r) && k < |w| && i <= |w[k].mems|
    requires k == Find(w, w[k].objType) && Find(r, w[k].objType) >= 0
    requires at + Size(w, rank, k) <= |buf|
    requires forall j | 0 <= j < |w[k].mems| :: StoredMem(w, rank, buf, at, k, j, src, from)
    requires forall j | i <= j < |w[k].mems| :: FullMem(w, r, rank, k, j)
    ensures SizeMems(w, rank, k, i) + HEADER <= Size(w, rank, k)
    ensures var done := SizeMems(w, rank, k, i);
            var o := RestoreMembers(r, secure, Find(r, w[k].objType), mem, base, buf, at + HEADER + done,
                                    Size(w, rank, k) - HEADER - done);
            o.ret == 0 && CopiedAt(o.mem, mem, src, CoversFrom(w, r, rank, k, i, x - base), x, from - base)
    decreases rank[k], 1, |w[k].mems| - i
  {
    hide RestoreMember, CoversMem, StoredMem, SizeMem, Find, FullMem;
    var done := SizeMems(w, rank, k, i);
    var q := Find(r, w[k].objType);
    SizeMemsGrow(w, rank, k, i, |w[k].mems|);
    if i < |w[k].mems| {
      SizeMemInside(w, rank, k, i);
      var left := Size(w, rank, k) - HEADER - done;
      MemberStored(w, rank, r, secure, k, i, buf, at, left, src, from, mem, base, x);
      var o := RestoreMember(r, secure, q, mem, base, buf, at + HEADER + done, left);
      MembersStored(w, rank, r, secure, k, i + 1, buf, at, src, from, o.mem, base, x);
    }
  }

  // Where member i lies and what its header says.
  lemma MemberHeader(w: seq<ObjDesc>, rank: seq<nat>, k: nat, i: nat, buf: seq<Byte>, at: nat, src: Memory, from: int)
    requires Acyclic(w, rank) && k < |w| && i < |w[k].mems| && StoredMem(w, rank, buf, at, k, i, src, from)
    ensures SizeMem(w, rank, k, i) >= HEADER
    ensures HeaderAt(buf, at + HEADER + SizeMems(w, rank, k, i), w[k].mems[i].tag, SizeMem(w, rank, k, i) - HEADER)
    ensures at + HEADER + SizeMems(w, rank, k, i) + SizeMem(w, rank, k, i) <= |buf|
  {
    hide SizeMems, Size, StoredElements;
  }

  lemma {:induction false} MemberStored(w: seq<ObjDesc>, rank: seq<nat>, r: seq<ObjDesc>, secure: bool, k: nat, i: nat,
                                        buf: seq<Byte>, at: nat, len: nat, src: Memory, from: int, mem: Memory,
                                        base: int, x: int)
    requires Acyclic(w, rank) && Compatible(w, r) && k < |w| && i < |w[k].mems|
    requires k == Find(w, w[k].objType) && Find(r, w[k].objType) >= 0
    requires StoredMem(w, rank, buf, at, k, i, src, from) && FullMem(w, r, rank, k, i)
    requires SizeMem(w, rank, k, i) <= len && at + HEADER + SizeMems(w, rank, k, i) + len <= |buf|
    ensures SizeMem(w, rank, k, i) >= HEADER
    ensures var p := at + HEADER + SizeMems(w, rank, k, i);
            var o := RestoreMember(r, secure, Find(r, w[k].objType), mem, base, buf, p, len);
            && o.ret != -1 && HEADER + U32(buf, p + 4) == SizeMem(w, rank, k, i)
            && CopiedAt(o.mem, mem, src, CoversMem(w, r, rank, k, i, x - base), x, from - base)
    decreases rank[k], 0, 1
  {
    hide RestoreObj, RestoreArray, Covers, CoversElements, Stored, StoredElements, StoredMem, SizeMem, SizeMems, Size,
      Find, FindMem, Write, HeaderAt, Compatible, Full, Acyclic;
    var m := w[k].mems[i];
    var c := Inner(w, k, i);
    var p := at + HEADER + SizeMems(w, rank, k, i);
    var q := Find(r, w[k].objType);
    MemberFacts(w, rank, r, k, i);
    MemberHeader(w, rank, k, i, buf, at, src, from);
    HeaderReads(buf, p, m.tag, SizeMem(w, rank, k, i) - HEADER);
    if FindMem(r[q].mems, m.tag) >= 0 {
      if !IsObj(m.tag) {
        LeafStored(w, rank, k, i, buf, at, src, from, mem, base, x);
      } else {
        MemberInner(w, rank, k, i, buf, at, src, from);
        if IsArray(m.tag) {
          ArrayStored(w, rank, r, secure, k, i, buf, at, len, src, from, mem, base, x);
        } else {
          RestoreStored(w, rank, r, secure, c, buf, p, len, m.tag, src, from + m.offset, mem, base + m.offset, x);
        }
      }
    }
  }

  lemma HeaderReads(buf: seq<Byte>, at: nat, tag: nat, n: nat)
    requires HeaderAt(buf, at, tag, n)
    ensures at + HEADER <= |buf| && U16(buf, at) == tag && U32(buf, at + 4) == n
  {
  }

  lemma MemberFacts(w: seq<ObjDesc>, rank: seq<nat>, r: seq<ObjDesc>, k: nat, i: nat)
    requires Acyclic(w, rank) && Compatible(w, r) && k < |w| && i < |w[k].mems|
    requires k == Find(w, w[k].objType) && Find(r, w[k].objType) >= 0
    ensures Below(w, rank, k, i) && CompatibleMem(w, r, k, Find(r, w[k].objType), i) && |rank| == |w|
  {
  }

  lemma MemberInner(w: seq<ObjDesc>, rank: seq<nat>, k: nat, i: nat, buf: seq<Byte>, at: nat, src: Memory, from: int)
    requires Acyclic(w, rank) && k < |w| && i < |w[k].mems| && StoredMem(w, rank, buf, at, k, i, src, from)
    requires IsObj(w[k].mems[i].tag)
    ensures var m, c := w[k].mems[i], Inner(w, k, i);
            && c >= 0 && c == Find(w, ObjOf(m.tag))
            && (!IsArray(m.tag) ==>
                  && Stored(w, rank, buf, at + HEADER + SizeMems(w, rank, k, i), m.tag, c, src, from + m.offset)
                  && Size(w, rank, c) == SizeMem(w, rank, k, i))
  {
    hide Stored, SizeMems, Size, StoredElements;
  }

  lemma LeafStored(w: seq<ObjDesc>, rank: seq<nat>, k: nat, i: nat, buf: seq<Byte>, at: nat, src: Memory, from: int,
                   mem: Memory, base: int, x: int)
    requires Acyclic(w, rank) && k < |w| && i < |w[k].mems| && StoredMem(w, rank, buf, at, k, i, src, from)
    requires !IsObj(w[k].mems[i].tag)
    ensures var m, p := w[k].mems[i], at + HEADER + SizeMems(w, rank, k, i) + HEADER;
            && SizeMem(w, rank, k, i) == HEADER + m.length && p + m.length <= |buf|
            && CopiedAt(Write(mem, base + m.offset, buf[p..p + m.length]), mem, src,
                        m.offset <= x - base < m.offset + m.length, x, from - base)
  {
    hide Stored, SizeMems, Write, Read;
    var m, p := w[k].mems[i], at + HEADER + SizeMems(w, rank, k, i) + HEADER;
    LeafCopied(mem, base + m.offset, src, from + m.offset, m.length, x);
  }

  // Bytes of one memory written into another.
  lemma LeafCopied(mem: Memory, at: int, src: Memory, from: int, n: nat, x: int)
    ensures CopiedAt(Write(mem, at, Bytes(src, from, n)), mem, src, at <= x < at + n, x, from - at)
  {
    hide Write, Read;
    WriteReads(mem, at, Bytes(src, from, n), x);
  }

  lemma InnerFound(w: seq<ObjDesc>, k: nat, i: nat)
    requires k < |w| && i < |w[k].mems| && Inner(w, k, i) >= 0
    ensures w[Inner(w, k, i)].objType == ObjOf(w[k].mems[i].tag) < 128
  {
  }

  lemma {:induction false} ArrayStored(w: seq<ObjDesc>, rank: seq<nat>, r: seq<ObjDesc>, secure: bool, k: nat, i: nat,
                                       buf: seq<Byte>, at: nat, len: nat, src: Memory, from: int, mem: Memory,
                                       base: int, x: int)
    requires Acyclic(w, rank) && Compatible(w, r) && k < |w| && i < |w[k].mems|
    requires IsObj(w[k].mems[i].tag) && IsArray(w[k].mems[i].tag) && Inner(w, k, i) >= 0
    requires Below(w, rank, k, i) && Elements(w, k, i) > 0 && Full(w, r, rank, Inner(w, k, i))
    requires Find(r, ObjOf(w[k].mems[i].tag)) >= 0 && StoredMem(w, rank, buf, at, k, i, src, from)
    requires SizeMem(w, rank, k, i) <= len && at + HEADER + SizeMems(w, rank, k, i) + len <= |buf|
    ensures var p := at + HEADER + SizeMems(w, rank, k, i);
            var m := w[k].mems[i];
            var o := RestoreArray(r, secure, ObjOf(m.tag), mem, base + m.offset, buf, p, len);
            && o.ret != -1
            && CopiedAt(o.mem, mem, src,
                        CoversElements(w, r, rank, Inner(w, k, i), 0, Elements(w, k, i), x - base - m.offset),
                        x, from - base)
    decreases rank[k], 0, 0
  {
    hide RestoreElements, CoversElements, Stored, StoredElements, SizeMems, Size, Find, Times, Full;
    var m := w[k].mems[i];
    var c := Inner(w, k, i);
    var p := at + HEADER + SizeMems(w, rank, k, i);
    var n := Elements(w, k, i);
    InnerFound(w, k, i);
    ElementInside(n, 0, Size(w, rank, c));
    NoTimes(Size(w, rank, c));
    ElementsStored(w, rank, r, secure, c, 0, n, buf, p + HEADER, src, from + m.offset, mem, base + m.offset, x);
  }

  lemma {:induction false} ElementsStored(w: seq<ObjDesc>, rank: seq<nat>, r: seq<ObjDesc>, secure: bool, c: nat,
                                          j: nat, n: nat, buf: seq<Byte>, at: nat, src: Memory, from: int,
                                          mem: Memory, base: int, x: int)
    requires Acyclic(w, rank) && Compatible(w, r) && c < |w| && Full(w, r, rank, c) && j <= n
    requires c == Find(w, w[c].objType) && Find(r, w[c].objType) >= 0 && w[c].objType < 128
    requires StoredElements(w, rank, buf, at, c, n, src, from)
    requires at + Times(n, Size(w, rank, c)) <= |buf|
    ensures Times(j, Size(w, rank, c)) <= Times(n, Size(w, rank, c))
    ensures var done, all := Times(j, Size(w, rank, c)), Times(n, Size(w, rank, c));
            var o := RestoreElements(r, secure, Find(r, w[c].objType), j, mem, base, buf, at + done, all - done);
            o.ret == 0 && CopiedAt(o.mem, mem, src, CoversElements(w, r, rank, c, j, n, x - base), x, from - base)
    decreases rank[c], 3, n - j
  {
    hide RestoreObj, Covers, Stored, StoredElements, Size, Find, Compatible, Full, ObjOf, U16, U32, Times;
    if j < n {
      var q := Find(r, w[c].objType);
      var size := Size(w, rank, c);
      ElementStored(w, rank, r, secure, c, j, n, buf, at, src, from, mem, base, x);
      var o := RestoreObj(r, secure, mem, base + Times(j, r[q].objSize), buf, at + Times(j, size),
                          Times(n, size) - Times(j, size));
      ElementsStored(w, rank, r, secure, c, j + 1, n, buf, at, src, from, o.mem, base, x);
    }
  }

  lemma {:induction false} ElementStored(w: seq<ObjDesc>, rank: seq<nat>, r: seq<ObjDesc>, secure: bool, c: nat, j: nat,
                                         n: nat, buf: seq<Byte>, at: nat, src: Memory, from: int, mem: Memory,
                                         base: int, x: int)
    requires Acyclic(w, rank) && Compatible(w, r) && c < |w| && Full(w, r, rank, c) && j < n
    requires c == Find(w, w[c].objType) && Find(r, w[c].objType) >= 0 && w[c].objType < 128
    requires StoredElements(w, rank, buf, at, c, n, src, from)
    requires at + Times(n, Size(w, rank, c)) <= |buf|
    ensures var size, q := Size(w, rank, c), Find(r, w[c].objType);
            var p, len := at + Times(j, size), Times(n, size) - Times(j, size);
            && HEADER <= size <= len && Times(j + 1, size) == Times(j, size) + size
            && ObjOf(U16(buf, p)) == w[c].objType && U32(buf, p + 4) + HEADER == size
            && var o := RestoreObj(r, secure, mem, base + Times(j, r[q].objSize), buf, p, len);
            && o.ret != -1
            && CopiedAt(o.mem, mem, src, Covers(w, r, rank, c, x - base - Times(j, w[c].objSize)), x, from - base)
    decreases rank[c], 3, 0
  {
    hide RestoreObj, Covers, Stored, Size, Find, U16, U32, ObjOf, ObjTag, IsObj, IsArray, Acyclic, Times;
    var q := Find(r, w[c].objType);
    var size := Size(w, rank, c);
    assert CompatibleMem(w, r, c, q, 0);
    assert StoredElement(w, rank, buf, at, c, j, src, from);
    var tag := ObjTag(w[c].objType, 0);
    ElementTag(w[c].objType);
    ElementInside(n, j, size);
    ElementHeader(w, rank, buf, at + Times(j, size), tag, c, src, from + Times(j, w[c].objSize));
    RestoreStored(w, rank, r, secure, c, buf, at + Times(j, size), Times(n, size) - Times(j, size), tag, src,
                  from + Times(j, w[c].objSize), mem, base + Times(j, r[q].objSize), x);
  }

  // A stored object that is not full for the reader is refused.
  lemma {:induction false} StoredEmpty(w: seq<ObjDesc>, rank: seq<nat>, r: seq<ObjDesc>, secure: bool, k: nat,
                                       buf: seq<Byte>, at: nat, len: nat, tag: nat, src: Memory, from: int,
                                       mem: Memory, base: int)
    requires Acyclic(w, rank) && Compatible(w, r) && k == Find(w, ObjOf(tag)) >= 0 && IsObj(tag)
    requires Find(r, ObjOf(tag)) >= 0 && Size(w, rank, k) <= len && at + len <= |buf|
    requires Stored(w, rank, buf, at, tag, k, src, from) && !Full(w, r, rank, k)
    ensures RestoreObj(r, secure, mem, base, buf, at, len).ret == -1
    decreases rank[k], 2, 0
  {
    hide RestoreMembers, StoredMem, SizeMem, FullMem;
    if w[k].mems != [] {
      var i :| 0 <= i < |w[k].mems| && !FullMem(w, r, rank, k, i);
      MembersEmpty(w, rank, r, secure, k, 0, i, buf, at, src, from, mem, base);
    }
  }

  lemma {:induction false} MembersEmpty(w: seq<ObjDesc>, rank: seq<nat>, r: seq<ObjDesc>, secure: bool, k: nat, j: nat,
                                        i: nat, buf: seq<Byte>, at: nat, src: Memory, from: int, mem: Memory,
                                        base: int)
    requires Acyclic(w, rank) && Compatible(w, r) && k < |w| && j <= i < |w[k].mems|
    requires k == Find(w, w[k].objType) && Find(r, w[k].objType) >= 0
    requires at + Size(w, rank, k) <= |buf| && !FullMem(w, r, rank, k, i)
    requires forall i | 0 <= i < |w[k].mems| :: StoredMem(w, rank, buf, at, k, i, src, from)
    ensures SizeMems(w, rank, k, j) + HEADER <= Size(w, rank, k)
    ensures var done := SizeMems(w, rank, k, j);
            RestoreMembers(r, secure, Find(r, w[k].objType), mem, base, buf, at + HEADER + done,
                           Size(w, rank, k) - HEADER - done).ret == -1
    decreases rank[k], 1, i - j
  {
    hide RestoreMember, StoredMem, SizeMem, Find, FullMem;
    var done := SizeMems(w, rank, k, j);
    var q := Find(r, w[k].objType);
    SizeMemsGrow(w, rank, k, j, |w[k].mems|);
    SizeMemInside(w, rank, k, j);
    MemberHeader(w, rank, k, j, buf, at, src, from);
    var left := Size(w, rank, k) - HEADER - done;
    if FullMem(w, r, rank, k, j) {
      MemberStored(w, rank, r, secure, k, j, buf, at, left, src, from, mem, base, 0);
      var o := RestoreMember(r, secure, q, mem, base, buf, at + HEADER + done, left);
      MembersEmpty(w, rank, r, secure, k, j + 1, i, buf, at, src, from, o.mem, base);
    } else {
      MemberEmpty(w, rank, r, secure, k, j, buf, at, left, src, from, mem, base);
    }
  }

  lemma {:induction false} MemberEmpty(w: seq<ObjDesc>, rank: seq<nat>, r: seq<ObjDesc>, secure: bool, k: nat, i: nat,
                                       buf: seq<Byte>, at: nat, len: nat, src: Memory, from: int, mem: Memory,
                                       base: int)
    requires Acyclic(w, rank) && Compatible(w, r) && k < |w| && i < |w[k].mems|
    requires k == Find(w, w[k].objType) && Find(r, w[k].objType) >= 0
    requires StoredMem(w, rank, buf, at, k, i, src, from) && !FullMem(w, r, rank, k, i)
    requires HEADER <= SizeMem(w, rank, k, i) <= len && at + HEADER + SizeMems(w, rank, k, i) + len <= |buf|
    ensures RestoreMember(r, secure, Find(r, w[k].objType), mem, base, buf, at + HEADER + SizeMems(w, rank, k, i),
                          len).ret == -1
    decreases rank[k], 0, 1
  {
    hide RestoreObj, RestoreArray, Stored, StoredElements, StoredMem, SizeMem, SizeMems, Size, Find, FindMem, HeaderAt,
      Compatible, Full, Acyclic;
    var m := w[k].mems[i];
    var p := at + HEADER + SizeMems(w, rank, k, i);
    MemberFacts(w, rank, r, k, i);
    MemberHeader(w, rank, k, i, buf, at, src, from);
    HeaderReads(buf, p, m.tag, SizeMem(w, rank, k, i) - HEADER);
    MemberInner(w, rank, k, i, buf, at, src, from);
    if IsArray(m.tag) {
      ArrayEmpty(w, rank, r, secure, k, i, buf, at, len, src, from, mem, base);
    } else {
      StoredEmpty(w, rank, r, secure, Inner(w, k, i), buf, p, len, m.tag, src, from + m.offset, mem, base + m.offset);
    }
  }

  lemma {:induction false} ArrayEmpty(w: seq<ObjDesc>, rank: seq<nat>, r: seq<ObjDesc>, secure: bool, k: nat, i: nat,
                                      buf: seq<Byte>, at: nat, len: nat, src: Memory, from: int, mem: Memory, base: int)
    requires Acyclic(w, rank) && Compatible(w, r) && k < |w| && i < |w[k].mems|
    requires IsObj(w[k].mems[i].tag) && IsArray(w[k].mems[i].tag) && Inner(w, k, i) >= 0
    requires Below(w, rank, k, i) && (Elements(w, k, i) == 0 || !Full(w, r, rank, Inner(w, k, i)))
    requires Find(r, ObjOf(w[k].mems[i].tag)) >= 0 && StoredMem(w, rank, buf, at, k, i, src, from)
    requires SizeMem(w, rank, k, i) <= len && at + HEADER + SizeMems(w, rank, k, i) + len <= |buf|
    ensures var p, m := at + HEADER + SizeMems(w, rank, k, i), w[k].mems[i];
            RestoreArray(r, secure, ObjOf(m.tag), mem, base + m.offset, buf, p, len).ret == -1
    decreases rank[k], 0, 0
  {
    hide RestoreElements, Stored, StoredElements, SizeMems, Size, Find, Times, Full;
    var m := w[k].mems[i];
    var c, n := Inner(w, k, i), Elements(w, k, i);
    InnerFound(w, k, i);
    NoTimes(Size(w, rank, c));
    if n > 0 {
      ElementInside(n, 0, Size(w, rank, c));
      FirstEmpty(w, rank, r, secure, c, n, buf, at + HEADER + SizeMems(w, rank, k, i) + HEADER, src,
                 from + m.offset, mem, base + m.offset);
    }
  }

  lemma {:induction false} FirstEmpty(w: seq<ObjDesc>, rank: seq<nat>, r: seq<ObjDesc>, secure: bool, c: nat, n: nat,
                                      buf: seq<Byte>, at: nat, src: Memory, from: int, mem: Memory, base: int)
    requires Acyclic(w, rank) && Compatible(w, r) && c < |w| && 0 < n && !Full(w, r, rank, c)
    requires c == Find(w, w[c].objType) && Find(r, w[c].objType) >= 0 && w[c].objType < 128
    requires StoredElements(w, rank, buf, at, c, n, src, from) && at + Times(n, Size(w, rank, c)) <= |buf|
    ensures var len := Times(n, Size(w, rank, c));
            RestoreElements(r, secure, Find(r, w[c].objType), 0, mem, base, buf, at, len).ret == -1
    decreases rank[c], 3, 0
  {
    hide RestoreObj, Stored, Size, Find, U16, U32, ObjOf, ObjTag, IsObj, IsArray, Acyclic, Times, Full, Compatible;
    var q, size := Find(r, w[c].objType), Size(w, rank, c);
    assert StoredElement(w, rank, buf, at, c, 0, src, from);
    NoTimes(size);
    NoTimes(w[c].objSize);
    NoTimes(r[q].objSize);
    ElementTag(w[c].objType);
    ElementInside(n, 0, size);
    ElementHeader(w, rank, buf, at, ObjTag(w[c].objType, 0), c, src, from);
    StoredEmpty(w, rank, r, secure, c, buf, at, Times(n, size), ObjTag(w[c].objType, 0), src, from, mem, base);
  }

  lemma ElementTag(id: nat)
    requires id < 128
    ensures ObjOf(ObjTag(id, 0)) == id && IsObj(ObjTag(id, 0))
  {
    hide ObjOf, ObjTag, ArrayTag, ItemTag, MemberOf, IsObj, IsArray;
    TagFields(id, 0);
  }

  lemma ElementHeader(w: seq<ObjDesc>, rank: seq<nat>, buf: seq<Byte>, at: nat, tag: nat, c: nat, src: Memory,
                      from: int)
    requires Acyclic(w, rank) && c < |w| && Stored(w, rank, buf, at, tag, c, src, from)
    ensures HeaderAt(buf, at, tag, Size(w, rank, c) - HEADER)
  {
  }

  ghost predicate DistinctTags(descs: seq<ObjDesc>) {
    forall k, i, j | 0 <= k < |descs| && 0 <= i < j < |descs[k].mems| :: descs[k].mems[i].tag != descs[k].mems[j].tag
  }

  lemma SelfCompatible(descs: seq<ObjDesc>)
    requires DistinctTags(descs)
    ensures Compatible(descs, descs)
  {
    forall k, i | 0 <= k < |descs| && 0 <= i < |descs[k].mems|
      ensures CompatibleMem(descs, descs, k, k, i)
    {
      var f := FindMem(descs[k].mems, descs[k].mems[i].tag);
      assert f == i;
    }
  }

  // Storing an object and restoring it elsewhere, with a buffer that is long enough.
  method StoreAndRestore(descs: seq<ObjDesc>, ghost rank: seq<nat>, secure: bool, objType: nat, src: Memory, from: int,
                         buf: array<Byte>, target: Target, base: int) returns (n: int, ret: int)
    requires Fits(descs, rank) && TagsFit(descs) && DistinctTags(descs) && objType <= U16_MAX
    modifies buf, target
    ensures n == StoreResult(descs, rank, ObjTag(objType, 0), buf.Length)
    ensures n >= 0 ==>
              var k := Find(descs, objType % 128);
              && k >= 0 && ret == if Full(descs, descs, rank, k) then ObjTag(objType, 0) else -1
    ensures n >= 0 && ret >= 0 ==>
              forall x :: Read(target.mem, x) ==
                          if Covers(descs, descs, rank, Find(descs, objType % 128), x - base)
                          then Read(src, from + (x - base))
                          else Read(old(target.mem), x)
  {
    hide Stored, StoreResult, RestoreObj, Covers, Find, ObjTag, ObjOf, IsObj, Compatible, Full, DistinctTags, Read;
    StoreTag(objType);
    SelfCompatible(descs);
    n := Store(descs, rank, objType, src, from, buf, buf.Length);
    ret := -1;
    if n >= 0 {
      ghost var tag, k := ObjTag(objType, 0), Find(descs, objType % 128);
      ghost var mem := target.mem;
      StoreFits(descs, rank, objType, buf.Length);
      ret := target.Restore(descs, secure, base, buf[..], 0, buf.Length);
      if Full(descs, descs, rank, k) {
        forall x
          ensures Read(target.mem, x) == if Covers(descs, descs, rank, k, x - base) then Read(src, from + (x - base))
                                         else Read(mem, x)
        {
          RestoreStored(descs, rank, descs, secure, k, buf[..], 0, buf.Length, tag, src, from, mem, base, x);
        }
        RestoreStored(descs, rank, descs, secure, k, buf[..], 0, buf.Length, tag, src, from, mem, base, 0);
      } else {
        StoredEmpty(descs, rank, descs, secure, k, buf[..], 0, buf.Length, tag, src, from, mem, base);
      }
    }
  }

  lemma StoreFits(descs: seq<ObjDesc>, rank: seq<nat>, objType: nat, len: nat)
    requires Acyclic(descs, rank) && StoreResult(descs, rank, ObjTag(objType, 0), len) >= 0
    ensures Find(descs, objType % 128) >= 0 && Size(descs, rank, Find(descs, objType % 128)) <= len
  {
    hide Size, ObjTag, ObjOf, IsObj;
    StoreTag(objType);
  }
}
