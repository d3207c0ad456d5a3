// The routes of one stack list, longest mask first, in a list of nodes that point at
// their neighbours. Nodes that are freed leave the heap.
module RouteList {
  import opened Basics

  const AGETIME_MAX := 1
  const IP_BIT_MAX := 32

  datatype Route = Route(stackId: int, addr: nat, masklen: nat, agetime: int)

  // A node; next is 0 at the end, pprev is 0 when the head of the list points at it.
  datatype Node = Node(item: Route, next: nat, pprev: nat)

  type Heap = map<nat, Node>

  // MASK_V: the address with all but its first len bits cleared.
  function MaskV(addr: nat, len: nat): nat
    requires 1 <= len <= IP_BIT_MAX
  {
    addr / Pow2(IP_BIT_MAX - len) * Pow2(IP_BIT_MAX - len)
  }

  predicate MaskOk(r: Route) { 1 <= r.masklen <= IP_BIT_MAX }

  predicate Matches(r: Route, ip: nat)
    requires MaskOk(r)
  {
    MaskV(ip, r.masklen) == MaskV(r.addr, r.masklen)
  }

  ghost predicate MasksOk(routes: seq<Route>) {
    forall i | 0 <= i < |routes| :: MaskOk(routes[i])
  }

  ghost predicate Descending(routes: seq<Route>) {
    forall i, j | 0 <= i < j < |routes| :: routes[i].masklen >= routes[j].masklen
  }

  // The first route that matches.
  function Lookup(routes: seq<Route>, ip: nat): Option<Route>
    requires MasksOk(routes)
  {
    if routes == [] then None
    else if Matches(routes[0], ip) then Some(routes[0])
    else Lookup(routes[1..], ip)
  }

  // In a descending list that is a longest match, and there is one if any route matches.
  lemma {:induction false} LongestMatch(routes: seq<Route>, ip: nat)
    requires MasksOk(routes) && Descending(routes)
    ensures Lookup(routes, ip).None? <==> forall i | 0 <= i < |routes| :: !Matches(routes[i], ip)
    ensures Lookup(routes, ip).Some? ==>
              var r := Lookup(routes, ip).value;
              && r in routes && MaskOk(r) && Matches(r, ip)
              && forall i | 0 <= i < |routes| && Matches(routes[i], ip) :: routes[i].masklen <= r.masklen
  {
    hide Matches;
    if routes != [] && !Matches(routes[0], ip) {
      LongestMatch(routes[1..], ip);
      assert forall i | 0 < i < |routes| :: routes[i] == routes[1..][i - 1];
    }
  }

  // The addresses have 32 bits.
  ghost predicate Addresses(routes: seq<Route>) {
    forall i | 0 <= i < |routes| :: routes[i].addr < Pow2(32)
  }

  // What matching means, bit by bit: bit 0 is the first of the 32 bits of an address.

  function BitOf(x: nat, k: nat): nat
    requires k < IP_BIT_MAX
  {
    x / Pow2(31 - k) % 2
  }

  ghost predicate SameBits(x: nat, y: nat, len: nat)
    requires len <= IP_BIT_MAX
  {
    forall k | 0 <= k < len :: BitOf(x, k) == BitOf(y, k)
  }

  lemma DivideTwice(x: nat, d: nat)
    requires d > 0
    ensures x / d / 2 == x / (2 * d)
  {
    var a, r := x / d, x % d;
    var b, c := a / 2, a % 2;
    assert x == d * a + r && a == 2 * b + c;
    assert d * a == 2 * d * b + d * c;
    assert d * c + r < 2 * d;
    QuotientIs(x, 2 * d, b, d * c + r);
  }

  lemma {:induction false} TopBits(x: nat, y: nat, len: nat)
    requires x < Pow2(32) && y < Pow2(32) && len <= IP_BIT_MAX
    ensures x / Pow2(32 - len) == y / Pow2(32 - len) <==> SameBits(x, y, len)
  {
    hide Pow2;
    if len > 0 {
      var d := Pow2(32 - len);
      TopBits(x, y, len - 1);
      NextPow(32 - len);
      DivideTwice(x, d);
      DivideTwice(y, d);
      assert BitOf(x, len - 1) == x / d % 2 && BitOf(y, len - 1) == y / d % 2;
      assert SameBits(x, y, len) <==> SameBits(x, y, len - 1) && BitOf(x, len - 1) == BitOf(y, len - 1);
    } else {
      QuotientIs(x, Pow2(32), 0, x);
      QuotientIs(y, Pow2(32), 0, y);
    }
  }

  lemma NextPow(n: nat)
    ensures Pow2(n + 1) == 2 * Pow2(n)
  {
  }

  lemma Cancel(a: nat, b: nat, d: nat)
    requires d > 0
    ensures a * d == b * d <==> a == b
  {
    if a > b {
      AtLeast(d, a - b);
      assert a * d == b * d + d * (a - b);
    } else if a < b {
      AtLeast(d, b - a);
      assert b * d == a * d + d * (b - a);
    }
  }

  // Masked addresses are equal if and only if the first bits of the addresses are.
  lemma MaskBits(x: nat, y: nat, len: nat)
    requires x < Pow2(32) && y < Pow2(32) && 1 <= len <= IP_BIT_MAX
    ensures MaskV(x, len) == MaskV(y, len) <==> SameBits(x, y, len)
  {
    hide Pow2, SameBits;
    TopBits(x, y, len);
    Cancel(x / Pow2(32 - len), y / Pow2(32 - len), Pow2(32 - len));
  }

  // Route r and the address share the first masklen bits.
  ghost predicate Shares(r: Route, ip: nat) { r.masklen <= IP_BIT_MAX && SameBits(ip, r.addr, r.masklen) }

  lemma MatchesBits(r: Route, ip: nat)
    requires MaskOk(r) && r.addr < Pow2(32) && ip < Pow2(32)
    ensures Matches(r, ip) <==> Shares(r, ip)
  {
    hide SameBits, MaskV;
    MaskBits(ip, r.addr, r.masklen);
  }

  // The answer shares the longest prefix with the address; there is none only if no
  // route shares its prefix.
  ghost predicate LongestPrefix(routes: seq<Route>, ip: nat, found: Option<Route>) {
    match found
    case None => forall i | 0 <= i < |routes| :: !Shares(routes[i], ip)
    case Some(r) =>
      && r in routes && Shares(r, ip)
      && forall i | 0 <= i < |routes| && Shares(routes[i], ip) :: routes[i].masklen <= r.masklen
  }

  lemma LookupLongest(routes: seq<Route>, ip: nat)
    requires MasksOk(routes) && Descending(routes) && Addresses(routes) && ip < Pow2(32)
    ensures LongestPrefix(routes, ip, Lookup(routes, ip))
  {
    hide Matches, Shares, Lookup, Pow2;
    LongestMatch(routes, ip);
    forall i | 0 <= i < |routes|
      ensures Matches(routes[i], ip) <==> Shares(routes[i], ip)
    {
      MatchesBits(routes[i], ip);
    }
  }

  // The masked address is the address with the other bits cleared.
  lemma MaskClears(x: nat, len: nat, k: nat)
    requires x < Pow2(32) && 1 <= len <= IP_BIT_MAX && k < IP_BIT_MAX
    ensures MaskV(x, len) <= x && BitOf(MaskV(x, len), k) == if k < len then BitOf(x, k) else 0
  {
    hide Pow2;
    var d := Pow2(32 - len);
    var m := MaskV(x, len);
    assert x == d * (x / d) + x % d;
    assert m == d * (x / d) + 0;
    QuotientIs(m, d, x / d, 0);
    Cancel(m / d, x / d, d);
    MaskBits(m, x, len);
    assert MaskV(m, len) == m / d * d == m;
    if k >= len {
      LowBit(x / d, 32 - len, 31 - k);
    }
  }

  // The bits of a multiple of a power below it are zero.
  lemma {:induction false} LowBit(a: nat, n: nat, j: nat)
    requires j < n
    ensures Pow2(n) * a / Pow2(j) % 2 == 0
  {
    hide Pow2;
    PowSplit(n - j - 1, j);
    NextPow(n - j - 1);
    NextPow(n - 1);
    var q, b := Pow2(j), Pow2(n - j - 1);
    assert Pow2(n) == 2 * Pow2(n - 1);
    assert Pow2(n) * a == q * (2 * (b * a)) + 0 by {
      assert Pow2(n) == 2 * (b * q);
      assert 2 * (b * q) * a == q * (2 * (b * a));
    }
    QuotientIs(Pow2(n) * a, q, 2 * (b * a), 0);
  }

  lemma {:induction false} PowSplit(m: nat, n: nat)
    ensures Pow2(m + n) == Pow2(m) * Pow2(n)
  {
    if m > 0 {
      PowSplit(m - 1, n);
    }
  }

  // Where a route with mask length len goes: before the first that is not longer.
  function Place(routes: seq<Route>, len: nat): (i: nat)
    ensures i <= |routes|
    ensures forall j | 0 <= j < i :: len < routes[j].masklen
    ensures i < |routes| ==> routes[i].masklen <= len
  {
    if routes == [] || routes[0].masklen <= len then 0 else 1 + Place(routes[1..], len)
  }

  // The insertion compares a zero with the prefix found there, not the new prefix, so
  // that a route is dropped in favour of one whose prefix is zero.
  predicate Absorbed(routes: seq<Route>, r: Route)
    requires MasksOk(routes)
  {
    var i := Place(routes, r.masklen);
    i < |routes| && MaskV(routes[i].addr, routes[i].masklen) == 0
  }

  // All bits of the prefix found there are zero.
  lemma AbsorbedBits(routes: seq<Route>, r: Route)
    requires MasksOk(routes) && Addresses(routes)
    ensures var i := Place(routes, r.masklen);
            Absorbed(routes, r) <==> i < |routes| && SameBits(routes[i].addr, 0, routes[i].masklen)
  {
    hide SameBits, Pow2, MaskV;
    var i := Place(routes, r.masklen);
    if i < |routes| {
      MaskZero(routes[i].masklen);
      MaskBits(routes[i].addr, 0, routes[i].masklen);
    }
  }

  lemma MaskZero(len: nat)
    requires 1 <= len <= IP_BIT_MAX
    ensures MaskV(0, len) == 0
  {
    QuotientIs(0, Pow2(IP_BIT_MAX - len), 0, 0);
  }

  // The routes with r in front of place i, and without place i.

  function Spliced(routes: seq<Route>, i: nat, r: Route): seq<Route>
    requires i <= |routes|
  {
    routes[..i] + [r] + routes[i..]
  }

  function Cut(routes: seq<Route>, i: nat): seq<Route>
    requires i < |routes|
  {
    routes[..i] + routes[i + 1..]
  }

  // Entry j takes over the stack of r and is young again.
  function Updated(routes: seq<Route>, r: Route, j: nat): seq<Route>
    requires j < |routes|
  {
    routes[j := routes[j].(stackId := r.stackId, agetime := AGETIME_MAX)]
  }

  function Inserted(routes: seq<Route>, r: Route): seq<Route>
    requires MasksOk(routes)
  {
    var i := Place(routes, r.masklen);
    if Absorbed(routes, r) then Updated(routes, r, i) else Spliced(routes, i, r)
  }

  lemma InsertedOk(routes: seq<Route>, r: Route)
    requires MasksOk(routes) && Descending(routes) && MaskOk(r)
    ensures MasksOk(Inserted(routes, r)) && Descending(Inserted(routes, r))
  {
    hide MaskV;
    var i := Place(routes, r.masklen);
    var t := Inserted(routes, r);
    if !Absorbed(routes, r) {
      assert forall j | 0 <= j < |t| :: t[j] == if j < i then routes[j] else if j == i then r else routes[j - 1];
    }
  }

  // A route that is added answers for the addresses it matches, unless a longer one
  // does: in particular it comes before an older route for the same prefix.
  lemma {:induction false} InsertedLookup(routes: seq<Route>, r: Route, ip: nat)
    requires MasksOk(routes) && Descending(routes) && MaskOk(r) && !Absorbed(routes, r)
    ensures MasksOk(Inserted(routes, r))
    ensures Lookup(Inserted(routes, r), ip) ==
            if Matches(r, ip) && NoneLonger(routes, r.masklen, ip) then Some(r) else Lookup(routes, ip)
  {
    hide Matches, MaskV, Absorbed, Inserted, Descending, Lookup;
    InsertedOk(routes, r);
    if routes != [] && routes[0].masklen > r.masklen {
      var rest := routes[1..];
      RestOk(routes);
      InsertedRest(routes, r);
      InsertedLookup(rest, r, ip);
      LookupFirst(routes[0], rest, ip);
      LookupFirst(routes[0], Inserted(rest, r), ip);
      assert NoneLonger(routes, r.masklen, ip) <==> !Matches(routes[0], ip) && NoneLonger(rest, r.masklen, ip);
    } else {
      InsertedFront(routes, r);
      LookupFirst(r, routes, ip);
    }
  }

  // No route with a longer mask matches.
  ghost predicate NoneLonger(routes: seq<Route>, len: nat, ip: nat)
    requires MasksOk(routes)
  {
    forall j | 0 <= j < |routes| && Matches(routes[j], ip) :: routes[j].masklen <= len
  }

  lemma RestOk(routes: seq<Route>)
    requires MasksOk(routes) && Descending(routes) && routes != []
    ensures MasksOk(routes[1..]) && Descending(routes[1..]) && MaskOk(routes[0])
    ensures routes == [routes[0]] + routes[1..]
  {
  }

  lemma InsertedRest(routes: seq<Route>, r: Route)
    requires MasksOk(routes) && routes != [] && MasksOk(routes[1..])
    requires routes[0].masklen > r.masklen && !Absorbed(routes, r)
    ensures !Absorbed(routes[1..], r) && Inserted(routes, r) == [routes[0]] + Inserted(routes[1..], r)
  {
    hide MaskV;
  }

  lemma InsertedFront(routes: seq<Route>, r: Route)
    requires MasksOk(routes) && Descending(routes) && !Absorbed(routes, r)
    requires routes == [] || routes[0].masklen <= r.masklen
    ensures Inserted(routes, r) == [r] + routes && forall j | 0 <= j < |routes| :: routes[j].masklen <= r.masklen
  {
    hide MaskV;
  }

  lemma LookupFirst(x: Route, rest: seq<Route>, ip: nat)
    requires MaskOk(x) && MasksOk(rest)
    ensures MasksOk([x] + rest)
    ensures Lookup([x] + rest, ip) == if Matches(x, ip) then Some(x) else Lookup(rest, ip)
  {
    hide Matches;
    assert ([x] + rest)[1..] == rest;
  }

  // Ageing removes the routes whose time is over and takes one off the others.
  function Aged(routes: seq<Route>): seq<Route> {
    if routes == [] then []
    else
      var last := routes[|routes| - 1];
      var init := Aged(routes[..|routes| - 1]);
      if last.agetime <= 0 then init else init + [last.(agetime := last.agetime - 1)]
  }

  lemma {:induction false} AgedOk(routes: seq<Route>)
    requires MasksOk(routes) && Descending(routes)
    ensures MasksOk(Aged(routes)) && Descending(Aged(routes))
    ensures Aged(routes) != [] ==>
            routes != [] && routes[|routes| - 1].masklen <= Aged(routes)[|Aged(routes)| - 1].masklen
  {
    if routes != [] {
      AgedOk(routes[..|routes| - 1]);
    }
  }

  // Each route that is left had time, and each that had time is left.
  lemma {:induction false} AgedRoutes(routes: seq<Route>, r: Route)
    ensures r in Aged(routes) <==> r.agetime >= 0 && r.(agetime := r.agetime + 1) in routes
  {
    if routes != [] {
      var n := |routes| - 1;
      AgedRoutes(routes[..n], r);
      assert routes == routes[..n] + [routes[n]];
    }
  }

  // The answer for the address of a new route, when no longer one matches it, is the
  // entry that was written exactly when the route was added or the entry it was dropped
  // for matches the address.
  lemma {:induction false} InsertedAnswers(routes: seq<Route>, r: Route)
    requires MasksOk(routes) && Descending(routes) && MaskOk(r)
    requires NoneLonger(routes, r.masklen, r.addr)
    ensures var i, t := Place(routes, r.masklen), Inserted(routes, r);
            && MasksOk(t) && i < |t| && t[i].stackId == r.stackId
            && (Lookup(t, r.addr) == Some(t[i]) <==> !Absorbed(routes, r) || Matches(routes[i], r.addr))
  {
    hide Matches, MaskV;
    InsertedOk(routes, r);
    var i, t := Place(routes, r.masklen), Inserted(routes, r);
    SelfMatch(r);
    if !Absorbed(routes, r) {
      InsertedLookup(routes, r, r.addr);
    } else {
      SameMatch(routes[i], t[i], r.addr);
      LookupFrom(t, r.addr, i);
      FoundMatches(t[i + 1..], r.addr);
    }
  }

  lemma SelfMatch(r: Route)
    requires MaskOk(r)
    ensures Matches(r, r.addr)
  {
  }

  lemma SameMatch(a: Route, b: Route, ip: nat)
    requires MaskOk(a) && a.addr == b.addr && a.masklen == b.masklen
    ensures Matches(a, ip) <==> Matches(b, ip)
  {
  }

  lemma {:induction false} LookupFrom(routes: seq<Route>, ip: nat, i: nat)
    requires MasksOk(routes) && i <= |routes| && forall j | 0 <= j < i :: !Matches(routes[j], ip)
    ensures Lookup(routes, ip) == Lookup(routes[i..], ip)
  {
    hide Matches;
    if i > 0 {
      LookupFrom(routes[1..], ip, i - 1);
      assert routes[1..][i - 1..] == routes[i..];
    } else {
      assert routes[0..] == routes;
    }
  }

  lemma {:induction false} FoundMatches(routes: seq<Route>, ip: nat)
    requires MasksOk(routes)
    ensures Lookup(routes, ip).Some? ==>
              var r := Lookup(routes, ip).value; MaskOk(r) && Matches(r, ip)
  {
    hide Matches;
    if routes != [] {
      FoundMatches(routes[1..], ip);
    }
  }

  // What the comment on the insertion promises: a route with the prefix of a listed one
  // updates one of those in place, and any other route is added.

  predicate SamePrefix(a: Route, b: Route)
    requires MaskOk(a) && MaskOk(b)
  {
    a.masklen == b.masklen && MaskV(a.addr, a.masklen) == MaskV(b.addr, b.masklen)
  }

  // Prefixes are the same if they are equally long and agree bit by bit.
  lemma SamePrefixBits(a: Route, b: Route)
    requires MaskOk(a) && MaskOk(b) && a.addr < Pow2(32) && b.addr < Pow2(32)
    ensures SamePrefix(a, b) <==> a.masklen == b.masklen && SameBits(a.addr, b.addr, a.masklen)
  {
    hide MaskV, SameBits, Pow2;
    MaskBits(a.addr, b.addr, a.masklen);
  }

  // The update that r asks for leaves entry e as it is.
  predicate Current(e: Route, r: Route) { e.stackId == r.stackId && e.agetime == AGETIME_MAX }

  ghost predicate UpdatesInPlace(routes: seq<Route>, r: Route, t: seq<Route>)
    requires MasksOk(routes) && MaskOk(r)
  {
    if exists j | 0 <= j < |routes| :: SamePrefix(routes[j], r)
    then exists j | 0 <= j < |routes| :: SamePrefix(routes[j], r) && t == Updated(routes, r, j)
    else exists j | 0 <= j <= |routes| :: t == Spliced(routes, j, r)
  }

  // The condition under which the insertion keeps the promise: with no such entry it must
  // not be absorbed; with one it must be, by an entry of that prefix. An entry of another
  // prefix will do only when the promised update and the one made both change nothing.
  ghost predicate KeepsPromise(routes: seq<Route>, r: Route)
    requires MasksOk(routes) && MaskOk(r)
  {
    var i := Place(routes, r.masklen);
    if exists j | 0 <= j < |routes| :: SamePrefix(routes[j], r)
    then Absorbed(routes, r) &&
         (SamePrefix(routes[i], r) ||
          (Current(routes[i], r) && exists j | 0 <= j < |routes| :: SamePrefix(routes[j], r) && Current(routes[j], r)))
    else !Absorbed(routes, r)
  }

  lemma InPlaceIff(routes: seq<Route>, r: Route)
    requires MasksOk(routes) && MaskOk(r)
    ensures UpdatesInPlace(routes, r, Inserted(routes, r)) <==> KeepsPromise(routes, r)
  {
    hide SamePrefix, MaskV;
    var i, t := Place(routes, r.masklen), Inserted(routes, r);
    if exists j | 0 <= j < |routes| :: SamePrefix(routes[j], r) {
      if Absorbed(routes, r) {
        assert t == Updated(routes, r, i);
        forall j | 0 <= j < |routes| && j != i
          ensures t == Updated(routes, r, j) <==> Current(routes[i], r) && Current(routes[j], r)
        {
          UpdatedTwice(routes, r, i, j);
        }
      }
    } else if !Absorbed(routes, r) {
      assert t == Spliced(routes, i, r);
    }
  }

  lemma UpdatedTwice(routes: seq<Route>, r: Route, i: nat, j: nat)
    requires i < |routes| && j < |routes| && i != j
    ensures Updated(routes, r, i) == Updated(routes, r, j) <==> Current(routes[i], r) && Current(routes[j], r)
  {
    var a, b := Updated(routes, r, i), Updated(routes, r, j);
    assert a[i] == routes[i].(stackId := r.stackId, agetime := AGETIME_MAX) && b[i] == routes[i];
    assert b[j] == routes[j].(stackId := r.stackId, agetime := AGETIME_MAX) && a[j] == routes[j];
    if Current(routes[i], r) && Current(routes[j], r) {
      assert a == routes && b == routes;
    }
  }

  // Without an entry that is current for r, the promise is kept exactly when the route is
  // absorbed by one of its own prefix, or added to a list without that prefix.
  lemma InPlaceSimple(routes: seq<Route>, r: Route)
    requires MasksOk(routes) && MaskOk(r) && forall j | 0 <= j < |routes| :: !Current(routes[j], r)
    ensures UpdatesInPlace(routes, r, Inserted(routes, r)) <==>
            if Absorbed(routes, r) then SamePrefix(routes[Place(routes, r.masklen)], r)
            else forall j | 0 <= j < |routes| :: !SamePrefix(routes[j], r)
  {
    InPlaceIff(routes, r);
  }

  // A second route for 10.0.0.0/8 is added beside the first.
  lemma SamePrefixTwice()
    ensures var old_ := [Route(1, 0x0a00_0000, 8, AGETIME_MAX)];
            var r := Route(2, 0x0a00_0000, 8, AGETIME_MAX);
            && MasksOk(old_) && SamePrefix(old_[0], r) && Inserted(old_, r) == [r, old_[0]]
            && !UpdatesInPlace(old_, r, Inserted(old_, r))
  {
    var old_ := [Route(1, 0x0a00_0000, 8, AGETIME_MAX)];
    var r := Route(2, 0x0a00_0000, 8, AGETIME_MAX);
    Pow24();
    assert MaskV(0x0a00_0000, 8) == 0x0a00_0000;
    assert SamePrefix(old_[0], r);
  }

  lemma Pow24()
    ensures Pow2(24) == 0x100_0000
  {
    assert Pow2(4) == 16;
    assert Pow2(8) == 256;
    assert Pow2(12) == 4096;
    assert Pow2(16) == 65536;
    assert Pow2(20) == 0x10_0000;
  }

  // A route for 10.0.0.0/16 is lost to the one for 0.0.0.0/8.
  lemma ZeroPrefixAbsorbs()
    ensures var old_ := [Route(1, 0, 8, AGETIME_MAX)];
            var r := Route(2, 0x0a00_0000, 16, AGETIME_MAX);
            MasksOk(old_) && Descending(old_) && Inserted(old_, r) == [Route(2, 0, 8, AGETIME_MAX)]
  {
    assert MaskV(0, 8) == 0;
  }

  // Any sequence of insertions and ageings, from the empty list.

  datatype RouteOp = InsertOp(r: Route) | AgeOp

  ghost function RunRoutes(ops: seq<RouteOp>): (routes: seq<Route>)
    requires forall i | 0 <= i < |ops| :: ops[i].InsertOp? ==> MaskOk(ops[i].r)
    ensures MasksOk(routes) && Descending(routes)
  {
    if ops == [] then []
    else
      var routes := RunRoutes(ops[..|ops| - 1]);
      var op := ops[|ops| - 1];
      InsertedOk(routes, if op.InsertOp? then op.r else Route(0, 0, 1, 0));
      AgedOk(routes);
      if op.InsertOp? then Inserted(routes, op.r) else Aged(routes)
  }

  // After every such sequence the lookup gives a longest match of what the list holds.
  lemma RunLongest(ops: seq<RouteOp>, ip: nat, r: Route)
    requires forall i | 0 <= i < |ops| :: ops[i].InsertOp? ==> MaskOk(ops[i].r)
    requires r in RunRoutes(ops) && MaskOk(r) && Matches(r, ip)
    ensures var found := Lookup(RunRoutes(ops), ip);
            && found.Some? && MaskOk(found.value) && Matches(found.value, ip)
            && found.value in RunRoutes(ops) && r.masklen <= found.value.masklen
  {
    hide Matches, RunRoutes;
    LongestMatch(RunRoutes(ops), ip);
  }

  // The nodes of the list in order, and what they point at.

  function IdAt(ids: seq<nat>, i: int): nat { if 0 <= i < |ids| then ids[i] else 0 }

  predicate NodeAt(heap: Heap, ids: seq<nat>, routes: seq<Route>, i: int) {
    && 0 <= i < |ids| && i < |routes| && ids[i] in heap && ids[i] != 0
    && heap[ids[i]] == Node(routes[i], IdAt(ids, i + 1), IdAt(ids, i - 1))
  }

  ghost function Elems(ids: seq<nat>): set<nat> { set n | n in ids }

  // The list is made of the nodes ids with these routes, and there is no other node.
  ghost predicate Holds(heap: Heap, head: nat, ids: seq<nat>, routes: seq<Route>) {
    && |ids| == |routes| && head == IdAt(ids, 0) && NoDup(ids) && heap.Keys == Elems(ids)
    && forall i | 0 <= i < |ids| :: NodeAt(heap, ids, routes, i)
  }

  lemma Apart(ids: seq<nat>, i: nat, j: nat)
    requires NoDup(ids) && i < |ids| && j < |ids| && i != j
    ensures ids[i] != ids[j]
  {
  }

  lemma WithIds(ids: seq<nat>, i: nat, n: nat)
    requires i <= |ids| && NoDup(ids) && n !in ids
    ensures NoDup(With(ids, i, n)) && Elems(With(ids, i, n)) == Elems(ids) + {n}
  {
    var t := With(ids, i, n);
    assert forall m :: m in t <==> m in ids[..i] || m == n || m in ids[i..];
    assert ids == ids[..i] + ids[i..];
  }

  lemma WithoutIds(ids: seq<nat>, i: nat)
    requires i < |ids| && NoDup(ids)
    ensures NoDup(Without(ids, i)) && Elems(Without(ids, i)) == Elems(ids) - {ids[i]}
  {
    var t := Without(ids, i);
    assert forall m :: m in t <==> m in ids[..i] || m in ids[i + 1..];
    assert ids == ids[..i] + [ids[i]] + ids[i + 1..];
  }

  lemma WithAt(ids: seq<nat>, i: nat, n: nat, k: int)
    requires i <= |ids|
    ensures IdAt(With(ids, i, n), k) == if k < i then IdAt(ids, k) else if k == i then n else IdAt(ids, k - 1)
  {
  }

  lemma WithoutAt(ids: seq<nat>, i: nat, k: int)
    requires i < |ids|
    ensures IdAt(Without(ids, i), k) == if k < i then IdAt(ids, k) else IdAt(ids, k + 1)
  {
  }

  // hlist_add_head, hlist_add_before and hlist_add_after: node n becomes number i.
  function WithNode(heap: Heap, ids: seq<nat>, i: nat, n: nat, item: Route): Heap
    requires i <= |ids| && forall k | 0 <= k < |ids| :: ids[k] in heap
  {
    var a := heap[n := Node(item, IdAt(ids, i), IdAt(ids, i - 1))];
    var b := if i < |ids| then a[ids[i] := a[ids[i]].(pprev := n)] else a;
    if i > 0 then b[ids[i - 1] := b[ids[i - 1]].(next := n)] else b
  }

  lemma HeldIds(heap: Heap, head: nat, ids: seq<nat>, routes: seq<Route>)
    requires Holds(heap, head, ids, routes)
    ensures |ids| == |routes| && forall k | 0 <= k < |ids| :: ids[k] in heap
  {
    forall k | 0 <= k < |ids|
      ensures ids[k] in heap
    {
      assert NodeAt(heap, ids, routes, k);
    }
  }

  lemma WithNodeAt(heap: Heap, head: nat, ids: seq<nat>, routes: seq<Route>, i: nat, n: nat, item: Route, k: nat)
    requires Holds(heap, head, ids, routes) && i <= |ids| && n != 0 && n !in heap && k <= |ids|
    requires forall j | 0 <= j < |ids| :: ids[j] in heap
    ensures NodeAt(WithNode(heap, ids, i, n, item), With(ids, i, n), Spliced(routes, i, item), k)
  {
    hide NoDup, Elems, IdAt;
    WithAt(ids, i, n, k);
    WithAt(ids, i, n, k - 1);
    WithAt(ids, i, n, k + 1);
    InIds(heap, head, ids, routes, i, n);
    if k != i {
      var j := if k < i then k else k - 1;
      assert NodeAt(heap, ids, routes, j);
      AtIndex(ids, j);
      AtIndex(With(ids, i, n), k);
      if i < |ids| {
        AtIndex(ids, i);
        if j != i { Apart(ids, j, i); }
      }
      if i > 0 {
        AtIndex(ids, i - 1);
        if j != i - 1 { Apart(ids, j, i - 1); }
      }
    } else {
      AtIndex(With(ids, i, n), k);
    }
  }

  lemma AtIndex(ids: seq<nat>, i: nat)
    requires i < |ids|
    ensures IdAt(ids, i) == ids[i]
  {
  }

  lemma InIds(heap: Heap, head: nat, ids: seq<nat>, routes: seq<Route>, i: nat, n: nat)
    requires Holds(heap, head, ids, routes) && n !in heap
    ensures n !in ids && NoDup(ids)
  {
    hide NoDup;
    assert n !in Elems(ids);
  }

  lemma WithNodeHolds(heap: Heap, head: nat, ids: seq<nat>, routes: seq<Route>, i: nat, n: nat, item: Route)
    requires Holds(heap, head, ids, routes) && i <= |ids| && n != 0 && n !in heap
    requires forall j | 0 <= j < |ids| :: ids[j] in heap
    ensures Holds(WithNode(heap, ids, i, n, item), if i == 0 then n else head, With(ids, i, n),
                  Spliced(routes, i, item))
  {
    hide NodeAt, NoDup, Elems;
    InIds(heap, head, ids, routes, i, n);
    WithIds(ids, i, n);
    WithAt(ids, i, n, 0);
    forall k | 0 <= k < |With(ids, i, n)|
      ensures NodeAt(WithNode(heap, ids, i, n, item), With(ids, i, n), Spliced(routes, i, item), k)
    {
      WithNodeAt(heap, head, ids, routes, i, n, item, k);
    }
    assert WithNode(heap, ids, i, n, item).Keys == heap.Keys + {n};
  }

  // hlist_del_init of node number i, which is then freed.
  function WithoutNode(heap: Heap, ids: seq<nat>, i: nat): Heap
    requires i < |ids| && forall k | 0 <= k < |ids| :: ids[k] in heap
  {
    var next, prev := IdAt(ids, i + 1), IdAt(ids, i - 1);
    var a := if i > 0 then heap[ids[i - 1] := heap[ids[i - 1]].(next := next)] else heap;
    var b := if i + 1 < |ids| then a[ids[i + 1] := a[ids[i + 1]].(pprev := prev)] else a;
    b - {ids[i]}
  }

  lemma WithoutNodeAt(heap: Heap, head: nat, ids: seq<nat>, routes: seq<Route>, i: nat, k: nat)
    requires Holds(heap, head, ids, routes) && i < |ids| && k + 1 < |ids|
    requires forall j | 0 <= j < |ids| :: ids[j] in heap
    ensures NodeAt(WithoutNode(heap, ids, i), Without(ids, i), Cut(routes, i), k)
  {
    hide NoDup, Elems, IdAt;
    WithoutAt(ids, i, k);
    WithoutAt(ids, i, k - 1);
    WithoutAt(ids, i, k + 1);
    var j := if k < i then k else k + 1;
    assert NodeAt(heap, ids, routes, j);
    AtIndex(ids, j);
    AtIndex(Without(ids, i), k);
    Apart(ids, j, i);
    if i > 0 && j != i - 1 { Apart(ids, j, i - 1); }
    if i + 1 < |ids| && j != i + 1 { Apart(ids, j, i + 1); }
  }

  lemma WithoutNodeHolds(heap: Heap, head: nat, ids: seq<nat>, routes: seq<Route>, i: nat)
    requires Holds(heap, head, ids, routes) && i < |ids|
    requires forall j | 0 <= j < |ids| :: ids[j] in heap
    ensures Holds(WithoutNode(heap, ids, i), if i == 0 then IdAt(ids, 1) else head, Without(ids, i), Cut(routes, i))
  {
    hide NodeAt, NoDup, Elems;
    WithoutIds(ids, i);
    WithoutAt(ids, i, 0);
    forall k | 0 <= k < |Without(ids, i)|
      ensures NodeAt(WithoutNode(heap, ids, i), Without(ids, i), Cut(routes, i), k)
    {
      WithoutNodeAt(heap, head, ids, routes, i, k);
    }
    assert WithoutNode(heap, ids, i).Keys == heap.Keys - {ids[i]};
  }

  // Writing the item of node number i.
  lemma WithItemHolds(heap: Heap, head: nat, ids: seq<nat>, routes: seq<Route>, i: nat, item: Route)
    requires Holds(heap, head, ids, routes) && i < |ids| && ids[i] in heap
    ensures Holds(heap[ids[i] := heap[ids[i]].(item := item)], head, ids, routes[i := item])
  {
    hide NoDup, Elems, IdAt;
    var h := heap[ids[i] := heap[ids[i]].(item := item)];
    var u := routes[i := item];
    forall k | 0 <= k < |ids|
      ensures NodeAt(h, ids, u, k)
    {
      assert NodeAt(heap, ids, routes, k);
      if k != i { Apart(ids, k, i); }
    }
    assert h.Keys == heap.Keys;
  }

  // What the walk reads at node number i.
  lemma ReadNode(heap: Heap, head: nat, ids: seq<nat>, routes: seq<Route>, i: nat)
    requires Holds(heap, head, ids, routes) && i <= |ids|
    ensures IdAt(ids, i) == 0 <==> i == |ids|
    ensures i < |ids| ==>
              && ids[i] == IdAt(ids, i) && ids[i] in heap
              && heap[ids[i]] == Node(routes[i], IdAt(ids, i + 1), IdAt(ids, i - 1))
  {
    if i < |ids| {
      assert NodeAt(heap, ids, routes, i);
    }
  }

  lemma PlaceIs(routes: seq<Route>, len: nat, i: nat)
    requires i <= |routes| && (forall j | 0 <= j < i :: len < routes[j].masklen)
    requires i < |routes| ==> routes[i].masklen <= len
    ensures Place(routes, len) == i
  {
  }

  class RouteTable {
    var head: nat
    var heap: Heap
    ghost var ids: seq<nat>
    ghost var routes: seq<Route>

    ghost predicate Valid()
      reads this
    {
      Holds(heap, head, ids, routes) && MasksOk(routes) && Descending(routes)
    }

    constructor ()
      ensures Valid() && routes == []
    {
      head, heap, ids, routes := 0, map[], [], [];
    }

    // hlist_add_before(n, cur)
    method AddBefore(n: nat, r: Route, cur: nat, ghost i: nat)
      requires Holds(heap, head, ids, routes) && i < |ids| && cur == ids[i] && n != 0 && n !in heap
      modifies this
      ensures Holds(heap, head, ids, routes) && ids == With(old(ids), i, n) && routes == Spliced(old(routes), i, r)
    {
      hide Holds;
      ReadNode(heap, head, ids, routes, i);
      HeldIds(heap, head, ids, routes);
      if i > 0 {
        ReadNode(heap, head, ids, routes, i - 1);
      }
      WithNodeHolds(heap, head, ids, routes, i, n, r);
      var prev := heap[cur].pprev;
      heap := heap[n := Node(r, cur, prev)];
      heap := heap[cur := heap[cur].(pprev := n)];
      if prev == 0 {
        head := n;
      } else {
        heap := heap[prev := heap[prev].(next := n)];
      }
      ids, routes := With(ids, i, n), Spliced(routes, i, r);
    }

    // hlist_add_head on the empty list, hlist_add_after(tem, n) on the last node
    method AddLast(n: nat, r: Route, tem: nat)
      requires Holds(heap, head, ids, routes) && tem == IdAt(ids, |ids| - 1) && n != 0 && n !in heap
      modifies this
      ensures Holds(heap, head, ids, routes)
      ensures ids == With(old(ids), |old(ids)|, n) && routes == Spliced(old(routes), |old(routes)|, r)
    {
      hide Holds;
      HeldIds(heap, head, ids, routes);
      WithNodeHolds(heap, head, ids, routes, |ids|, n, r);
      FirstId(heap, head, ids, routes);
      ReadNode(heap, head, ids, routes, 0);
      if head != 0 {
        ReadNode(heap, head, ids, routes, |ids| - 1);
        heap := heap[n := Node(r, heap[tem].next, tem)];
        heap := heap[tem := heap[tem].(next := n)];
      } else {
        heap := heap[n := Node(r, 0, 0)];
        head := n;
      }
      ids, routes := With(ids, |ids|, n), Spliced(routes, |routes|, r);
    }

    // nstack_rd_ip_item_insert; n is the new node, or 0 when there is no memory for it.
    method Insert(r: Route, n: nat) returns (ok: bool)
      requires Valid() && MaskOk(r) && n !in heap
      modifies this
      ensures Valid() && (ok <==> n != 0)
      ensures routes == if ok then Inserted(old(routes), r) else old(routes)
    {
      hide Holds, MasksOk, Descending, MaskV;
      if n == 0 {
        return false;
      }
      InsertedOk(routes, r);
      MasksKnown(routes);
      HeldIds(heap, head, ids, routes);
      FirstId(heap, head, ids, routes);
      var cur, tem := head, 0;
      ghost var i := 0;
      while cur != 0
        invariant unchanged(this) && i <= |ids| && cur == IdAt(ids, i) && tem == IdAt(ids, i - 1)
        invariant forall j | 0 <= j < i :: r.masklen < routes[j].masklen
        decreases |ids| - i
      {
        ReadNode(heap, head, ids, routes, i);
        tem := cur;
        var item := heap[cur].item;
        if r.masklen < item.masklen {
          cur := heap[cur].next;
          i := i + 1;
        } else {
          PlaceIs(routes, r.masklen, i);
          if MaskV(item.addr, item.masklen) == 0 {
            var updated := item.(stackId := r.stackId, agetime := AGETIME_MAX);
            WithItemHolds(heap, head, ids, routes, i, updated);
            heap := heap[cur := heap[cur].(item := updated)];
            routes := routes[i := updated];
          } else {
            AddBefore(n, r, cur, i);
          }
          return true;
        }
      }
      ReadNode(heap, head, ids, routes, i);
      PlaceIs(routes, r.masklen, i);
      AddLast(n, r, tem);
      return true;
    }

    // nstack_rd_ip_item_find; ip is already in local order
    method Find(ip: nat) returns (found: Option<Route>)
      requires Valid()
      ensures found == Lookup(routes, ip)
      ensures Addresses(routes) && ip < Pow2(32) ==> LongestPrefix(routes, ip, found)
    {
      hide Holds, Descending, Matches, Pow2, LongestPrefix, Addresses;
      if Addresses(routes) && ip < Pow2(32) {
        LookupLongest(routes, ip);
      }
      FirstId(heap, head, ids, routes);
      HeldIds(heap, head, ids, routes);
      var cur := head;
      ghost var i := 0;
      while cur != 0
        invariant i <= |ids| && cur == IdAt(ids, i)
        invariant forall j | 0 <= j < i :: !Matches(routes[j], ip)
        decreases |ids| - i
      {
        ReadNode(heap, head, ids, routes, i);
        LookupFrom(routes, ip, i);
        if Matches(heap[cur].item, ip) {
          return Some(heap[cur].item);
        }
        cur := heap[cur].next;
        i := i + 1;
      }
      ReadNode(heap, head, ids, routes, i);
      LookupFrom(routes, ip, i);
      return None;
    }

    // hlist_del_init and free of node n, number i of the list
    method Remove(n: nat, ghost i: nat)
      requires Holds(heap, head, ids, routes) && i < |ids| && n == ids[i]
      modifies this
      ensures Holds(heap, head, ids, routes)
      ensures |old(ids)| == |old(routes)| && ids == Without(old(ids), i) && routes == Cut(old(routes), i)
    {
      hide Holds;
      HeldIds(heap, head, ids, routes);
      ReadNode(heap, head, ids, routes, i);
      if i > 0 {
        ReadNode(heap, head, ids, routes, i - 1);
      }
      if i + 1 < |ids| {
        ReadNode(heap, head, ids, routes, i + 1);
      } else {
        ReadNode(heap, head, ids, routes, |ids|);
      }
      WithoutNodeHolds(heap, head, ids, routes, i);
      var next, prev := heap[n].next, heap[n].pprev;
      if prev == 0 {
        head := next;
      } else {
        heap := heap[prev := heap[prev].(next := next)];
      }
      if next != 0 {
        heap := heap[next := heap[next].(pprev := prev)];
      }
      heap := heap - {n};
      ids, routes := Without(ids, i), Cut(routes, i);
    }

    // nstack_rd_ip_item_age: a node is freed when the walk has left it.
    method Age()
      requires Valid()
      modifies this
      ensures Valid() && routes == Aged(old(routes))
    {
      hide Holds, MasksOk, Descending, Aged, Ageing, IdAt, Without, Cut;
      AgedOk(routes);
      FirstId(heap, head, ids, routes);
      ghost var all := routes;
      var cur, prev := head, 0;
      ghost var k, c, d := 0, 0, -1;
      AgeingStart(ids, routes);
      while cur != 0
        invariant Holds(heap, head, ids, routes) && Ageing(ids, routes, all, k, c, d)
        invariant cur == IdAt(ids, c) && prev == IdAt(ids, d)
        decreases |all| - k
      {
        AgeingRead(heap, head, ids, routes, all, k, c, d);
        var item := heap[cur].item;
        if item.agetime <= 0 {
          if prev != 0 {
            AgeingDrop(ids, routes, all, k, c, d);
            Remove(prev, d);
            c, d := c - 1, -1;
            AgeingRead(heap, head, ids, routes, all, k, c, d);
          }
          AgeingExpired(ids, routes, all, k, c);
          prev, d := cur, c;
        } else {
          var updated := item.(agetime := item.agetime - 1);
          WithItemHolds(heap, head, ids, routes, c, updated);
          AgeingKeep(ids, routes, all, k, c, d);
          heap := heap[cur := heap[cur].(item := updated)];
          routes := routes[c := updated];
        }
        cur := heap[cur].next;
        k, c := k + 1, c + 1;
      }
      AgeingRead(heap, head, ids, routes, all, k, c, d);
      AgeingEnd(ids, routes, all, k, c, d);
      if prev != 0 {
        Remove(prev, d);
      }
    }
  }

  // The walk is at node c, before route k of all; node d is to be freed, if it is not -1.
  ghost predicate Ageing(ids: seq<nat>, routes: seq<Route>, all: seq<Route>, k: nat, c: nat, d: int) {
    && |ids| == |routes| && k <= |all| && c <= |routes| && -1 <= d < c
    && routes[c..] == all[k..]
    && (if d < 0 then routes[..c] else Cut(routes[..c], d)) == Aged(all[..k])
  }

  lemma AgeingStart(ids: seq<nat>, routes: seq<Route>)
    requires |ids| == |routes|
    ensures Ageing(ids, routes, routes, 0, 0, -1) && IdAt(ids, -1) == 0
  {
  }

  // What the walk reads, and where the two nodes are.
  lemma AgeingRead(heap: Heap, head: nat, ids: seq<nat>, routes: seq<Route>, all: seq<Route>, k: nat, c: nat, d: int)
    requires Holds(heap, head, ids, routes) && Ageing(ids, routes, all, k, c, d)
    ensures -1 <= d < c <= |ids| == |routes| && k <= |all| && (c == |ids| <==> k == |all|)
    ensures (IdAt(ids, c) == 0 <==> c == |ids|) && (IdAt(ids, d) == 0 <==> d == -1) &&
            (d >= 0 ==> ids[d] == IdAt(ids, d))
    ensures c < |ids| ==>
              && ids[c] == IdAt(ids, c) && ids[c] in heap && routes[c] == all[k]
              && heap[ids[c]].item == routes[c] && heap[ids[c]].next == IdAt(ids, c + 1)
  {
    hide Holds, Aged;
    ReadNode(heap, head, ids, routes, c);
    if d >= 0 {
      ReadNode(heap, head, ids, routes, d);
    }
    if c < |ids| {
      assert routes[c] == routes[c..][0] && all[k] == all[k..][0];
    }
  }

  lemma AgeingDrop(ids: seq<nat>, routes: seq<Route>, all: seq<Route>, k: nat, c: nat, d: int)
    requires Ageing(ids, routes, all, k, c, d) && d >= 0
    ensures Ageing(Without(ids, d), Cut(routes, d), all, k, c - 1, -1)
    ensures IdAt(Without(ids, d), c - 1) == IdAt(ids, c)
  {
    hide Aged;
    WithoutAt(ids, d, c - 1);
    WithoutPrefix(routes, d, c);
  }

  lemma WithoutPrefix(routes: seq<Route>, d: nat, c: nat)
    requires d < c <= |routes|
    ensures Cut(routes, d)[..c - 1] == Cut(routes[..c], d) && Cut(routes, d)[c - 1..] == routes[c..]
  {
    var r := Cut(routes, d);
    assert forall k | 0 <= k < |r| :: r[k] == if k < d then routes[k] else routes[k + 1];
  }

  lemma AgeingExpired(ids: seq<nat>, routes: seq<Route>, all: seq<Route>, k: nat, c: nat)
    requires Ageing(ids, routes, all, k, c, -1) && c < |routes| && routes[c] == all[k] && routes[c].agetime <= 0
    ensures Ageing(ids, routes, all, k + 1, c + 1, c)
  {
    hide Aged;
    AgedNext(all, k);
    assert Cut(routes[..c + 1], c) == routes[..c];
    assert routes[c..][1..] == routes[c + 1..] && all[k..][1..] == all[k + 1..];
  }

  lemma AgeingKeep(ids: seq<nat>, routes: seq<Route>, all: seq<Route>, k: nat, c: nat, d: int)
    requires Ageing(ids, routes, all, k, c, d) && c < |routes| && routes[c] == all[k] && routes[c].agetime > 0
    ensures Ageing(ids, routes[c := routes[c].(agetime := routes[c].agetime - 1)], all, k + 1, c + 1, d)
  {
    hide Aged, Cut;
    AgedNext(all, k);
    var u := routes[c].(agetime := routes[c].agetime - 1);
    var r := routes[c := u];
    assert r[..c + 1] == routes[..c] + [u];
    if d >= 0 {
      CutMore(routes[..c], d, u);
    }
    assert r[c + 1..] == routes[c..][1..] && all[k..][1..] == all[k + 1..];
  }

  lemma CutMore(routes: seq<Route>, i: nat, u: Route)
    requires i < |routes|
    ensures Cut(routes + [u], i) == Cut(routes, i) + [u]
  {
  }

  lemma AgeingEnd(ids: seq<nat>, routes: seq<Route>, all: seq<Route>, k: nat, c: nat, d: int)
    requires Ageing(ids, routes, all, k, c, d) && c == |routes|
    ensures (if d < 0 then routes else Cut(routes, d)) == Aged(all)
  {
    hide Aged;
    assert routes[..c] == routes;
    assert |all[k..]| == 0 && all[..k] == all;
  }

  lemma AgedNext(all: seq<Route>, k: nat)
    requires k < |all|
    ensures Aged(all[..k + 1]) ==
            if all[k].agetime <= 0 then Aged(all[..k]) else Aged(all[..k]) + [all[k].(agetime := all[k].agetime - 1)]
  {
    assert all[..k + 1][..k] == all[..k];
  }

  lemma MasksKnown(routes: seq<Route>)
    requires MasksOk(routes)
    ensures forall i | 0 <= i < |routes| :: MaskOk(routes[i])
  {
  }

  lemma FirstId(heap: Heap, head: nat, ids: seq<nat>, routes: seq<Route>)
    requires Holds(heap, head, ids, routes)
    ensures head == IdAt(ids, 0) && |ids| == |routes|
  {
  }
}
