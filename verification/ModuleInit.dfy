// The start-up of the framework: modules are initialised one after the other, each
// when the modules it depends on are, and the list is searched again from its head
// after every module that was initialised.
module ModuleInit {
  import opened Basics

  // Dependencies of a module as they are recorded: a name that is already there is
  // dropped, the first one heads the list, and any other replaces what follows it.

  function Recorded(names: seq<string>): seq<string> {
    if names == [] then [] else Record(Recorded(names[..|names| - 1]), names[|names| - 1])
  }

  // nsfw_module_set_instance_depends
  function Record(deps: seq<string>, name: string): seq<string> {
    if name in deps then deps else if deps == [] then [name] else [deps[0], name]
  }

  // The first name stays, and of the others the last one that is not the first.
  lemma {:induction false} RecordedNames(names: seq<string>)
    requires names != []
    ensures var d := Recorded(names);
            && 1 <= |d| <= 2 && d[0] == names[0]
            && (|d| == 1 <==> forall i | 0 <= i < |names| :: names[i] == names[0])
            && (|d| == 2 ==> exists k | 0 < k < |names| ::
                  && names[k] == d[1] != d[0]
                  && forall i | k < i < |names| :: names[i] == d[1] || names[i] == d[0])
  {
    var n := |names| - 1;
    if n > 0 {
      var init := names[..n];
      RecordedNames(init);
      var d := Recorded(init);
      if |d| == 2 {
        var k :| 0 < k < |init| && init[k] == d[1] != d[0] &&
                 forall i | k < i < |init| :: init[i] == d[1] || init[i] == d[0];
        assert names[k] == d[1];
        assert names[n] == d[0] || names[n] == d[1] || Recorded(names) == [d[0], names[n]];
      }
    } else {
      assert names[..0] == [];
    }
  }

  predicate Three(names: seq<string>, i: nat, j: nat, k: nat) {
    && i < |names| && j < |names| && k < |names|
    && names[i] != names[j] && names[j] != names[k] && names[i] != names[k]
  }

  // A declared dependency is lost exactly when three different ones are declared.
  lemma LostNames(names: seq<string>)
    ensures (exists i | 0 <= i < |names| :: names[i] !in Recorded(names)) <==>
            (exists i: nat, j: nat, k: nat :: Three(names, i, j, k))
  {
    hide Recorded;
    if i :| 0 <= i < |names| && names[i] !in Recorded(names) {
      LostOne(names, i);
    }
    if i: nat, j: nat, k: nat :| Three(names, i, j, k) {
      TooMany(names, i, j, k);
    }
  }

  lemma TooMany(names: seq<string>, i: nat, j: nat, k: nat)
    requires Three(names, i, j, k)
    ensures names[i] !in Recorded(names) || names[j] !in Recorded(names) || names[k] !in Recorded(names)
  {
    hide Recorded;
    RecordedNames(names);
  }

  lemma LostOne(names: seq<string>, i: nat)
    requires i < |names| && names[i] !in Recorded(names)
    ensures exists j: nat, k: nat :: Three(names, i, j, k)
  {
    hide Recorded;
    RecordedNames(names);
    var d := Recorded(names);
    assert d[0] in d;
    assert |d| == 2 ==> d[1] in d;
    assert |d| == 2;
    var k :| 0 < k < |names| && names[k] == d[1] != d[0];
    assert Three(names, i, 0, k);
  }

  lemma MiddleLost()
    ensures Recorded(["a", "b", "c"]) == ["a", "c"]
  {
    assert ["a", "b", "c"][..2] == ["a", "b"];
    assert ["a", "b"][..1] == ["a"];
    assert ["a"][..0] == [];
    assert Recorded(["a"]) == ["a"];
    assert Recorded(["a", "b"]) == ["a", "b"];
  }

  datatype Stat = Checking | Depending | Done | Fail

  // father is the number of another module, or -1 for a root; initOk is what its init
  // function answers, true for a module without one.
  datatype Module = Module(name: string, father: int, deps: seq<string>, initOk: bool)

  // The list of modules in its order, the state of each, and which of its dependencies
  // are ready.
  datatype State = State(list: seq<nat>, stat: seq<Stat>, ready: seq<seq<bool>>)

  ghost predicate Shape(mods: seq<Module>, s: State) {
    && |s.stat| == |mods| && |s.ready| == |mods|
    && (forall k | 0 <= k < |mods| :: |s.ready[k]| == |mods[k].deps|)
    && (forall p | 0 <= p < |s.list| :: s.list[p] < |mods|)
    && NoDup(s.list)
  }

  predicate Pending(t: Stat) { t == Checking || t == Depending }

  ghost predicate AllReady(flags: seq<bool>) {
    forall j | 0 <= j < |flags| :: flags[j]
  }

  ghost function DoneSet(s: State): set<nat>
    requires forall p | 0 <= p < |s.list| :: s.list[p] < |s.stat|
  {
    set k | k in s.list && s.stat[k] == Done
  }

  // Some other module of the set has this name.
  ghost predicate Provided(mods: seq<Module>, done: set<nat>, k: nat, name: string) {
    exists d | d in done :: d < |mods| && d != k && mods[d].name == name
  }

  ghost predicate Satisfied(mods: seq<Module>, done: set<nat>, k: nat)
    requires k < |mods|
  {
    forall j | 0 <= j < |mods[k].deps| :: Provided(mods, done, k, mods[k].deps[j])
  }

  // The flags say which dependencies are done.
  ghost predicate FlagsRight(mods: seq<Module>, s: State)
    requires Shape(mods, s)
  {
    forall k, j | k in s.list && 0 <= j < |mods[k].deps| && Pending(s.stat[k]) ::
      s.ready[k][j] <==> Provided(mods, DoneSet(s), k, mods[k].deps[j])
  }

  ghost predicate Fresh(mods: seq<Module>, s: State) {
    && Shape(mods, s)
    && (forall k | 0 <= k < |mods| :: s.stat[k] == Checking)
    && (forall k, j | 0 <= k < |mods| && 0 <= j < |mods[k].deps| :: !s.ready[k][j])
  }

  // The modules that may run are initialised as soon as their dependencies are.
  ghost predicate Closed(mods: seq<Module>, s: State, father: int, c: set<nat>)
    requires Shape(mods, s)
  {
    forall k | k in s.list && mods[k].father == father && Pending(s.stat[k]) && Satisfied(mods, c, k) :: k in c
  }

  // The order in which modules were added to those that were done at the start.
  ghost predicate Topological(mods: seq<Module>, s: State, father: int, order: seq<nat>)
    requires Shape(mods, s)
  {
    forall n | 0 <= n < |order| :: InTurn(mods, s, father, order, n)
  }

  ghost predicate InTurn(mods: seq<Module>, s: State, father: int, order: seq<nat>, n: nat)
    requires Shape(mods, s) && n < |order|
  {
    && order[n] in s.list && order[n] !in order[..n]
    && mods[order[n]].father == father && Pending(s.stat[order[n]])
    && Satisfied(mods, DoneSet(s) + Items(order[..n]), order[n])
  }

  function Items(order: seq<nat>): set<nat> { set k | k in order }

  // Modules initialised in turn lie in every closed set with those done at the start.
  lemma {:induction false} TurnsInClosed(mods: seq<Module>, s: State, father: int, order: seq<nat>, c: set<nat>)
    requires Shape(mods, s) && Topological(mods, s, father, order)
    requires Closed(mods, s, father, c) && DoneSet(s) <= c
    ensures Items(order) <= c
  {
    if order != [] {
      var n := |order| - 1;
      var init := order[..n];
      forall m | 0 <= m < |init|
        ensures InTurn(mods, s, father, init, m)
      {
        assert InTurn(mods, s, father, order, m);
        assert init[..m] == order[..m];
      }
      TurnsInClosed(mods, s, father, init, c);
      assert InTurn(mods, s, father, order, n);
      MoreSatisfied(mods, DoneSet(s) + Items(init), c, order[n]);
      assert order == init + [order[n]];
    }
  }

  lemma MoreSatisfied(mods: seq<Module>, a: set<nat>, b: set<nat>, k: nat)
    requires k < |mods| && a <= b && Satisfied(mods, a, k)
    ensures Satisfied(mods, b, k)
  {
    forall j | 0 <= j < |mods[k].deps|
      ensures Provided(mods, b, k, mods[k].deps[j])
    {
      assert Provided(mods, a, k, mods[k].deps[j]);
    }
  }

  // c is the least set that holds what was done and is closed.
  ghost predicate Least(mods: seq<Module>, s: State, father: int, c: set<nat>)
    requires Shape(mods, s)
  {
    && DoneSet(s) <= c && Closed(mods, s, father, c)
    && forall d: set<nat> | DoneSet(s) <= d && Closed(mods, s, father, d) :: c <= d
  }

  // There is a least closed set.
  lemma LeastExists(mods: seq<Module>, s: State, father: int) returns (c: set<nat>)
    requires Shape(mods, s)
    ensures Least(mods, s, father, c)
  {
    hide Satisfied, DoneSet;
    c := GrowLeast(mods, s, father, []);
  }

  lemma {:induction false} GrowLeast(mods: seq<Module>, s: State, father: int, order: seq<nat>) returns (c: set<nat>)
    requires Shape(mods, s) && Topological(mods, s, father, order)
    ensures Least(mods, s, father, c)
    decreases Items(s.list) - Items(order)
  {
    hide Satisfied, DoneSet;
    c := DoneSet(s) + Items(order);
    if Closed(mods, s, father, c) {
      forall d: set<nat> | DoneSet(s) <= d && Closed(mods, s, father, d)
        ensures c <= d
      {
        TurnsInClosed(mods, s, father, order, d);
      }
    } else {
      var k :| k in s.list && mods[k].father == father && Pending(s.stat[k]) && Satisfied(mods, c, k) && k !in c;
      OneMoreTurn(mods, s, father, order, k);
      assert k in Items(s.list) && k !in Items(order);
      c := GrowLeast(mods, s, father, order + [k]);
    }
  }

  lemma OneMoreTurn(mods: seq<Module>, s: State, father: int, order: seq<nat>, k: nat)
    requires Shape(mods, s) && Topological(mods, s, father, order)
    requires k in s.list && mods[k].father == father && Pending(s.stat[k]) && k !in order
    requires Satisfied(mods, DoneSet(s) + Items(order), k)
    ensures Topological(mods, s, father, order + [k]) && Items(order + [k]) == Items(order) + {k}
  {
    hide Satisfied, DoneSet;
    forall n | 0 <= n < |order + [k]|
      ensures InTurn(mods, s, father, order + [k], n)
    {
      if n < |order| {
        assert InTurn(mods, s, father, order, n);
        assert (order + [k])[..n] == order[..n];
      } else {
        assert (order + [k])[..n] == order;
      }
    }
  }

  // Every module of c that was not done at the start has an init function that succeeds.
  ghost predicate AllInitOk(mods: seq<Module>, s: State, c: set<nat>)
    requires Shape(mods, s)
  {
    forall k | k in c && k !in DoneSet(s) :: k < |mods| && mods[k].initOk
  }

  // A module whose turn it is lies in the least closed set.
  lemma TurnInLeast(mods: seq<Module>, s: State, father: int, order: seq<nat>, k: nat, c: set<nat>)
    requires Shape(mods, s) && Topological(mods, s, father, order) && Least(mods, s, father, c)
    requires k in s.list && mods[k].father == father && Pending(s.stat[k])
    requires Satisfied(mods, DoneSet(s) + Items(order), k)
    ensures k in c && k !in DoneSet(s)
  {
    hide Satisfied;
    TurnsInClosed(mods, s, father, order, c);
    MoreSatisfied(mods, DoneSet(s) + Items(order), c, k);
  }

  // The order of the list does not matter: lists with the same modules have the same
  // least closed set.
  lemma OrderFree(mods: seq<Module>, s: State, t: State, father: int, c: set<nat>, d: set<nat>)
    requires Shape(mods, s) && Shape(mods, t) && Items(s.list) == Items(t.list) && s.stat == t.stat
    requires Least(mods, s, father, c) && Least(mods, t, father, d)
    ensures c == d
  {
    assert forall k :: k in s.list <==> k in Items(s.list);
    assert forall k :: k in t.list <==> k in Items(t.list);
    assert DoneSet(s) == DoneSet(t);
    assert Closed(mods, s, father, d) && Closed(mods, t, father, c);
  }

  // nsfw_module_instance_depend_check: the other waiting modules learn that k is done.
  function Marked(mods: seq<Module>, s: State, k: nat): (r: seq<seq<bool>>)
    requires |s.stat| == |mods| == |s.ready| && k < |mods|
    ensures |r| == |s.ready|
  {
    seq(|s.ready|, c requires 0 <= c < |s.ready| =>
      if c in s.list && c != k && Pending(s.stat[c]) then MarkedDeps(mods[c].deps, s.ready[c], mods[k].name)
      else s.ready[c])
  }

  function MarkedDeps(deps: seq<string>, flags: seq<bool>, name: string): (r: seq<bool>)
    ensures |r| == |flags|
  {
    seq(|flags|, j requires 0 <= j < |flags| => flags[j] || (j < |deps| && deps[j] == name))
  }

  // The flags of module c when the first p modules of the list were visited.
  function MarkedUpTo(mods: seq<Module>, s: State, k: nat, p: nat, c: nat): seq<bool>
    requires |s.stat| == |mods| == |s.ready| && k < |mods| && c < |mods| && p <= |s.list|
  {
    if c in s.list[..p] && c != k && Pending(s.stat[c]) then MarkedDeps(mods[c].deps, s.ready[c], mods[k].name)
    else s.ready[c]
  }

  lemma ShapeOf(mods: seq<Module>, s: State)
    requires Shape(mods, s)
    ensures |s.stat| == |mods| == |s.ready| && forall p | 0 <= p < |s.list| :: s.list[p] < |mods|
  {
  }

  lemma MarkedNext(mods: seq<Module>, s: State, k: nat, p: nat)
    requires Shape(mods, s) && k < |mods| && p < |s.list|
    ensures s.list[p] < |mods| && MarkedUpTo(mods, s, k, p, s.list[p]) == s.ready[s.list[p]]
    ensures forall c | 0 <= c < |mods| &&
            c != s.list[p] :: MarkedUpTo(mods, s, k, p + 1, c) == MarkedUpTo(mods, s, k, p, c)
    ensures MarkedUpTo(mods, s, k, p + 1, s.list[p]) ==
            var c := s.list[p];
            if c != k && Pending(s.stat[c]) then MarkedDeps(mods[c].deps, s.ready[c], mods[k].name) else s.ready[c]
  {
    hide MarkedDeps;
    assert s.list[..p + 1] == s.list[..p] + [s.list[p]];
    assert s.list[p] !in s.list[..p];
  }

  lemma MarkedAll(mods: seq<Module>, s: State, k: nat)
    requires |s.stat| == |mods| == |s.ready| && k < |mods|
    ensures forall c | 0 <= c < |mods| :: MarkedUpTo(mods, s, k, |s.list|, c) == Marked(mods, s, k)[c]
  {
    hide MarkedDeps;
    assert s.list[..|s.list|] == s.list;
  }

  // Flags of the same lengths keep the shape.
  lemma MarkedShape(mods: seq<Module>, s: State, t: State)
    requires Shape(mods, t) && s.list == t.list && s.stat == t.stat && |s.ready| == |mods|
    requires forall c | 0 <= c < |mods| :: |s.ready[c]| == |t.ready[c]|
    ensures Shape(mods, s)
  {
  }

  // The state after module k was initialised.
  function Finished(mods: seq<Module>, s: State, k: nat): State
    requires |s.stat| == |mods| == |s.ready| && k < |mods|
  {
    var t := s.(stat := s.stat[k := Done]);
    t.(ready := Marked(mods, t, k))
  }

  lemma FinishedFlags(mods: seq<Module>, s: State, k: nat)
    requires Shape(mods, s) && FlagsRight(mods, s) && k in s.list && Pending(s.stat[k])
    ensures var t := Finished(mods, s, k);
            Shape(mods, t) && FlagsRight(mods, t) && DoneSet(t) == DoneSet(s) + {k}
  {
    var t := Finished(mods, s, k);
    assert DoneSet(t) == DoneSet(s) + {k};
    forall c, j | c in t.list && 0 <= j < |mods[c].deps| && Pending(t.stat[c])
      ensures t.ready[c][j] <==> Provided(mods, DoneSet(t), c, mods[c].deps[j])
    {
      OneMore(mods, DoneSet(s), k, c, mods[c].deps[j]);
    }
  }

  lemma OneMore(mods: seq<Module>, done: set<nat>, k: nat, c: nat, name: string)
    requires k < |mods|
    ensures Provided(mods, done + {k}, c, name) <==> Provided(mods, done, c, name) || (k != c && mods[k].name == name)
  {
    if Provided(mods, done + {k}, c, name) {
      var d :| d in done + {k} && d < |mods| && d != c && mods[d].name == name;
      assert d == k || d in done;
    }
    if Provided(mods, done, c, name) {
      var d :| d in done && d < |mods| && d != c && mods[d].name == name;
      assert d in done + {k};
    }
    if k != c && mods[k].name == name {
      assert k in done + {k};
    }
  }

  // A waiting module whose flags are all set is next in turn.
  lemma NextTurn(mods: seq<Module>, s0: State, s: State, father: int, order: seq<nat>, k: nat)
    requires Shape(mods, s0) && Topological(mods, s0, father, order)
    requires Shape(mods, s) && FlagsRight(mods, s) && s.list == s0.list
    requires DoneSet(s) == DoneSet(s0) + Items(order)
    requires k in s.list && mods[k].father == father && Pending(s.stat[k]) && Pending(s0.stat[k]) && k !in order
    requires AllReady(s.ready[k])
    ensures Satisfied(mods, DoneSet(s), k)
    ensures Topological(mods, s0, father, order + [k]) && Items(order + [k]) == Items(order) + {k}
  {
    assert Satisfied(mods, DoneSet(s), k);
    OneMoreTurn(mods, s0, father, order, k);
  }

  // The walk leaves a module behind unless it may be initialised.
  ghost predicate Settled(mods: seq<Module>, s: State, father: int, k: nat)
    requires |s.stat| == |mods| == |s.ready| && k < |mods|
  {
    mods[k].father == father && Pending(s.stat[k]) ==> !AllReady(s.ready[k]) && s.stat[k] == Depending
  }

  // The stats move from waiting to done for the modules in order, and nowhere else.
  ghost predicate Progress(s0: State, s: State, order: seq<nat>) {
    && |s0.stat| == |s.stat| && s0.list == s.list
    && forall k | 0 <= k < |s.stat| ::
         if k in order then s.stat[k] == Done
         else if Pending(s0.stat[k]) then Pending(s.stat[k])
         else s.stat[k] == s0.stat[k]
  }

  // The modules that are not done are marked as waiting.
  ghost predicate OthersWait(mods: seq<Module>, s: State, father: int)
    requires Shape(mods, s)
  {
    forall k | k in s.list && mods[k].father == father && Pending(s.stat[k]) :: s.stat[k] == Depending
  }

  // When the walk reaches the end the modules that are done are the least closed set.
  lemma EndLeast(mods: seq<Module>, s0: State, s: State, father: int, order: seq<nat>)
    requires Shape(mods, s0) && Walking(mods, s0, s, father, order) && SettledUpTo(mods, s, father, |s.list|)
    ensures FlagsRight(mods, s) && Progress(s0, s, order) && DoneSet(s) == DoneSet(s0) + Items(order)
    ensures Topological(mods, s0, father, order) && Shape(mods, s) && Least(mods, s0, father, DoneSet(s))
    ensures OthersWait(mods, s, father)
  {
    forall k | k in s.list && mods[k].father == father && Pending(s.stat[k])
      ensures s.stat[k] == Depending
    {
      var p :| 0 <= p < |s.list| && s.list[p] == k;
      assert Settled(mods, s, father, s.list[p]);
    }
    var done := DoneSet(s);
    forall k | k in s0.list && mods[k].father == father && Pending(s0.stat[k]) && Satisfied(mods, done, k)
      ensures k in done
    {
    }
    forall d: set<nat> | DoneSet(s0) <= d && Closed(mods, s0, father, d)
      ensures done <= d
    {
      TurnsInClosed(mods, s0, father, order, d);
    }
  }

  class Manager {
    const mods: seq<Module>
    var list: seq<nat>
    var stat: seq<Stat>
    var ready: seq<seq<bool>>
    var doneList: seq<nat>
    // The init functions called so far.
    ghost var calls: seq<nat>

    ghost function View(): State
      reads this
    {
      State(list, stat, ready)
    }

    // nsfw_module_instance_isIndepend, which answers 1 for a module that still waits
    method Waits(k: nat) returns (waits: bool)
      requires Shape(mods, View()) && k < |mods|
      ensures waits <==> !AllReady(ready[k])
    {
      var j := 0;
      while j < |ready[k]|
        invariant 0 <= j <= |ready[k]| && forall i | 0 <= i < j :: ready[k][i]
      {
        if !ready[k][j] {
          return true;
        }
        j := j + 1;
      }
      return false;
    }

    method MarkOne(c: nat, name: string)
      requires Shape(mods, View()) && c < |mods|
      modifies this`ready
      ensures ready == old(ready)[c := MarkedDeps(mods[c].deps, old(ready)[c], name)]
    {
      var j := 0;
      while j < |mods[c].deps|
        invariant 0 <= j <= |mods[c].deps| && |ready| == |old(ready)| && |ready[c]| == |mods[c].deps|
        invariant ready == old(ready)[c := ready[c]]
        invariant forall i | 0 <= i < |ready[c]| ::
                    ready[c][i] == (old(ready)[c][i] || (i < j && mods[c].deps[i] == name))
      {
        if !ready[c][j] && mods[c].deps[j] == name {
          ready := ready[c := ready[c][j := true]];
        }
        j := j + 1;
      }
      assert ready[c] == MarkedDeps(mods[c].deps, old(ready)[c], name);
    }

    method DependCheck(k: nat)
      requires Shape(mods, View()) && k < |mods|
      modifies this`ready
      ensures ready == Marked(mods, old(View()), k)
    {
      hide Shape, MarkedDeps;
      ShapeOf(mods, View());
      ghost var s := View();
      var p := 0;
      while p < |list|
        invariant 0 <= p <= |list| && Shape(mods, View()) && |ready| == |s.ready|
        invariant forall c | 0 <= c < |mods| :: ready[c] == MarkedUpTo(mods, s, k, p, c)
      {
        var c := list[p];
        ShapeOf(mods, View());
        MarkedNext(mods, s, k, p);
        if c != k && Pending(stat[c]) {
          MarkOne(c, mods[k].name);
          MarkedShape(mods, View(), s);
        }
        p := p + 1;
      }
      MarkedAll(mods, s, k);
    }

    // nstack_framework_initChild_unsafe. order are the modules initialised, in turn;
    // failed is the one whose init function failed, if any.
    method InitChild(father: int) returns (ret: int, ghost order: seq<nat>, ghost failed: nat)
      requires Shape(mods, View()) && FlagsRight(mods, View())
      modifies this`stat, this`ready, this`doneList, this`calls
      ensures Shape(mods, View()) && Topological(mods, old(View()), father, order)
      ensures InListOrder(mods, old(View()), father, order)
      ensures doneList == old(doneList) + order && forall k | k in order :: k < |mods| && mods[k].initOk
      ensures ret == 0 ==>
                && FlagsRight(mods, View()) && calls == old(calls) + order
                && Progress(old(View()), View(), order)
                && DoneSet(View()) == DoneSet(old(View())) + Items(order)
                && Least(mods, old(View()), father, DoneSet(View())) && OthersWait(mods, View(), father)
      ensures ret != 0 ==>
                && ret == -1 && calls == old(calls) + order + [failed]
                && failed in list && failed !in order && !mods[failed].initOk && mods[failed].father == father
                && stat[failed] == Fail && Satisfied(mods, DoneSet(old(View())) + Items(order), failed)
                && Foremost(mods, old(View()), father, order, failed)
      ensures forall c: set<nat> | Least(mods, old(View()), father, c) ::
                ret == 0 <==> AllInitOk(mods, old(View()), c)
    {
      hide Items, InListOrder, Foremost, OthersWait, AllInitOk, Walking, SettledUpTo, Shape, FlagsRight, Topological,
           DoneSet, Satisfied, Least, AllReady, Marked, Progress;
      order, failed := [], 0;
      ghost var s0 := View();
      var pos := 0;
      NothingYet(mods, s0, father);
      while pos < |list|
        invariant 0 <= pos <= |list| && list == s0.list
        invariant Walking(mods, s0, View(), father, order) && SettledUpTo(mods, View(), father, pos)
        invariant InListOrder(mods, s0, father, order)
        invariant doneList == old(doneList) + order && calls == old(calls) + order
        invariant forall k | k in order :: k < |mods| && mods[k].initOk
        decreases Items(list) - Items(order), |list| - pos,
                  if pos < |list| && IsDepending(stat, list[pos]) then 1 else 0
      {
        WalkShape(mods, s0, View(), father, order, pos);
        var k := list[pos];
        if father != mods[k].father || !Pending(stat[k]) {
          Settle(mods, View(), father, pos);
          pos := pos + 1;
        } else {
          var waits := Waits(k);
          if stat[k] == Depending {
            if waits {
              Settle(mods, View(), father, pos);
              pos := pos + 1;
            } else {
              StatStep(mods, s0, View(), father, order, k, Checking, pos);
              stat := stat[k := Checking];
            }
          } else if waits {
            StatStep(mods, s0, View(), father, order, k, Depending, pos);
            stat := stat[k := Depending];
            Settle(mods, View(), father, pos);
            pos := pos + 1;
          } else {
            calls := calls + [k];
            SettledPassed(mods, s0, View(), father, order, pos);
            DoneStep(mods, s0, View(), father, order, k);
            if !mods[k].initOk {
              FailShape(mods, s0, View(), k);
              FailedOutcome(mods, s0, father, order, k);
              stat := stat[k := Fail];
              failed := k;
              return -1, order, failed;
            }
            stat := stat[k := Done];
            DependCheck(k);
            doneList := doneList + [k];
            OneFewer(list, order, k);
            OneMoreInOrder(mods, s0, father, order, k);
            order := order + [k];
            pos := 0;
          }
        }
      }
      EndLeast(mods, s0, View(), father, order);
      DoneOutcome(mods, s0, View(), father, order);
      ret := 0;
    }
  }

  predicate IsDepending(stat: seq<Stat>, k: nat) { k < |stat| && stat[k] == Depending }

  lemma OneFewer(list: seq<nat>, order: seq<nat>, k: nat)
    requires k in list && k !in order
    ensures Items(list) - Items(order + [k]) < Items(list) - Items(order)
  {
    assert k in Items(list) - Items(order) && k !in Items(list) - Items(order + [k]);
  }

  lemma NothingYet(mods: seq<Module>, s: State, father: int)
    requires Shape(mods, s) && FlagsRight(mods, s)
    ensures Walking(mods, s, s, father, []) && SettledUpTo(mods, s, father, 0) && InListOrder(mods, s, father, [])
  {
  }

  // Module k comes next: none of the modules before it in the list could be initialised.
  ghost predicate Foremost(mods: seq<Module>, s: State, father: int, order: seq<nat>, k: nat)
    requires Shape(mods, s)
  {
    exists pos | 0 <= pos < |s.list| :: s.list[pos] == k && NoneBefore(mods, s, father, order, pos)
  }

  ghost predicate NoneBefore(mods: seq<Module>, s: State, father: int, order: seq<nat>, pos: nat)
    requires Shape(mods, s) && pos <= |s.list|
  {
    forall p | 0 <= p < pos :: Passed(mods, s, father, order, s.list[p])
  }

  ghost predicate Passed(mods: seq<Module>, s: State, father: int, order: seq<nat>, m: nat)
    requires Shape(mods, s) && m < |mods|
  {
    m in order || mods[m].father != father || !Pending(s.stat[m]) ||
    !Satisfied(mods, DoneSet(s) + Items(order), m)
  }

  // Each module was the first in the list that could be initialised.
  ghost predicate InListOrder(mods: seq<Module>, s: State, father: int, order: seq<nat>)
    requires Shape(mods, s)
  {
    forall n | 0 <= n < |order| :: Foremost(mods, s, father, order[..n], order[n])
  }

  lemma SettledPassed(mods: seq<Module>, s0: State, s: State, father: int, order: seq<nat>, pos: nat)
    requires Shape(mods, s0) && Walking(mods, s0, s, father, order)
    requires SettledUpTo(mods, s, father, pos) && pos < |s.list|
    ensures s0.list == s.list && Foremost(mods, s0, father, order, s.list[pos])
  {
    forall p | 0 <= p < pos
      ensures Passed(mods, s0, father, order, s0.list[p])
    {
      assert Settled(mods, s, father, s.list[p]);
    }
    assert NoneBefore(mods, s0, father, order, pos);
  }

  lemma OneMoreInOrder(mods: seq<Module>, s: State, father: int, order: seq<nat>, k: nat)
    requires Shape(mods, s) && InListOrder(mods, s, father, order) && Foremost(mods, s, father, order, k)
    ensures InListOrder(mods, s, father, order + [k])
  {
    hide Foremost, Shape;
    forall n | 0 <= n < |order + [k]|
      ensures Foremost(mods, s, father, (order + [k])[..n], (order + [k])[n])
    {
      assert n < |order| ==> (order + [k])[..n] == order[..n];
      assert (order + [k])[..|order|] == order;
    }
  }

  // What holds before every step of the walk that began in s0.
  ghost predicate Walking(mods: seq<Module>, s0: State, s: State, father: int, order: seq<nat>)
    requires Shape(mods, s0)
  {
    && Shape(mods, s) && FlagsRight(mods, s) && Progress(s0, s, order)
    && Topological(mods, s0, father, order) && DoneSet(s) == DoneSet(s0) + Items(order)
  }

  ghost predicate SettledUpTo(mods: seq<Module>, s: State, father: int, pos: nat) {
    && Shape(mods, s) && pos <= |s.list|
    && forall p | 0 <= p < pos :: Settled(mods, s, father, s.list[p])
  }

  lemma WalkShape(mods: seq<Module>, s0: State, s: State, father: int, order: seq<nat>, pos: nat)
    requires Shape(mods, s0) && Walking(mods, s0, s, father, order) && pos < |s.list|
    ensures Shape(mods, s) && s.list[pos] < |mods| && |s.stat| == |s.ready| == |mods|
  {
  }

  lemma Settle(mods: seq<Module>, s: State, father: int, pos: nat)
    requires SettledUpTo(mods, s, father, pos) && pos < |s.list| && s.list[pos] < |mods|
    requires |s.stat| == |s.ready| == |mods| && Settled(mods, s, father, s.list[pos])
    ensures SettledUpTo(mods, s, father, pos + 1)
  {
  }

  lemma StatStep(mods: seq<Module>, s0: State, s: State, father: int, order: seq<nat>, k: nat, t: Stat, pos: nat)
    requires Shape(mods, s0) && Walking(mods, s0, s, father, order) && SettledUpTo(mods, s, father, pos)
    requires k < |mods| && |s.stat| == |mods| && Pending(s.stat[k]) && Pending(t)
    requires pos < |s.list| && s.list[pos] == k
    ensures var u := s.(stat := s.stat[k := t]);
            Walking(mods, s0, u, father, order) && SettledUpTo(mods, u, father, pos)
  {
    hide FlagsRight, Topological, DoneSet, AllReady;
    StatKept(mods, s, k, t);
    var u := s.(stat := s.stat[k := t]);
    forall p | 0 <= p < pos
      ensures Settled(mods, u, father, u.list[p])
    {
      assert Settled(mods, s, father, s.list[p]);
    }
  }

  lemma DoneStep(mods: seq<Module>, s0: State, s: State, father: int, order: seq<nat>, k: nat)
    requires Shape(mods, s0) && Walking(mods, s0, s, father, order)
    requires k in s.list && mods[k].father == father && Pending(s.stat[k]) && AllReady(s.ready[k])
    ensures Walking(mods, s0, Finished(mods, s, k), father, order + [k])
    ensures SettledUpTo(mods, Finished(mods, s, k), father, 0) && Shape(mods, s.(stat := s.stat[k := Done]))
    ensures k !in order && Items(order + [k]) == Items(order) + {k} && k in Items(s.list)
    ensures Topological(mods, s0, father, order) && Satisfied(mods, DoneSet(s0) + Items(order), k)
    ensures k in s0.list && k < |s0.stat| && Pending(s0.stat[k])
  {
    hide FlagsRight, Topological, DoneSet, AllReady, Satisfied, Marked;
    NextTurn(mods, s0, s, father, order, k);
    FinishedFlags(mods, s, k);
    assert DoneSet(s0) + Items(order) + {k} == DoneSet(s0) + (Items(order) + {k});
  }

  // A module of the least set failed, whichever that set is.
  lemma FailedOutcome(mods: seq<Module>, s: State, father: int, order: seq<nat>, k: nat)
    requires Shape(mods, s) && Topological(mods, s, father, order)
    requires k in s.list && mods[k].father == father && Pending(s.stat[k]) && !mods[k].initOk
    requires Satisfied(mods, DoneSet(s) + Items(order), k)
    ensures forall c: set<nat> | Least(mods, s, father, c) :: !AllInitOk(mods, s, c)
  {
    hide Satisfied, Least, DoneSet, Topological, Shape;
    forall c: set<nat> | Least(mods, s, father, c)
      ensures !AllInitOk(mods, s, c)
    {
      TurnInLeast(mods, s, father, order, k, c);
    }
  }

  lemma DoneOutcome(mods: seq<Module>, s0: State, s: State, father: int, order: seq<nat>)
    requires Shape(mods, s0) && Shape(mods, s) && Least(mods, s0, father, DoneSet(s))
    requires DoneSet(s) == DoneSet(s0) + Items(order) && forall k | k in order :: k < |mods| && mods[k].initOk
    ensures forall c: set<nat> | Least(mods, s0, father, c) :: AllInitOk(mods, s0, c)
  {
  }

  lemma FailShape(mods: seq<Module>, s0: State, s: State, k: nat)
    requires Shape(mods, s) && k < |mods|
    ensures Shape(mods, s.(stat := s.stat[k := Fail]))
  {
  }

  // Changing the stat of a waiting module to the other waiting stat.
  lemma StatKept(mods: seq<Module>, s: State, k: nat, t: Stat)
    requires Shape(mods, s) && FlagsRight(mods, s) && k < |mods| && Pending(s.stat[k]) && Pending(t)
    ensures var u := s.(stat := s.stat[k := t]); FlagsRight(mods, u) && DoneSet(u) == DoneSet(s)
  {
    var u := s.(stat := s.stat[k := t]);
    assert DoneSet(u) == DoneSet(s);
  }

  lemma FreshFlags(mods: seq<Module>, s: State)
    requires Fresh(mods, s)
    ensures FlagsRight(mods, s) && DoneSet(s) == {}
  {
    assert DoneSet(s) == {};
  }

  // The list in the order of priorities, oldest first among equals.

  ghost predicate InOrder(list: seq<nat>, prio: seq<int>) {
    && (forall p | 0 <= p < |list| :: list[p] < |prio|)
    && (forall p, q | 0 <= p < q < |list| :: list[p] != list[q] && prio[list[p]] <= prio[list[q]])
  }

  // k stands after all modules of its priority or a lower one, before the others.
  ghost predicate InsertedAt(list: seq<nat>, prio: seq<int>, k: nat, pos: nat)
    requires k < |prio| && pos <= |list| && forall p | 0 <= p < |list| :: list[p] < |prio|
  {
    && (forall p | 0 <= p < pos :: prio[list[p]] <= prio[k])
    && (forall p | pos <= p < |list| :: prio[k] < prio[list[p]])
  }

  lemma InsertKeeps(list: seq<nat>, prio: seq<int>, k: nat, pos: nat)
    requires InOrder(list, prio) && k < |prio| && k !in list && pos <= |list| && InsertedAt(list, prio, k, pos)
    ensures InOrder(With(list, pos, k), prio)
  {
    var t := With(list, pos, k);
    forall p, q | 0 <= p < q < |t|
      ensures t[p] != t[q] && prio[t[p]] <= prio[t[q]]
    {
      assert t[p] == if p < pos then list[p] else if p == pos then k else list[p - 1];
      assert t[q] == if q < pos then list[q] else if q == pos then k else list[q - 1];
    }
  }

  lemma InRange(list: seq<nat>, prio: seq<int>)
    requires InOrder(list, prio)
    ensures forall p | 0 <= p < |list| :: list[p] < |prio|
  {
  }

  // In an ordered list the two neighbours decide the place.
  lemma PlaceFound(list: seq<nat>, prio: seq<int>, k: nat, pos: nat)
    requires InOrder(list, prio) && k < |prio| && k !in list && pos <= |list|
    requires pos > 0 ==> prio[list[pos - 1]] <= prio[k]
    requires pos < |list| ==> prio[k] < prio[list[pos]]
    ensures InsertedAt(list, prio, k, pos) && InOrder(With(list, pos, k), prio)
  {
    hide With;
    InsertKeeps(list, prio, k, pos);
  }

  class ModuleList {
    var list: seq<nat>
    var prio: seq<int>

    // nsfw_module_add_instance
    method Add(k: nat) returns (ghost pos: nat)
      requires InOrder(list, prio) && k < |prio| && k !in list
      modifies this`list
      ensures InOrder(list, prio) && pos <= |old(list)|
      ensures list == With(old(list), pos, k) && InsertedAt(old(list), prio, k, pos)
    {
      hide With, InOrder, InsertedAt;
      InRange(list, prio);
      if list == [] || prio[list[0]] > prio[k] {
        PlaceFound(list, prio, k, 0);
        list := With(list, 0, k);
        return 0;
      }
      var cur := 0;
      while cur + 1 < |list| && prio[list[cur + 1]] <= prio[k]
        invariant 0 <= cur < |list| && prio[list[cur]] <= prio[k]
      {
        cur := cur + 1;
      }
      PlaceFound(list, prio, k, cur + 1);
      list := With(list, cur + 1, k);
      return cur + 1;
    }

    // nsfw_module_del_instance, which looks behind the head of the list
    method Del(k: nat) returns (ghost pos: nat)
      requires list != [] && NoDup(list)
      modifies this`list
      ensures k in old(list) ==> pos < |old(list)| && old(list)[pos] == k && list == Without(old(list), pos)
      ensures k !in old(list) ==> list == old(list)
    {
      if list[0] == k {
        list := Without(list, 0);
        return 0;
      }
      var cur := 0;
      while cur + 1 < |list| && list[cur + 1] != k
        invariant 0 <= cur < |list| && k !in list[..cur + 1]
      {
        cur := cur + 1;
      }
      if cur + 1 == |list| {
        assert list[..cur + 1] == list;
        return cur;
      }
      list := Without(list, cur + 1);
      return cur + 1;
    }

    // nsfw_module_set_instance_priority: the other modules keep their order, and a
    // module that was not in the list is in it afterwards.
    method SetPriority(k: nat, priority: int) returns (ghost from: nat, ghost upto: nat)
      requires InOrder(list, prio) && list != [] && k < |prio|
      modifies this
      ensures InOrder(list, prio) && prio == old(prio)[k := priority]
      ensures k in old(list) ==> from < |old(list)| && old(list)[from] == k
      ensures var rest := if k in old(list) then Without(old(list), from) else old(list);
              && upto <= |rest| && list == With(rest, upto, k)
              && (forall p | 0 <= p < |rest| :: rest[p] < |prio|) && InsertedAt(rest, prio, k, upto)
    {
      prio := prio[k := priority];
      from := Del(k);
      DroppedOrder(old(list), old(prio), list, k, from, priority);
      upto := Add(k);
    }
  }

  lemma DroppedOrder(list: seq<nat>, prio: seq<int>, rest: seq<nat>, k: nat, pos: nat, priority: int)
    requires InOrder(list, prio) && k < |prio|
    requires k in list ==> pos < |list| && list[pos] == k && rest == Without(list, pos)
    requires k !in list ==> rest == list
    ensures InOrder(rest, prio[k := priority]) && k !in rest
  {
    if k in list {
      assert forall p | 0 <= p < |rest| :: rest[p] == if p < pos then list[p] else list[p + 1];
    }
  }
}
