/**
 The set of watched descriptors of one epoll instance: items sorted by descriptor
 in a red-black tree.
 */
module EpollTree {
  import opened Basics
  import opened RbZipper
  import opened RbMemory
  import opened RbSteps
  import opened RbTree

  const MAX_EPITEM_NUM: nat := 16384

  const ENOENT := 2

  /** The items of s are known and sorted by descriptor. */
  ghost predicate SortedBy(fd: map<Addr, int>, s: seq<Addr>) {
    && (forall i :: 0 <= i < |s| ==> s[i] in fd)
    && (forall i, j :: 0 <= i < j < |s| ==> fd[s[i]] <= fd[s[j]])
  }

  /** All items before the mark are below v and all items after it are above v (or equal, if loose). */
  ghost predicate Bounded(fd: map<Addr, int>, c: Ctx, v: int, loose: bool) {
    && (forall n :: n in Before(c) ==> n in fd && fd[n] < v)
    && (forall n :: n in After(c) ==> n in fd && (fd[n] > v || (loose && fd[n] == v)))
  }

  /** A sorted sequence is two sorted halves with every item of the first below every item of the second. */
  lemma SortedSplit(fd: map<Addr, int>, a: seq<Addr>, b: seq<Addr>)
    ensures SortedBy(fd, a + b) <==>
      SortedBy(fd, a) && SortedBy(fd, b) && (forall x, y :: x in a && y in b ==> fd[x] <= fd[y])
  {
    var s := a + b;
    if SortedBy(fd, s) {
      assert forall i :: 0 <= i < |a| ==> a[i] == s[i];
      assert forall i :: 0 <= i < |b| ==> b[i] == s[|a| + i];
    }
    if SortedBy(fd, a) && SortedBy(fd, b) && (forall x, y :: x in a && y in b ==> fd[x] <= fd[y]) {
      forall i, j | 0 <= i < j < |s| ensures s[i] in fd && s[j] in fd && fd[s[i]] <= fd[s[j]] {
        assert i < |a| ==> s[i] in a;
        assert j >= |a| ==> s[j] in b;
      }
    }
  }

  lemma SortedAround(fd: map<Addr, int>, pre: seq<Addr>, l: seq<Addr>, n: Addr, r: seq<Addr>, post: seq<Addr>)
    requires SortedBy(fd, pre + (l + [n] + r) + post)
    ensures n in fd
    ensures forall k :: k in l ==> k in fd && fd[k] <= fd[n]
    ensures forall k :: k in r ==> k in fd && fd[n] <= fd[k]
  {
    SortedSplit(fd, pre + (l + [n] + r), post);
    SortedSplit(fd, pre, l + [n] + r);
    SortedSplit(fd, l + [n], r);
    SortedSplit(fd, l, [n]);
    assert n in l + [n] && n in [n];
  }

  /** One search step: every item on the side not taken is on the wrong side of v. */
  lemma Narrow(fd: map<Addr, int>, c: Ctx, t: Tree, v: int, loose: bool)
    requires t.Branch? && SortedBy(fd, Order(c, t)) && Bounded(fd, c, v, loose)
    ensures t.node in fd
    ensures v > fd[t.node] ==> Bounded(fd, Frame(OnRight, t.node, t.color, t.left, c), v, loose)
    ensures v < fd[t.node] || (loose && v == fd[t.node]) ==>
            Bounded(fd, Frame(OnLeft, t.node, t.color, t.right, c), v, loose)
  {
    SortedAround(fd, Before(c), Inorder(t.left), t.node, Inorder(t.right), After(c));
    hide SortedBy, Order, Inorder;
  }

  /** A new item between the bounds keeps the order sorted. */
  lemma SortedInsert(fd: map<Addr, int>, c: Ctx, n: Addr)
    requires SortedBy(fd, Order(c, Leaf)) && n in fd && Bounded(fd, c, fd[n], true)
    ensures SortedBy(fd, Before(c) + [n] + After(c))
  {
    var a, b := Before(c), After(c);
    assert Order(c, Leaf) == a + b;
    SortedSplit(fd, a, b);
    SortedSplit(fd, a, [n]);
    SortedSplit(fd, a + [n], b);
  }

  lemma SortedRemoved(fd: map<Addr, int>, s: seq<Addr>, n: Addr, s': seq<Addr>)
    requires SortedBy(fd, s) && Removed(s, n, s')
    ensures SortedBy(fd, s')
  {
    var k :| 0 <= k < |s| && s[k] == n && s' == s[..k] + s[k + 1..];
    assert s == s[..k] + ([n] + s[k + 1..]);
    SortedSplit(fd, s[..k], [n] + s[k + 1..]);
    SortedSplit(fd, [n], s[k + 1..]);
    SortedSplit(fd, s[..k], s[k + 1..]);
  }

  lemma {:induction false} HeightSize(t: Tree)
    ensures Height(t) <= Size(t)
  {
    if t.Branch? {
      HeightSize(t.left);
      HeightSize(t.right);
    }
  }

  lemma HeightStep(t: Tree)
    requires t.Branch?
    ensures Height(t.left) < Height(t) && Height(t.right) < Height(t)
  {
  }

  lemma InOrder(c: Ctx, t: Tree)
    requires t.Branch?
    ensures t.node in Order(c, t)
  {
    assert t.node in Inorder(t);
  }

  /** When the search falls off the tree, no item watches v. */
  lemma Absent(fd: map<Addr, int>, c: Ctx, v: int, order: seq<Addr>)
    requires Order(c, Leaf) == order && Bounded(fd, c, v, false)
    ensures forall n :: n in order ==> n in fd && fd[n] != v
  {
    assert Order(c, Leaf) == Before(c) + After(c);
  }

  lemma {:induction false} SizeInorder(t: Tree)
    ensures Size(t) == |Inorder(t)|
  {
    if t.Branch? {
      SizeInorder(t.left);
      SizeInorder(t.right);
    }
  }

  /** A tree whose sort order has one more item holds the old items and the new one. */
  lemma OneMore(a: seq<Addr>, n: Addr, b: seq<Addr>, t: Tree, t': Tree)
    requires Inorder(t) == a + b && Inorder(t') == a + [n] + b
    ensures Removed(Inorder(t'), n, Inorder(t)) && Nodes(t') == Nodes(t) + {n} && Size(t') == Size(t) + 1
  {
    hide Inorder, Nodes, Removed, Size;
    RemovedAt(a, n, b);
    SizeInorder(t);
    SizeInorder(t');
    InorderNodes(t);
    InorderNodes(t');
    assert forall k :: k in a + [n] + b <==> k in a + b || k == n;
  }

  /** Linking and fix-up together wrote only nodes of the new tree. */
  lemma InsertedFrame(m0: Mem, m1: Mem, m2: Mem, c: Ctx, n: Addr, t: Tree, t': Tree)
    requires ChangedOnly(m0, m1, {n} + Hook(c)) && ChangedOnly(m1, m2, Nodes(t'))
    requires Nodes(t') == Nodes(t) + {n} && Inorder(t) == Order(c, Leaf)
    ensures ChangedOnly(m0, m2, Nodes(t'))
  {
    InorderNodes(t);
    OrderNodes(c, Leaf);
    hide Inorder, Nodes, Order;
    assert forall k :: k in Hook(c) ==> k in CtxNodes(c);
  }

  /** What holds at the start of a search. */
  lemma SearchStart(fd: map<Addr, int>, m: Mem, root: Addr, t: Tree, v: int)
    requires Rep(m, root, Top, t) && RedBlack(t) && Size(t) <= MAX_EPITEM_NUM
    ensures Height(t) <= 2 * BlackHeight(t) && Pow2(BlackHeight(t)) <= Size(t) + 1 && Height(t) <= MAX_EPITEM_NUM
    ensures Order(Top, t) == Inorder(t) && ZipRedBlack(Top, t)
    ensures (root == NULL <==> t.Leaf?) && root == Ref(t)
    ensures Bounded(fd, Top, v, false) && Bounded(fd, Top, v, true)
  {
    HeightBound(t);
    HeightSize(t);
    assert Order(Top, t) == Inorder(t);
  }

  lemma EmptyHole(c: Ctx)
    ensures Order(c, Leaf) == Before(c) + After(c)
  {
  }

  lemma LinkedParent(m: Mem, root: Addr, t: Tree, n: Addr)
    requires Rep(m, root, Top, t) && RedBlack(t) && n in Nodes(t)
    ensures n in m && m[n].parent != n && Separate(t)
  {
    var c, u := Locate(m, root, Top, t, n);
    AtMark(m, root, c, u);
  }

  /** A node taken out of a tree of distinct nodes is no longer in it. */
  lemma Gone(t: Tree, n: Addr, t': Tree)
    requires Separate(t) && Removed(Inorder(t), n, Inorder(t'))
    ensures n !in Nodes(t') && Size(t') + 1 == Size(t)
  {
    Distinct(t);
    var s := Inorder(t);
    var k :| 0 <= k < |s| && s[k] == n && Inorder(t') == s[..k] + s[k + 1..];
    InorderNodes(t');
    SizeInorder(t);
    SizeInorder(t');
  }

  lemma {:induction false} Distinct(t: Tree)
    requires Separate(t)
    ensures forall i, j :: 0 <= i < j < |Inorder(t)| ==> Inorder(t)[i] != Inorder(t)[j]
  {
    if t.Branch? {
      Distinct(t.left);
      Distinct(t.right);
      InorderNodes(t.left);
      InorderNodes(t.right);
      var l, r := Inorder(t.left), Inorder(t.right);
      assert forall i :: 0 <= i < |l| ==> l[i] in l;
      assert forall i :: 0 <= i < |r| ==> r[i] in r;
    }
  }

  lemma DetachedRep(m: Mem, root: Addr, t: Tree, n: Addr)
    requires Rep(m, root, Top, t) && n in m && n !in Nodes(t)
    ensures Rep(m[n := m[n].(parent := n)], root, Top, t)
  {
    ShapeFrame(m, m[n := m[n].(parent := n)], {n}, t, NULL);
  }

  class Eventpoll {
    const rbr: RbRoot
    /** The descriptor each item watches. */
    var fd: map<Addr, int>
    ghost var tree: Tree

    ghost predicate Valid()
      reads this, rbr
    {
      && Rep(rbr.mem, rbr.rbNode, Top, tree) && RedBlack(tree) && SortedBy(fd, Inorder(tree))
      && Size(tree) <= MAX_EPITEM_NUM
    }

    constructor (m: Mem, items: map<Addr, int>)
      ensures Valid() && tree == Leaf && fresh(rbr) && rbr.mem == m && fd == items
    {
      rbr := new RbRoot(m);
      fd := items;
      tree := Leaf;
    }

    /** Looks up the item watching descriptor v; loopCnt counts the nodes visited. */
    method FindEp(v: int) returns (epi: Addr, loopCnt: nat)
      requires Valid()
      ensures epi != NULL ==> epi in Nodes(tree) && epi in fd && fd[epi] == v
      ensures epi == NULL ==> forall n :: n in Nodes(tree) ==> n in fd && fd[n] != v
      ensures loopCnt <= 2 * BlackHeight(tree) && Pow2(BlackHeight(tree)) <= Size(tree) + 1
      ensures loopCnt <= MAX_EPITEM_NUM
    {
      hide Rep, Order, Height, SortedBy, Inorder, Size, Nodes, Bounded, RedBlack, ZipRedBlack, BlackHeight, Pow2;
      SearchStart(fd, rbr.mem, rbr.rbNode, tree, v);
      InorderNodes(tree);
      epi, loopCnt := NULL, 0;
      var rbp := rbr.rbNode;
      ghost var c, t := Top, tree;
      while rbp != NULL
        invariant Rep(rbr.mem, rbr.rbNode, c, t) && rbp == Ref(t) && (rbp == NULL <==> t.Leaf?)
        invariant Order(c, t) == Inorder(tree) && Bounded(fd, c, v, false)
        invariant loopCnt + Height(t) <= Height(tree)
        invariant epi == NULL
        decreases t
      {
        loopCnt := loopCnt + 1;
        HeightStep(t);
        if loopCnt > MAX_EPITEM_NUM {
          break;
        }
        AtMark(rbr.mem, rbr.rbNode, c, t);
        NonNullChildren(rbr.mem, rbr.rbNode, c, t);
        Narrow(fd, c, t, v, false);
        if v > fd[rbp] {
          DescendRight(rbr.mem, rbr.rbNode, c, t);
          AscendOrder(Frame(OnRight, t.node, t.color, t.left, c), t.right);
          c, t := Frame(OnRight, t.node, t.color, t.left, c), t.right;
          rbp := rbr.mem[rbp].right;
        } else if v < fd[rbp] {
          DescendLeft(rbr.mem, rbr.rbNode, c, t);
          AscendOrder(Frame(OnLeft, t.node, t.color, t.right, c), t.left);
          c, t := Frame(OnLeft, t.node, t.color, t.right, c), t.left;
          rbp := rbr.mem[rbp].left;
        } else {
          epi := rbp;
          InOrder(c, t);
          break;
        }
      }
      if epi == NULL {
        Absent(fd, c, v, Inorder(tree));
      }
    }

    /** Inserts item epi by its descriptor. */
    method RbtreeInsert(epi: Addr)
      requires Valid() && epi != NULL && epi in rbr.mem && epi in fd && epi !in Nodes(tree) &&
               Size(tree) < MAX_EPITEM_NUM
      modifies this`tree, rbr
      ensures Valid() && Nodes(tree) == old(Nodes(tree)) + {epi}
      ensures Removed(Inorder(tree), epi, old(Inorder(tree)))
      ensures ChangedOnly(old(rbr.mem), rbr.mem, Nodes(tree))
    {
      hide BlackHeight, Pow2, Rep, Order, Height, SortedBy, Inorder, Size, Nodes, Bounded, RedBlack, ZipRedBlack,
           Removed, ChangedOnly, InsertInv, Tracks;
      SearchStart(fd, rbr.mem, rbr.rbNode, tree, fd[epi]);
      InorderNodes(tree);
      var p, link, parent := rbr.rbNode, RootSlot, NULL;
      var loopCnt := 0;
      ghost var c, t := Top, tree;
      while p != NULL
        invariant Rep(rbr.mem, rbr.rbNode, c, t) && p == Ref(t) && (p == NULL <==> t.Leaf?)
        invariant ZipRedBlack(c, t) && Order(c, t) == Inorder(tree) && Bounded(fd, c, fd[epi], true)
        invariant parent == Parent(c) && link == SlotOf(c)
        invariant loopCnt + Height(t) <= Height(tree)
        invariant tree == old(tree) && rbr.mem == old(rbr.mem) && rbr.rbNode == old(rbr.rbNode)
        decreases t
      {
        loopCnt := loopCnt + 1;
        HeightStep(t);
        if loopCnt > MAX_EPITEM_NUM {
          break;
        }
        AtMark(rbr.mem, rbr.rbNode, c, t);
        NonNullChildren(rbr.mem, rbr.rbNode, c, t);
        Narrow(fd, c, t, fd[epi], true);
        parent := p;
        if fd[epi] > fd[parent] {
          DescendRight(rbr.mem, rbr.rbNode, c, t);
          ghost var d := Frame(OnRight, t.node, t.color, t.left, c);
          AscendOrder(d, t.right);
          AscendRedBlack(d, t.right);
          c, t := d, t.right;
          link := ChildSlot(parent, OnRight);
          p := rbr.mem[parent].right;
        } else {
          DescendLeft(rbr.mem, rbr.rbNode, c, t);
          ghost var d := Frame(OnLeft, t.node, t.color, t.right, c);
          AscendOrder(d, t.left);
          AscendRedBlack(d, t.left);
          c, t := d, t.left;
          link := ChildSlot(parent, OnLeft);
          p := rbr.mem[parent].left;
        }
      }
      SortedInsert(fd, c, epi);
      OrderNodes(c, Leaf);
      LinkedInv(c, epi);
      rbr.LinkNode(epi, parent, link, c);
      ghost var m1 := rbr.mem;
      tree := rbr.InsertColor(epi, c, Branch(Leaf, epi, Red, Leaf));
      TracksWhole(m1, rbr.mem, rbr.rbNode, tree);
      EmptyHole(c);
      OneMore(Before(c), epi, After(c), old(tree), tree);
      InsertedFrame(old(rbr.mem), m1, rbr.mem, c, epi, old(tree), tree);
    }

    /** Takes item epi out of the tree; an item that is its own parent is not linked. */
    method Unlink(epi: Addr) returns (error: int)
      requires Valid() && epi in rbr.mem
      requires epi in Nodes(tree) || rbr.mem[epi].parent == epi
      modifies this`tree, rbr
      ensures Valid() && rbr.mem.Keys == old(rbr.mem).Keys
      ensures error == if epi in old(Nodes(tree)) then 0 else ENOENT
      ensures error == 0 ==>
              Removed(old(Inorder(tree)), epi, Inorder(tree)) && epi !in Nodes(tree) && rbr.mem[epi].parent == epi
      ensures error != 0 ==> tree == old(tree) && rbr.mem == old(rbr.mem)
    {
      if epi in Nodes(tree) {
        LinkedParent(rbr.mem, rbr.rbNode, tree, epi);
      }
      if rbr.mem[epi].parent == epi {
        return ENOENT;
      }
      hide Rep, Order, SortedBy, Inorder, Size, Nodes, RedBlack, Removed;
      ghost var t0 := tree;
      tree := rbr.Erase(epi, tree);
      SortedRemoved(fd, Inorder(t0), epi, Inorder(tree));
      Gone(t0, epi, tree);
      DetachedRep(rbr.mem, rbr.rbNode, tree, epi);
      rbr.mem := rbr.mem[epi := rbr.mem[epi].(parent := epi)];
      error := 0;
    }
  }
}
