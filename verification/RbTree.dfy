/**
 The intrusive red-black tree: rotations, insertion fix-up and removal, as methods
 that rewrite node records in place.
 */
module RbTree {
  import opened RbZipper
  import opened RbMemory
  import opened RbSteps
  import opened RbUnlink

  // ---------- insertion ----------

  /** Red-black everywhere except that the red focus may have a red parent. */
  ghost predicate InsertInv(c: Ctx, t: Tree) {
    IsRed(t) && Balanced(t) && NoRedRed(t) && CtxRedBlack(c, BlackHeight(t))
  }

  lemma InsertShape(c: Ctx, t: Tree)
    requires InsertInv(c, t)
    ensures t.Branch? && t.color == Red
    ensures RedParent(c) ==> c.up.Frame? && c.up.color == Black && !IsRed(c.sibling)
  {
  }

  /** Red uncle: parent and uncle go black, the grandparent goes red and becomes the focus. */
  ghost function Recolored(c: Ctx, t: Tree): Tree
    requires c.Frame? && c.up.Frame? && c.up.sibling.Branch?
  {
    Fill(c.up.(color := Red, sibling := c.up.sibling.(color := Black)), Fill(c.(color := Black), t))
  }

  lemma RecoloredInv(c: Ctx, t: Tree)
    requires InsertInv(c, t) && RedParent(c) && IsRed(c.up.sibling)
    ensures InsertInv(c.up.up, Recolored(c, t))
  {
    assert CtxRedBlack(c.up, BlackHeight(t));
    assert CtxRedBlack(c.up.up, BlackHeight(t) + 1);
    var p := Fill(c.(color := Black), t);
    assert Balanced(p) && NoRedRed(p) && BlackHeight(p) == BlackHeight(t) + 1;
  }

  lemma TracksRecolored(m0: Mem, order: seq<Addr>, m: Mem, root: Addr, c: Ctx, t: Tree)
    requires c.Frame? && c.up.Frame? && c.up.sibling.Branch? && Tracks(m0, order, m, root, c, t)
    ensures c.node in m && c.up.sibling.node in m && c.up.node in m
    ensures var m1 := m[c.node := m[c.node].(color := Black)];
      var m2 := m1[c.up.sibling.node := m1[c.up.sibling.node].(color := Black)];
      Tracks(m0, order, m2[c.up.node := m2[c.up.node].(color := Red)], root, c.up.up, Recolored(c, t))
  {
    TracksPaintParent(m0, order, m, root, c, t, Black);
    var m1, c1 := m[c.node := m[c.node].(color := Black)], c.(color := Black);
    TracksAscend(m0, order, m1, root, c1, t);
    var p := Fill(c1, t);
    TracksPaintSibling(m0, order, m1, root, c.up, p, Black);
    var u := c.up.sibling;
    var m2, c2 := m1[u.node := m1[u.node].(color := Black)], c.up.(sibling := u.(color := Black));
    TracksPaintParent(m0, order, m2, root, c2, p, Red);
    TracksAscend(m0, order, m2[c2.node := m2[c2.node].(color := Red)], root, c2.(color := Red), p);
  }

  /** Black uncle, focus on the inner side: the rotation at the parent turns it to the outer side. */
  ghost function OuterCtx(c: Ctx, t: Tree): Ctx
    requires c.Frame? && t.Branch?
  {
    if c.side == OnRight
    then Frame(OnLeft, t.node, t.color, t.right, c.up)
    else Frame(OnRight, t.node, t.color, t.left, c.up)
  }

  ghost function OuterTree(c: Ctx, t: Tree): Tree
    requires c.Frame? && t.Branch?
  {
    if c.side == OnRight
    then Branch(c.sibling, c.node, c.color, t.left)
    else Branch(t.right, c.node, c.color, c.sibling)
  }

  lemma OuterInv(c: Ctx, t: Tree)
    requires InsertInv(c, t) && RedParent(c)
    ensures InsertInv(OuterCtx(c, t), OuterTree(c, t)) && RedParent(OuterCtx(c, t))
  {
  }

  /** Black uncle, focus on the outer side: the rotation at the grandparent ends the fix-up. */
  ghost function LiftedCtx(c: Ctx): Ctx
    requires c.Frame? && c.up.Frame?
  {
    if c.side == OnLeft
    then Frame(OnLeft, c.node, Black, Branch(c.sibling, c.up.node, Red, c.up.sibling), c.up.up)
    else Frame(OnRight, c.node, Black, Branch(c.up.sibling, c.up.node, Red, c.sibling), c.up.up)
  }

  lemma LiftedInv(c: Ctx, t: Tree)
    requires InsertInv(c, t) && RedParent(c) && !IsRed(c.up.sibling)
    ensures InsertInv(LiftedCtx(c), t)
  {
    assert CtxRedBlack(c.up, BlackHeight(t));
    assert CtxRedBlack(c.up.up, BlackHeight(t) + 1);
  }

  ghost function Depth(c: Ctx): nat {
    if c.Top? then 0 else 1 + Depth(c.up)
  }

  lemma InsertEntry(m0: Mem, order: seq<Addr>, m: Mem, root: Addr, c: Ctx, t: Tree)
    requires Tracks(m0, order, m, root, c, t) && InsertInv(c, t)
    ensures t.node in m && (t.node == root <==> c.Top?)
    ensures c.Frame? ==> m[t.node].parent == c.node && c.node in m && m[c.node].color == c.color
  {
    AtMark(m, root, c, t);
  }

  lemma AtParent(m0: Mem, order: seq<Addr>, m: Mem, root: Addr, c: Ctx, t: Tree)
    requires Tracks(m0, order, m, root, c, t) && t.Branch? && c.Frame? && c.up.Frame?
    ensures t.node in m && m[t.node].parent == c.node && c.node in m && m[c.node].parent == c.up.node && c.up.node in m
    ensures c.node == m[c.up.node].left <==> c.up.side == OnLeft
  {
    AtMark(m, root, c, t);
  }

  /** Without a red parent the tree is red-black once the root is black. */
  lemma InsertDone(c: Ctx, t: Tree)
    requires InsertInv(c, t) && !RedParent(c)
    ensures c.Top? ==> RedBlack(t.(color := Black))
    ensures c.Frame? ==> ZipRedBlack(c, t)
  {
  }

  /** Painting a black root black changes nothing. */
  lemma RootBlack(m0: Mem, order: seq<Addr>, m: Mem, root: Addr, t: Tree)
    requires Tracks(m0, order, m, root, Top, t) && RedBlack(t)
    ensures t.Branch? ==> root in m && m[root := m[root].(color := Black)] == m
  {
    if t.Branch? {
      AtMark(m, root, Top, t);
    }
  }

  // ---------- removal ----------

  ghost function Paint(t: Tree, k: Color): Tree {
    if t.Leaf? then Leaf else t.(color := k)
  }

  /**
   The focus is one black node short, and painting it black leaves no red node
   with a red child below it.
   */
  ghost predicate EraseInv(c: Ctx, t: Tree) {
    Balanced(t) && NoRedRed(Paint(t, Black)) && CtxRedBlack(c, BlackHeight(t) + 1)
  }

  /** Near and far child of a node, seen from the given side. */
  ghost function NearOf(s: Side, t: Tree): Tree
    requires t.Branch?
  {
    if s == OnLeft then t.left else t.right
  }

  ghost function FarOf(s: Side, t: Tree): Tree
    requires t.Branch?
  {
    if s == OnLeft then t.right else t.left
  }

  ghost function Join(s: Side, near: Tree, n: Addr, k: Color, far: Tree): Tree {
    if s == OnLeft then Branch(near, n, k, far) else Branch(far, n, k, near)
  }

  /** A focus that is not red and not at the root has a sibling. */
  lemma EraseSibling(c: Ctx, t: Tree)
    requires EraseInv(c, t) && c.Frame?
    ensures c.sibling.Branch?
    ensures IsRed(c.sibling) ==>
            c.color == Black && NearOf(c.side, c.sibling).Branch? && !IsRed(NearOf(c.side, c.sibling))
  {
    if IsRed(c.sibling) {
      assert BlackHeight(c.sibling.left) == BlackHeight(c.sibling);
      assert BlackHeight(c.sibling.right) == BlackHeight(c.sibling);
    }
  }

  /** Red sibling: after recolouring and rotating, the sibling is black. */
  ghost function BlackSiblingCtx(c: Ctx): Ctx
    requires c.Frame? && c.sibling.Branch?
  {
    Frame(c.side, c.node, Red, NearOf(c.side, c.sibling),
      Frame(c.side, c.sibling.node, Black, FarOf(c.side, c.sibling), c.up))
  }

  lemma BlackSiblingInv(c: Ctx, t: Tree)
    requires EraseInv(c, t) && c.Frame? && IsRed(c.sibling)
    ensures EraseInv(BlackSiblingCtx(c), t)
  {
    var w := c.sibling;
    assert CtxRedBlack(c.up, BlackHeight(t) + 2);
    assert CtxRedBlack(BlackSiblingCtx(c).up, BlackHeight(t) + 1);
  }

  /** Black sibling with two black children: the sibling goes red and the shortage moves up. */
  lemma MoveUpInv(c: Ctx, t: Tree)
    requires EraseInv(c, t) && !IsRed(t) && c.Frame? && c.sibling.Branch? && c.sibling.color == Black
    requires !IsRed(c.sibling.left) && !IsRed(c.sibling.right)
    ensures EraseInv(c.up, Fill(c.(sibling := c.sibling.(color := Red)), t))
  {
    assert Paint(t, Black) == t;
    var w := c.sibling.(color := Red);
    assert Balanced(w) && NoRedRed(w) && BlackHeight(w) == BlackHeight(t);
  }

  /** Black sibling whose far child is black: turning the sibling makes its far child red. */
  ghost function FarRedCtx(c: Ctx): Ctx
    requires c.Frame? && c.sibling.Branch? && NearOf(c.side, c.sibling).Branch?
  {
    var w := c.sibling;
    var n := NearOf(c.side, w);
    c.(sibling := Join(c.side, NearOf(c.side, n), n.node, Black,
      Join(c.side, FarOf(c.side, n), w.node, Red, FarOf(c.side, w))))
  }

  lemma FarRedInv(c: Ctx, t: Tree)
    requires EraseInv(c, t) && c.Frame? && c.sibling.Branch? && c.sibling.color == Black
    requires IsRed(NearOf(c.side, c.sibling)) && !IsRed(FarOf(c.side, c.sibling))
    ensures EraseInv(FarRedCtx(c), t) && FarRedCtx(c).sibling.color == Black &&
            IsRed(FarOf(c.side, FarRedCtx(c).sibling))
  {
    var w := c.sibling;
    var n := NearOf(c.side, w);
    assert Balanced(n) && NoRedRed(n);
    var f := Join(c.side, FarOf(c.side, n), w.node, Red, FarOf(c.side, w));
    assert Balanced(f) && NoRedRed(f) && BlackHeight(f) == BlackHeight(t);
    assert CtxRedBlack(c.up, BlackHeight(t) + 1 + Weight(c.color));
  }

  /** Black sibling whose far child is red: the rotation at the parent ends the fix-up. */
  ghost function Repaid(c: Ctx, t: Tree): Tree
    requires c.Frame? && c.sibling.Branch? && FarOf(c.side, c.sibling).Branch?
  {
    var w := c.sibling;
    Join(c.side, Join(c.side, t, c.node, Black, NearOf(c.side, w)), w.node, c.color, FarOf(c.side, w).(color := Black))
  }

  lemma RepaidInv(c: Ctx, t: Tree)
    requires EraseInv(c, t) && !IsRed(t) && c.Frame? && c.sibling.Branch? && c.sibling.color == Black
    requires IsRed(FarOf(c.side, c.sibling))
    ensures ZipRedBlack(c.up, Repaid(c, t))
  {
    assert Paint(t, Black) == t;
    var w := c.sibling;
    var f := FarOf(c.side, w);
    assert Balanced(f) && NoRedRed(f);
    assert BlackHeight(f.(color := Black)) == BlackHeight(t) + 1;
    var p := Join(c.side, t, c.node, Black, NearOf(c.side, w));
    assert Balanced(p) && NoRedRed(p) && BlackHeight(p) == BlackHeight(t) + 1;
  }

  /** The fix-up may stop at the root or at a red focus, once the focus is black. */
  lemma PaidInv(c: Ctx, t: Tree)
    requires EraseInv(c, t) && (c.Top? || IsRed(t))
    ensures ZipRedBlack(c, Paint(t, Black))
  {
  }

  /** Records read around a short focus. */
  lemma AtShort(m0: Mem, order: seq<Addr>, m: Mem, root: Addr, c: Ctx, t: Tree)
    requires Tracks(m0, order, m, root, c, t) && c.Frame?
    requires c.sibling.Branch? || EraseInv(c, t)
    ensures c.sibling.Branch? && c.node in m && m[c.node] == FrameRec(c, Ref(t)) && c.node != NULL && root != Ref(t)
    ensures var w := c.sibling;
      && w.node in m && m[w.node] == NodeRec(w.color, c.node, Ref(w.right), Ref(w.left))
      && w.node != NULL && w.node != Ref(t) && w.node != c.node
      && (w.left.Branch? ==> w.left.node in m && w.left.node != NULL && m[w.left.node].color == w.left.color)
      && (w.right.Branch? ==> w.right.node in m && w.right.node != NULL && m[w.right.node].color == w.right.color)
    ensures EraseInv(c, t) && IsRed(c.sibling) ==>
      c.color == Black && NearOf(c.side, c.sibling).Branch? && !IsRed(NearOf(c.side, c.sibling))
  {
    if EraseInv(c, t) {
      EraseSibling(c, t);
    }
    AtSibling(m, root, c, t);
  }

  lemma AtFocus(m0: Mem, order: seq<Addr>, m: Mem, root: Addr, c: Ctx, t: Tree)
    requires Tracks(m0, order, m, root, c, t) && t.Branch?
    ensures t.node in m && m[t.node].parent == Parent(c) && m[t.node].color == t.color && t.node != NULL
    ensures root == t.node <==> c.Top?
  {
    AtMark(m, root, c, t);
  }

  lemma EraseEntry(m0: Mem, order: seq<Addr>, m: Mem, root: Addr, c: Ctx, t: Tree)
    requires Tracks(m0, order, m, root, c, t)
    ensures Ref(t) == root <==> c.Top?
    ensures t.Branch? ==> t.node in m && t.node != NULL && m[t.node].color == t.color
    ensures c.Frame? ==> c.node != NULL
  {
    if t.Branch? {
      AtMark(m, root, c, t);
    }
    if c.Frame? {
      RootRefNode(c, Ref(t));
    }
  }

  /** s' is s with one occurrence of x taken out, in the same order. */
  ghost predicate Removed(s: seq<Addr>, x: Addr, s': seq<Addr>) {
    exists i :: 0 <= i < |s| && s[i] == x && s' == s[..i] + s[i + 1..]
  }

  lemma RemovedAt(a: seq<Addr>, x: Addr, b: seq<Addr>)
    ensures Removed(a + [x] + b, x, a + b)
  {
    var s := a + [x] + b;
    assert s[|a|] == x && s[..|a|] == a && s[|a| + 1..] == b;
  }

  /** A node with at most one child leaves that child in its place. */
  lemma SplicedInv(c: Ctx, t: Tree, ch: Tree)
    requires t.Branch? && ZipRedBlack(c, t)
    requires (t.left.Leaf? && ch == t.right) || (t.right.Leaf? && ch == t.left)
    ensures if t.color == Black then EraseInv(c, ch) else ZipRedBlack(c, ch)
  {
    assert BlackHeight(ch) == 0 && Balanced(ch) && NoRedRed(ch);
    assert NoRedRed(Paint(ch, Black));
  }

  lemma SplicedOrder(c: Ctx, t: Tree, ch: Tree)
    requires t.Branch? && ((t.left.Leaf? && ch == t.right) || (t.right.Leaf? && ch == t.left))
    ensures Removed(Order(c, t), t.node, Order(c, ch))
  {
    hide Before, After;
    if t.left.Leaf? && ch == t.right {
      assert Inorder(t) == [t.node] + Inorder(ch);
      assert Order(c, t) == Before(c) + [t.node] + (Inorder(ch) + After(c));
      assert Order(c, ch) == Before(c) + (Inorder(ch) + After(c));
      RemovedAt(Before(c), t.node, Inorder(ch) + After(c));
    } else {
      assert Inorder(t) == Inorder(ch) + [t.node];
      assert Order(c, t) == (Before(c) + Inorder(ch)) + [t.node] + After(c);
      RemovedAt(Before(c) + Inorder(ch), t.node, After(c));
    }
  }

  lemma {:induction false} SpineRedBlack(c: Ctx, base: Ctx, t: Tree)
    requires Spine(c, base)
    ensures ZipRedBlack(c, t) <==> ZipRedBlack(base, SpineTree(c, base, t))
    ensures Order(c, t) == Order(base, SpineTree(c, base, t))
    decreases c
  {
    hide ZipRedBlack, Order;
    if c != base {
      AscendRedBlack(c, t);
      AscendOrder(c, t);
      SpineRedBlack(c.up, base, Fill(c, t));
    }
  }

  /** A node with two children is replaced by its successor, whose child moves up. */
  lemma SucceedInv(c: Ctx, t: Tree, c1: Ctx, t1: Tree)
    requires ZipRedBlack(c, t) && AtSuccessor(c, t, c1, t1)
    ensures var c2 := Swap(c1, Below(c, t), t1.node);
      && (if t1.color == Black then EraseInv(c2, t1.right) else ZipRedBlack(c2, t1.right))
      && Removed(Order(c, t), t.node, Order(c2, t1.right))
  {
    var base := Below(c, t);
    assert Fill(base, t.right) == t;
    AscendRedBlack(base, t.right);
    AscendOrder(base, t.right);
    SpineRedBlack(c1, base, t1);
    SplicedInv(c1, t1, t1.right);
    SwapRedBlack(c1, base, t1.node, BlackHeight(t1.right));
    SwapRedBlack(c1, base, t1.node, BlackHeight(t1.right) + 1);
    SucceedOrder(c, t, c1, t1);
  }

  lemma SucceedOrder(c: Ctx, t: Tree, c1: Ctx, t1: Tree)
    requires AtSuccessor(c, t, c1, t1) && Order(c, t) == Order(c1, t1)
    ensures Removed(Order(c, t), t.node, Order(Swap(c1, Below(c, t), t1.node), t1.right))
  {
    hide Before, After, Inorder, Removed, Swap;
    SucceedSides(c, t, c1, t1);
    var p, q := Before(c) + Inorder(t.left), [t1.node] + (Inorder(t1.right) + After(c1));
    RemovedAt(p, t.node, q);
    assert Order(c1, t1) == p + [t.node] + q;
    assert Order(Swap(c1, Below(c, t), t1.node), t1.right) == p + q;
  }

  /** What lies before and after the successor, and at its old place once it has moved up. */
  lemma SucceedSides(c: Ctx, t: Tree, c1: Ctx, t1: Tree)
    requires AtSuccessor(c, t, c1, t1)
    ensures t.Branch? && t.left.Branch? && t1.Branch?
    ensures Before(c1) == Before(c) + Inorder(t.left) + [t.node] && Inorder(t1) == [t1.node] + Inorder(t1.right)
    ensures var d := Swap(c1, Below(c, t), t1.node);
            Before(d) == Before(c) + Inorder(t.left) + [t1.node] && After(d) == After(c1)
  {
    SwapOrder(c1, Below(c, t), t1.node);
  }

  /** Every node has a mark. */
  lemma {:induction false} Locate(m: Mem, root: Addr, c: Ctx, t: Tree, n: Addr) returns (c': Ctx, t': Tree)
    requires Rep(m, root, c, t) && ZipRedBlack(c, t) && n in Nodes(t)
    ensures Rep(m, root, c', t') && ZipRedBlack(c', t') && Order(c', t') == Order(c, t)
    ensures t'.Branch? && t'.node == n
    decreases t
  {
    if t.node == n {
      c', t' := c, t;
    } else {
      var l, r := Frame(OnLeft, t.node, t.color, t.right, c), Frame(OnRight, t.node, t.color, t.left, c);
      var d, u := if n in Nodes(t.left) then l else r, if n in Nodes(t.left) then t.left else t.right;
      assert n in Nodes(u);
      hide Rep, ZipRedBlack, Order, Nodes;
      AscendRep(m, root, d, u);
      AscendRedBlack(d, u);
      AscendOrder(d, u);
      c', t' := Locate(m, root, d, u, n);
    }
  }

  /** After the splice, only nodes that stay in the tree were written. */
  lemma SplicedTracks(m: Mem, m': Mem, root: Addr, root': Addr, c: Ctx, t: Tree, ch: Tree)
    requires t.Branch? && Rep(m, root, c, t) && Spliced(m, m', root, root', c, ch)
    requires (t.left.Leaf? && ch == t.right) || (t.right.Leaf? && ch == t.left)
    ensures Tracks(m, Order(c, ch), m', root', c, ch)
  {
    SpliceRep(m, m', root, root', c, t, ch);
    OrderNodes(c, ch);
    assert forall n :: n in Hook(c) + Self(ch) ==> n in CtxNodes(c) || n in Nodes(ch);
  }

  lemma SucceededTracks(m: Mem, m': Mem, root: Addr, root': Addr, c: Ctx, t: Tree, c1: Ctx, t1: Tree)
    requires Rep(m, root, c, t) && AtSuccessor(c, t, c1, t1) && SwapNear(m, c, t, c1, t1)
    requires Succeeded(m, m', root, root', c, t, c1, t1)
    ensures var c2 := Swap(c1, Below(c, t), t1.node); Tracks(m, Order(c2, t1.right), m', root', c2, t1.right)
  {
    var base, n, ch := Below(c, t), t1.node, t1.right;
    var c2 := Swap(c1, base, n);
    SucceedRep(m, m', root, root', c, t, c1, t1);
    SwapNearRep(m, root, c, t, c1, t1);
    SuccessorOut(m, root, c1, t1);
    OrderNodes(c2, ch);
    SwapTree(c1, base, n, t1);
    SpineNodes(c2, base.(node := n));
    assert t.left.node in Nodes(t.left);
    if c1 != base {
      SpineTop(c2, base.(node := n), t1, t1);
    }
    hide Rep, SwapNear;
  }

  /** The records a splice touches are distinct and linked as the tree says. */
  lemma SingleNear(m: Mem, root: Addr, c: Ctx, t: Tree, ch: Tree)
    requires Rep(m, root, c, t) && t.Branch? && (ch == t.left || ch == t.right)
    ensures t.node in m && m[t.node].parent == Parent(c) && m[t.node].color == t.color
    ensures ch.Branch? ==> ch.node in m && ch.node != NULL
    ensures c.Frame? ==>
            c.node in m && c.node != NULL && c.node != Ref(ch) && m[c.node] == FrameRec(c, t.node) &&
            Ref(c.sibling) != t.node
  {
    SelfNear(m, t, Parent(c), ch);
    AtMark(m, root, c, t);
  }

  lemma NonNullChildren(m: Mem, root: Addr, c: Ctx, t: Tree)
    requires Rep(m, root, c, t) && t.Branch?
    ensures (Ref(t.left) == NULL <==> t.left.Leaf?) && (Ref(t.right) == NULL <==> t.right.Leaf?)
  {
    SelfNear(m, t, Parent(c), t.left);
    SelfNear(m, t, Parent(c), t.right);
  }

  lemma EmptyRoot(m: Mem, root: Addr, t: Tree)
    requires Rep(m, root, Top, t)
    ensures root == NULL <==> t.Leaf?
  {
  }

  lemma TracksWhole(m0: Mem, m: Mem, root: Addr, t: Tree)
    ensures forall order :: Tracks(m0, order, m, root, Top, t) ==>
      Rep(m, root, Top, t) && order == Inorder(t) && ChangedOnly(m0, m, Nodes(t))
  {
    InorderNodes(t);
    assert Order(Top, t) == Inorder(t);
  }

  /** Where a link is stored: in the root pointer, or in a child field of a node. */
  datatype Slot = RootSlot | ChildSlot(owner: Addr, side: Side)

  ghost function SlotOf(c: Ctx): Slot {
    if c.Top? then RootSlot else ChildSlot(c.node, c.side)
  }

  /** A red leaf linked into a null slot of a red-black tree meets the insertion invariant. */
  lemma LinkedInv(c: Ctx, n: Addr)
    requires ZipRedBlack(c, Leaf)
    ensures InsertInv(c, Branch(Leaf, n, Red, Leaf))
    ensures Order(c, Branch(Leaf, n, Red, Leaf)) == Before(c) + [n] + After(c)
  {
    assert Inorder(Branch(Leaf, n, Red, Leaf)) == [n];
  }

  lemma LinkedRep(m: Mem, m': Mem, root: Addr, root': Addr, c: Ctx, n: Addr)
    requires Rep(m, root, c, Leaf) && n != NULL && n !in CtxNodes(c) && n in m
    requires ChangedOnly(m, m', {n} + Hook(c)) && m'[n] == NodeRec(Red, Parent(c), NULL, NULL)
    requires c.Frame? ==> c.node in m && m'[c.node] == FrameRec(c, n)
    requires root' == if c.Top? then n else root
    ensures Rep(m', root', c, Branch(Leaf, n, Red, Leaf))
  {
    if c.Frame? {
      CtxRelink(m, m', {n} + Hook(c), c, NULL, n);
    }
  }

  class RbRoot {
    /** The memory of node records; other trees may live in it too. */
    var mem: Mem
    /** The root pointer. */
    var rbNode: Addr

    constructor (m: Mem)
      ensures mem == m && rbNode == NULL
    {
      mem, rbNode := m, NULL;
    }

    method RotateLeft(x: Addr, ghost m0: Mem, ghost order: seq<Addr>, ghost c: Ctx, ghost t: Tree)
      requires Tracks(m0, order, mem, rbNode, c, t) && t.Branch? && t.right.Branch? && t.node == x
      modifies this
      ensures Tracks(m0, order, mem, rbNode, c, RotL(t))
    {
      hide Tracks;
      NearInner(m0, order, mem, rbNode, c, t);
      var y := mem[x].right;
      mem := mem[x := mem[x].(right := mem[y].left)];
      if mem[y].left != NULL {
        mem := mem[mem[y].left := mem[mem[y].left].(parent := x)];
      }
      mem := mem[y := mem[y].(parent := mem[x].parent)];
      if mem[x].parent != NULL {
        var xParent := mem[x].parent;
        if x == mem[xParent].left {
          mem := mem[xParent := mem[xParent].(left := y)];
        } else {
          mem := mem[xParent := mem[xParent].(right := y)];
        }
      } else {
        rbNode := y;
      }
      mem := mem[y := mem[y].(left := x)];
      mem := mem[x := mem[x].(parent := y)];
      TracksRotateLeft(m0, order, old(mem), old(rbNode), c, t, mem, rbNode);
    }

    method RotateRight(x: Addr, ghost m0: Mem, ghost order: seq<Addr>, ghost c: Ctx, ghost t: Tree)
      requires Tracks(m0, order, mem, rbNode, c, t) && t.Branch? && t.left.Branch? && t.node == x
      modifies this
      ensures Tracks(m0, order, mem, rbNode, c, RotR(t))
    {
      hide Tracks;
      NearInner(m0, order, mem, rbNode, c, t);
      var y := mem[x].left;
      mem := mem[x := mem[x].(left := mem[y].right)];
      if mem[y].right != NULL {
        mem := mem[mem[y].right := mem[mem[y].right].(parent := x)];
      }
      mem := mem[y := mem[y].(parent := mem[x].parent)];
      if mem[x].parent != NULL {
        var xParent := mem[x].parent;
        if x == mem[xParent].right {
          mem := mem[xParent := mem[xParent].(right := y)];
        } else {
          mem := mem[xParent := mem[xParent].(left := y)];
        }
      } else {
        rbNode := y;
      }
      mem := mem[y := mem[y].(right := x)];
      mem := mem[x := mem[x].(parent := y)];
      TracksRotateRight(m0, order, old(mem), old(rbNode), c, t, mem, rbNode);
    }

    /** One round of the fix-up when the parent is the left child of the grandparent. */
    method FixLeft(x: Addr, ghost m0: Mem, ghost order: seq<Addr>, ghost c: Ctx, ghost t: Tree)
      returns (x': Addr, ghost c': Ctx, ghost t': Tree)
      requires Tracks(m0, order, mem, rbNode, c, t) && InsertInv(c, t) && RedParent(c) && c.up.side == OnLeft &&
               t.node == x
      modifies this
      ensures Tracks(m0, order, mem, rbNode, c', t') && InsertInv(c', t') && t'.node == x'
      ensures if RedParent(c') then Depth(c') < Depth(c) else true
    {
      hide InsertInv, Rep, Order, ChangedOnly;
      x', c', t' := x, c, t;
      InsertShape(c, t);
      AtMark(mem, rbNode, c, t);
      var y := mem[mem[mem[x].parent].parent].right;
      if y != NULL && mem[y].color == Red {
        TracksRecolored(m0, order, mem, rbNode, c, t);
        RecoloredInv(c, t);
        mem := mem[mem[x].parent := mem[mem[x].parent].(color := Black)];
        mem := mem[y := mem[y].(color := Black)];
        var g := mem[mem[x].parent].parent;
        mem := mem[g := mem[g].(color := Red)];
        x', c', t' := g, c.up.up, Recolored(c, t);
      } else {
        if x == mem[mem[x].parent].right {
          x' := mem[x].parent;
          TracksAscend(m0, order, mem, rbNode, c, t);
          RotateLeft(x', m0, order, c.up, Fill(c, t));
          c', t' := OuterCtx(c, t), OuterTree(c, t);
          TracksAscend(m0, order, mem, rbNode, c', t');
          OuterInv(c, t);
        }
        LiftedInv(c', t');
        TracksPaintParent(m0, order, mem, rbNode, c', t', Black);
        AtMark(mem, rbNode, c', t');
        mem := mem[mem[x'].parent := mem[mem[x'].parent].(color := Black)];
        c' := c'.(color := Black);
        TracksAscend(m0, order, mem, rbNode, c', t');
        TracksPaintParent(m0, order, mem, rbNode, c'.up, Fill(c', t'), Red);
        AtMark(mem, rbNode, c', t');
        var g := mem[mem[x'].parent].parent;
        mem := mem[g := mem[g].(color := Red)];
        c' := c'.(up := c'.up.(color := Red));
        TracksAscend(m0, order, mem, rbNode, c'.up, Fill(c', t'));
        RotateRight(g, m0, order, c'.up.up, Fill(c'.up, Fill(c', t')));
        c' := LiftedCtx(c');
        TracksAscend(m0, order, mem, rbNode, c', t');
      }
    }

    /** One round of the fix-up when the parent is the right child of the grandparent. */
    method FixRight(x: Addr, ghost m0: Mem, ghost order: seq<Addr>, ghost c: Ctx, ghost t: Tree)
      returns (x': Addr, ghost c': Ctx, ghost t': Tree)
      requires Tracks(m0, order, mem, rbNode, c, t) && InsertInv(c, t) && RedParent(c) && c.up.side == OnRight &&
               t.node == x
      modifies this
      ensures Tracks(m0, order, mem, rbNode, c', t') && InsertInv(c', t') && t'.node == x'
      ensures if RedParent(c') then Depth(c') < Depth(c) else true
    {
      hide InsertInv, Rep, Order, ChangedOnly;
      x', c', t' := x, c, t;
      InsertShape(c, t);
      AtMark(mem, rbNode, c, t);
      var y := mem[mem[mem[x].parent].parent].left;
      if y != NULL && mem[y].color == Red {
        TracksRecolored(m0, order, mem, rbNode, c, t);
        RecoloredInv(c, t);
        mem := mem[mem[x].parent := mem[mem[x].parent].(color := Black)];
        mem := mem[y := mem[y].(color := Black)];
        var g := mem[mem[x].parent].parent;
        mem := mem[g := mem[g].(color := Red)];
        x', c', t' := g, c.up.up, Recolored(c, t);
      } else {
        if x == mem[mem[x].parent].left {
          x' := mem[x].parent;
          TracksAscend(m0, order, mem, rbNode, c, t);
          RotateRight(x', m0, order, c.up, Fill(c, t));
          c', t' := OuterCtx(c, t), OuterTree(c, t);
          TracksAscend(m0, order, mem, rbNode, c', t');
          OuterInv(c, t);
        }
        LiftedInv(c', t');
        TracksPaintParent(m0, order, mem, rbNode, c', t', Black);
        AtMark(mem, rbNode, c', t');
        mem := mem[mem[x'].parent := mem[mem[x'].parent].(color := Black)];
        c' := c'.(color := Black);
        TracksAscend(m0, order, mem, rbNode, c', t');
        TracksPaintParent(m0, order, mem, rbNode, c'.up, Fill(c', t'), Red);
        AtMark(mem, rbNode, c', t');
        var g := mem[mem[x'].parent].parent;
        mem := mem[g := mem[g].(color := Red)];
        c' := c'.(up := c'.up.(color := Red));
        TracksAscend(m0, order, mem, rbNode, c'.up, Fill(c', t'));
        RotateLeft(g, m0, order, c'.up.up, Fill(c'.up, Fill(c', t')));
        c' := LiftedCtx(c');
        TracksAscend(m0, order, mem, rbNode, c', t');
      }
    }

    /** Restores the red-black conditions after a red leaf was linked in. */
    method InsertColor(node: Addr, ghost c0: Ctx, ghost t0: Tree) returns (ghost whole: Tree)
      requires Rep(mem, rbNode, c0, t0) && InsertInv(c0, t0) && t0.node == node
      modifies this
      ensures Tracks(old(mem), Order(c0, t0), mem, rbNode, Top, whole) && RedBlack(whole)
    {
      var x := node;
      ghost var c, t := c0, t0;
      ghost var m0, order := mem, Order(c0, t0);
      assert Tracks(m0, order, mem, rbNode, c, t);
      hide Rep, Order, ChangedOnly;
      InsertEntry(m0, order, mem, rbNode, c, t);
      while x != rbNode && mem[mem[x].parent].color == Red
        invariant Tracks(m0, order, mem, rbNode, c, t) && InsertInv(c, t) && t.node == x
        invariant x in mem && (x == rbNode <==> c.Top?)
        invariant c.Frame? ==> mem[x].parent == c.node && c.node in mem && mem[c.node].color == c.color
        decreases if RedParent(c) then Depth(c) + 1 else 0
      {
        hide InsertInv, Tracks;
        InsertShape(c, t);
        AtParent(m0, order, mem, rbNode, c, t);
        if mem[x].parent == mem[mem[mem[x].parent].parent].left {
          x, c, t := FixLeft(x, m0, order, c, t);
        } else {
          x, c, t := FixRight(x, m0, order, c, t);
        }
        InsertEntry(m0, order, mem, rbNode, c, t);
      }
      InsertDone(c, t);
      if c.Top? {
        TracksPaint(m0, order, mem, rbNode, c, t, Black);
        whole := t.(color := Black);
      } else {
        whole := ToTop(m0, order, mem, rbNode, c, t);
        RootBlack(m0, order, mem, rbNode, whole);
      }
      mem := mem[rbNode := mem[rbNode].(color := Black)];
    }

    /** One round of the removal fix-up when the short side is the left one. */
    method RepayLeft(x: Addr, parent: Addr, ghost m0: Mem, ghost order: seq<Addr>, ghost c: Ctx, ghost t: Tree)
      returns (x': Addr, parent': Addr, done: bool, ghost c': Ctx, ghost t': Tree)
      requires Tracks(m0, order, mem, rbNode, c, t) && EraseInv(c, t) && !IsRed(t)
      requires c.Frame? && c.side == OnLeft && x == Ref(t) && parent == c.node
      modifies this
      ensures Tracks(m0, order, mem, rbNode, c', t')
      ensures done ==> ZipRedBlack(c', t') && x' == rbNode && t'.Branch?
      ensures !done ==>
              EraseInv(c', t') && x' == Ref(t') && parent' == Parent(c') && (IsRed(t') || Depth(c') < Depth(c))
    {
      hide Tracks, EraseInv;
      x', parent', done, c', t' := x, parent, false, c, t;
      AtShort(m0, order, mem, rbNode, c, t);
      var w := mem[parent].right;
      if mem[w].color == Red {
        BlackSiblingInv(c, t);
        TracksPaintSibling(m0, order, mem, rbNode, c, t, Black);
        mem := mem[w := mem[w].(color := Black)];
        c' := c.(sibling := c.sibling.(color := Black));
        TracksPaintParent(m0, order, mem, rbNode, c', t, Red);
        mem := mem[parent := mem[parent].(color := Red)];
        c' := c'.(color := Red);
        TracksAscend(m0, order, mem, rbNode, c', t);
        RotateLeft(parent, m0, order, c.up, Fill(c', t));
        c' := BlackSiblingCtx(c);
        TracksAscend(m0, order, mem, rbNode, c'.up, Fill(c', t));
        TracksAscend(m0, order, mem, rbNode, c', t);
        AtShort(m0, order, mem, rbNode, c', t);
        w := mem[parent].right;
      }
      if (mem[w].left == NULL || mem[mem[w].left].color == Black) &&
        (mem[w].right == NULL || mem[mem[w].right].color == Black) {
        MoveUpInv(c', t);
        TracksPaintSibling(m0, order, mem, rbNode, c', t, Red);
        mem := mem[w := mem[w].(color := Red)];
        c' := c'.(sibling := c'.sibling.(color := Red));
        TracksAscend(m0, order, mem, rbNode, c', t);
        c', t' := c'.up, Fill(c', t);
        x' := parent;
        AtFocus(m0, order, mem, rbNode, c', t');
        parent' := mem[x'].parent;
      } else {
        x', c', t' := RepayLeftEnd(parent, w, m0, order, c', t);
        done := true;
      }
    }

    /** The round that ends the fix-up: the sibling w is black and has a red child. */
    method RepayLeftEnd(parent: Addr, w0: Addr, ghost m0: Mem, ghost order: seq<Addr>, ghost c0: Ctx, ghost t: Tree)
      returns (x: Addr, ghost c: Ctx, ghost t': Tree)
      requires Tracks(m0, order, mem, rbNode, c0, t) && EraseInv(c0, t) && !IsRed(t)
      requires c0.Frame? && c0.side == OnLeft && parent == c0.node
      requires c0.sibling.Branch? && c0.sibling.color == Black && c0.sibling.node == w0 &&
               (IsRed(c0.sibling.left) || IsRed(c0.sibling.right))
      modifies this
      ensures Tracks(m0, order, mem, rbNode, c, t') && ZipRedBlack(c, t') && x == rbNode && t'.Branch?
    {
      hide Tracks, EraseInv, ZipRedBlack;
      var w := w0;
      c := c0;
      AtShort(m0, order, mem, rbNode, c, t);
      if mem[w].right == NULL || mem[mem[w].right].color == Black {
        FarRedInv(c, t);
        TracksAcross(m0, order, mem, rbNode, c, t);
        ghost var a := Across(c, t);
        if mem[w].left != NULL {
          TracksPaintChild(m0, order, mem, rbNode, a, c.sibling, Black);
          mem := mem[mem[w].left := mem[mem[w].left].(color := Black)];
        }
        ghost var s := c.sibling.(left := c.sibling.left.(color := Black));
        TracksPaint(m0, order, mem, rbNode, a, s, Red);
        mem := mem[w := mem[w].(color := Red)];
        s := s.(color := Red);
        RotateRight(w, m0, order, a, s);
        c := FarRedCtx(c);
        TracksAcross(m0, order, mem, rbNode, c, t);
        AtShort(m0, order, mem, rbNode, c, t);
        w := mem[parent].right;
      }
      RepaidInv(c, t);
      t' := Repaid(c, t);
      TracksPaintSibling(m0, order, mem, rbNode, c, t, c.color);
      mem := mem[w := mem[w].(color := mem[parent].color)];
      c := c.(sibling := c.sibling.(color := c.color));
      TracksPaintParent(m0, order, mem, rbNode, c, t, Black);
      mem := mem[parent := mem[parent].(color := Black)];
      c := c.(color := Black);
      AtShort(m0, order, mem, rbNode, c, t);
      if mem[mem[w].right].color != Black {
        TracksPaintNephew(m0, order, mem, rbNode, c, t, Black);
        mem := mem[mem[w].right := mem[mem[w].right].(color := Black)];
      }
      c := c.(sibling := c.sibling.(right := c.sibling.right.(color := Black)));
      TracksAscend(m0, order, mem, rbNode, c, t);
      RotateLeft(parent, m0, order, c.up, Fill(c, t));
      c := c.up;
      x := rbNode;
    }

    /** One round of the removal fix-up when the short side is the right one. */
    method RepayRight(x: Addr, parent: Addr, ghost m0: Mem, ghost order: seq<Addr>, ghost c: Ctx, ghost t: Tree)
      returns (x': Addr, parent': Addr, done: bool, ghost c': Ctx, ghost t': Tree)
      requires Tracks(m0, order, mem, rbNode, c, t) && EraseInv(c, t) && !IsRed(t)
      requires c.Frame? && c.side == OnRight && x == Ref(t) && parent == c.node
      modifies this
      ensures Tracks(m0, order, mem, rbNode, c', t')
      ensures done ==> ZipRedBlack(c', t') && x' == rbNode && t'.Branch?
      ensures !done ==>
              EraseInv(c', t') && x' == Ref(t') && parent' == Parent(c') && (IsRed(t') || Depth(c') < Depth(c))
    {
      hide Tracks, EraseInv;
      x', parent', done, c', t' := x, parent, false, c, t;
      AtShort(m0, order, mem, rbNode, c, t);
      var w := mem[parent].left;
      if mem[w].color == Red {
        BlackSiblingInv(c, t);
        TracksPaintSibling(m0, order, mem, rbNode, c, t, Black);
        mem := mem[w := mem[w].(color := Black)];
        c' := c.(sibling := c.sibling.(color := Black));
        TracksPaintParent(m0, order, mem, rbNode, c', t, Red);
        mem := mem[parent := mem[parent].(color := Red)];
        c' := c'.(color := Red);
        TracksAscend(m0, order, mem, rbNode, c', t);
        RotateRight(parent, m0, order, c.up, Fill(c', t));
        c' := BlackSiblingCtx(c);
        TracksAscend(m0, order, mem, rbNode, c'.up, Fill(c', t));
        TracksAscend(m0, order, mem, rbNode, c', t);
        AtShort(m0, order, mem, rbNode, c', t);
        w := mem[parent].left;
      }
      if (mem[w].left == NULL || mem[mem[w].left].color == Black) &&
        (mem[w].right == NULL || mem[mem[w].right].color == Black) {
        MoveUpInv(c', t);
        TracksPaintSibling(m0, order, mem, rbNode, c', t, Red);
        mem := mem[w := mem[w].(color := Red)];
        c' := c'.(sibling := c'.sibling.(color := Red));
        TracksAscend(m0, order, mem, rbNode, c', t);
        c', t' := c'.up, Fill(c', t);
        x' := parent;
        AtFocus(m0, order, mem, rbNode, c', t');
        parent' := mem[x'].parent;
      } else {
        x', c', t' := RepayRightEnd(parent, w, m0, order, c', t);
        done := true;
      }
    }

    /** The round that ends the fix-up: the sibling w is black and has a red child. */
    method RepayRightEnd(parent: Addr, w0: Addr, ghost m0: Mem, ghost order: seq<Addr>, ghost c0: Ctx, ghost t: Tree)
      returns (x: Addr, ghost c: Ctx, ghost t': Tree)
      requires Tracks(m0, order, mem, rbNode, c0, t) && EraseInv(c0, t) && !IsRed(t)
      requires c0.Frame? && c0.side == OnRight && parent == c0.node
      requires c0.sibling.Branch? && c0.sibling.color == Black && c0.sibling.node == w0 &&
               (IsRed(c0.sibling.left) || IsRed(c0.sibling.right))
      modifies this
      ensures Tracks(m0, order, mem, rbNode, c, t') && ZipRedBlack(c, t') && x == rbNode && t'.Branch?
    {
      hide Tracks, EraseInv, ZipRedBlack;
      var w := w0;
      c := c0;
      AtShort(m0, order, mem, rbNode, c, t);
      if mem[w].left == NULL || mem[mem[w].left].color == Black {
        FarRedInv(c, t);
        TracksAcross(m0, order, mem, rbNode, c, t);
        ghost var a := Across(c, t);
        if mem[w].right != NULL {
          TracksPaintChild(m0, order, mem, rbNode, a, c.sibling, Black);
          mem := mem[mem[w].right := mem[mem[w].right].(color := Black)];
        }
        ghost var s := c.sibling.(right := c.sibling.right.(color := Black));
        TracksPaint(m0, order, mem, rbNode, a, s, Red);
        mem := mem[w := mem[w].(color := Red)];
        s := s.(color := Red);
        RotateLeft(w, m0, order, a, s);
        c := FarRedCtx(c);
        TracksAcross(m0, order, mem, rbNode, c, t);
        AtShort(m0, order, mem, rbNode, c, t);
        w := mem[parent].left;
      }
      RepaidInv(c, t);
      t' := Repaid(c, t);
      TracksPaintSibling(m0, order, mem, rbNode, c, t, c.color);
      mem := mem[w := mem[w].(color := mem[parent].color)];
      c := c.(sibling := c.sibling.(color := c.color));
      TracksPaintParent(m0, order, mem, rbNode, c, t, Black);
      mem := mem[parent := mem[parent].(color := Black)];
      c := c.(color := Black);
      AtShort(m0, order, mem, rbNode, c, t);
      if mem[mem[w].left].color != Black {
        TracksPaintNephew(m0, order, mem, rbNode, c, t, Black);
        mem := mem[mem[w].left := mem[mem[w].left].(color := Black)];
      }
      c := c.(sibling := c.sibling.(left := c.sibling.left.(color := Black)));
      TracksAscend(m0, order, mem, rbNode, c, t);
      RotateRight(parent, m0, order, c.up, Fill(c, t));
      c := c.up;
      x := rbNode;
    }

    /** Restores the red-black conditions after a black node was unlinked above x. */
    method EraseColor(x0: Addr, parent0: Addr, ghost m0: Mem, ghost order: seq<Addr>, ghost c0: Ctx, ghost t0: Tree)
      returns (ghost whole: Tree)
      requires Tracks(m0, order, mem, rbNode, c0, t0) && EraseInv(c0, t0) && x0 == Ref(t0) && parent0 == Parent(c0)
      modifies this
      ensures Tracks(m0, order, mem, rbNode, Top, whole) && RedBlack(whole)
    {
      hide Tracks, EraseInv, ZipRedBlack, RedBlack;
      var x, parent := x0, parent0;
      var done := false;
      ghost var c, t := c0, t0;
      EraseEntry(m0, order, mem, rbNode, c, t);
      while x != rbNode && (x == NULL || mem[x].color == Black)
        invariant Tracks(m0, order, mem, rbNode, c, t)
        invariant EraseInv(c, t) && x == Ref(t) && parent == Parent(c)
        invariant (x == rbNode <==> c.Top?) && (parent == NULL <==> c.Top?) &&
                  (t.Branch? ==> x in mem && x != NULL && mem[x].color == t.color)
        decreases if IsRed(t) then 0 else Depth(c) + 1
      {
        if parent == NULL {
          break;
        }
        AtShort(m0, order, mem, rbNode, c, t);
        if x == mem[parent].left {
          x, parent, done, c, t := RepayLeft(x, parent, m0, order, c, t);
        } else {
          x, parent, done, c, t := RepayRight(x, parent, m0, order, c, t);
        }
        if done {
          break;
        }
        EraseEntry(m0, order, mem, rbNode, c, t);
      }
      if done {
        whole := ToTop(m0, order, mem, rbNode, c, t);
        RootBlack(m0, order, mem, rbNode, whole);
      } else {
        PaidInv(c, t);
        if t.Branch? {
          TracksPaint(m0, order, mem, rbNode, c, t, Black);
          whole := ToTop(m0, order, mem[x := mem[x].(color := Black)], rbNode, c, Paint(t, Black));
        } else {
          whole := ToTop(m0, order, mem, rbNode, c, t);
        }
      }
      if x != NULL {
        mem := mem[x := mem[x].(color := Black)];
      }
    }

    /** Takes out a node with at most one child; child is that child or null. */
    method EraseSingle(node: Addr, child: Addr, ghost c: Ctx, ghost t: Tree, ghost ch: Tree) returns (ghost whole: Tree)
      requires Rep(mem, rbNode, c, t) && ZipRedBlack(c, t) && t.Branch? && t.node == node && child == Ref(ch)
      requires (t.left.Leaf? && ch == t.right) || (t.right.Leaf? && ch == t.left)
      modifies this
      ensures Tracks(old(mem), Order(c, ch), mem, rbNode, Top, whole) && RedBlack(whole)
    {
      SplicedInv(c, t, ch);
      SingleNear(mem, rbNode, c, t, ch);
      hide Rep, EraseInv, ZipRedBlack, RedBlack, Order, Tracks;
      var parent := mem[node].parent;
      var color := mem[node].color;
      if child != NULL {
        mem := mem[child := mem[child].(parent := parent)];
      }
      Relink(parent, node, child, c);
      SplicedTracks(old(mem), mem, old(rbNode), rbNode, c, t, ch);
      if color == Black {
        whole := EraseColor(child, parent, old(mem), Order(c, ch), c, ch);
      } else {
        whole := ToTop(old(mem), Order(c, ch), mem, rbNode, c, ch);
      }
    }

    /** Takes out a node with two children by moving its successor into its place. */
    method EraseDouble(old_: Addr, ghost c: Ctx, ghost t: Tree)
      returns (ghost whole: Tree, ghost c1: Ctx, ghost t1: Tree)
      requires Rep(mem, rbNode, c, t) && ZipRedBlack(c, t) && t.Branch? && t.node == old_ && t.left.Branch? &&
               t.right.Branch?
      modifies this
      ensures AtSuccessor(c, t, c1, t1)
      ensures Tracks(old(mem), Order(Swap(c1, Below(c, t), t1.node), t1.right), mem, rbNode, Top, whole) &&
              RedBlack(whole)
    {
      hide ZipRedBlack, RedBlack, Order, Tracks, EraseInv, SwapNear;
      ghost var base := Below(c, t);
      assert mem[old_].right == t.right.node &&
             t.right.node in mem by { AtMark(mem, rbNode, c, t); DescendRight(mem, rbNode, c, t); }
      hide Rep;
      var node := mem[old_].right;
      c1, t1 := base, t.right;
      DescendRight(mem, rbNode, c, t);
      AtMark(mem, rbNode, c1, t1);
      var left := mem[node].left;
      while left != NULL
        invariant Rep(mem, rbNode, c1, t1) && Spine(c1, base) && SpineTree(c1, base, t1) == t.right
        invariant t1.Branch? && t1.node == node && left == Ref(t1.left)
        invariant mem == old(mem) && rbNode == old(rbNode)
        decreases t1
      {
        node := left;
        DescendLeft(mem, rbNode, c1, t1);
        c1, t1 := Frame(OnLeft, t1.node, t1.color, t1.right, c1), t1.left;
        assert c1 != base && Fill(c1, t1).Branch?;
        AtMark(mem, rbNode, c1, t1);
        left := mem[node].left;
      }
      NonNullChildren(mem, rbNode, c1, t1);
      whole := MoveUp(old_, node, c, t, c1, t1);
    }

    /** Links the successor node in the place of old_ and its child in its own place. */
    method LinkSuccessor(old_: Addr, node: Addr, ghost c: Ctx, ghost t: Tree, ghost c1: Ctx, ghost t1: Tree)
      returns (child: Addr, parent: Addr, color: Color)
      requires AtSuccessor(c, t, c1, t1) && SwapNear(mem, c, t, c1, t1) && t.node == old_ && t1.node == node
      modifies this
      ensures Succeeded(old(mem), mem, old(rbNode), rbNode, c, t, c1, t1)
      ensures child == Ref(t1.right) && color == t1.color && parent == if c1 == Below(c, t) then node else c1.node
    {
      hide Spine, SpineTree;
      Relink(mem[old_].parent, old_, node, c);
      ghost var m1 := mem;
      child := mem[node].right;
      parent := mem[node].parent;
      color := mem[node].color;
      if parent == old_ {
        parent := node;
      } else {
        Lift(old_, node, child, parent, t1.right);
      }
      SucceededSteps(old(mem), m1, mem, old(rbNode), rbNode, c, t, c1, t1);
      hide Succeeded;
      mem := mem[node := mem[node].(color := mem[old_].color, parent := mem[old_].parent, left := mem[old_].left)];
      mem := mem[mem[old_].left := mem[mem[old_].left].(parent := node)];
    }

    /** Hangs the successor's child under its parent and gives the successor the right child of old_. */
    method Lift(old_: Addr, node: Addr, child: Addr, parent: Addr, ghost ch: Tree)
      requires old_ in mem && node in mem && parent in mem && mem[old_].right in mem && child == Ref(ch)
      requires ch.Branch? ==>
               child in mem && child != NULL && child != node && child != parent && child != old_ &&
               child != mem[old_].right
      requires parent != node && parent != old_ && mem[old_].right != node && mem[old_].right != old_ && node != old_
      modifies this
      ensures Lifted(old(mem), mem, node, ch, parent, old(mem[old_]).right) && rbNode == old(rbNode)
    {
      if child != NULL {
        mem := mem[child := mem[child].(parent := parent)];
      }
      mem := mem[parent := mem[parent].(left := child)];
      mem := mem[node := mem[node].(right := mem[old_].right)];
      mem := mem[mem[old_].right := mem[mem[old_].right].(parent := node)];
    }

    /** Makes the link to old_ in its parent, or the root pointer, point to new_. */
    method Relink(parent: Addr, old_: Addr, new_: Addr, ghost c: Ctx)
      requires parent == Parent(c)
      requires c.Frame? ==>
               c.node != NULL && c.node in mem && mem[c.node] == FrameRec(c, old_) && Ref(c.sibling) != old_
      modifies this
      ensures c.Frame? ==> mem == old(mem)[c.node := FrameRec(c, new_)] && rbNode == old(rbNode)
      ensures c.Top? ==> mem == old(mem) && rbNode == new_
    {
      if parent != NULL {
        if mem[parent].left == old_ {
          mem := mem[parent := mem[parent].(left := new_)];
        } else {
          mem := mem[parent := mem[parent].(right := new_)];
        }
      } else {
        rbNode := new_;
      }
    }

    method MoveUp(old_: Addr, node: Addr, ghost c: Ctx, ghost t: Tree, ghost c1: Ctx,
                  ghost t1: Tree) returns (ghost whole: Tree)
      requires Rep(mem, rbNode, c, t) && ZipRedBlack(c, t) && AtSuccessor(c, t, c1, t1) && t.node == old_ &&
               t1.node == node
      modifies this
      ensures Tracks(old(mem), Order(Swap(c1, Below(c, t), node), t1.right), mem, rbNode, Top, whole) && RedBlack(whole)
    {
      SwapNearRep(mem, rbNode, c, t, c1, t1);
      SucceedInv(c, t, c1, t1);
      hide Rep, ZipRedBlack, RedBlack, Order, Tracks, EraseInv, Spine, SpineTree, SwapNear, Succeeded;
      ghost var c2 := Swap(c1, Below(c, t), node);
      var child, parent, color := LinkSuccessor(old_, node, c, t, c1, t1);
      SucceededTracks(old(mem), mem, old(rbNode), rbNode, c, t, c1, t1);
      if color == Black {
        whole := EraseColor(child, parent, old(mem), Order(c2, t1.right), c2, t1.right);
      } else {
        whole := ToTop(old(mem), Order(c2, t1.right), mem, rbNode, c2, t1.right);
      }
    }

    /** Removes node from the tree. */
    method Erase(node: Addr, ghost tree: Tree) returns (ghost whole: Tree)
      requires Rep(mem, rbNode, Top, tree) && RedBlack(tree) && node in Nodes(tree)
      modifies this
      ensures Rep(mem, rbNode, Top, whole) && RedBlack(whole)
      ensures Removed(Inorder(tree), node, Inorder(whole))
      ensures ChangedOnly(old(mem), mem, Nodes(whole))
    {
      ghost var c, t := Locate(mem, rbNode, Top, tree, node);
      assert Order(Top, tree) == Inorder(tree);
      AtMark(mem, rbNode, c, t);
      NonNullChildren(mem, rbNode, c, t);
      hide Rep, RedBlack, ZipRedBlack, Order, Removed, Tracks;
      var child;
      if mem[node].left == NULL {
        child := mem[node].right;
        SplicedOrder(c, t, t.right);
        whole := EraseSingle(node, child, c, t, t.right);
      } else if mem[node].right == NULL {
        child := mem[node].left;
        SplicedOrder(c, t, t.left);
        whole := EraseSingle(node, child, c, t, t.left);
      } else {
        ghost var c1, t1;
        whole, c1, t1 := EraseDouble(node, c, t);
        SucceedInv(c, t, c1, t1);
      }
      TracksWhole(old(mem), mem, rbNode, whole);
    }

    /** Links node as a red leaf into a null slot. */
    method LinkNode(node: Addr, parent: Addr, link: Slot, ghost c: Ctx)
      requires Rep(mem, rbNode, c, Leaf) && node != NULL && node in mem && node !in CtxNodes(c)
      requires parent == Parent(c) && link == SlotOf(c)
      modifies this
      ensures Rep(mem, rbNode, c, Branch(Leaf, node, Red, Leaf))
      ensures ChangedOnly(old(mem), mem, {node} + Hook(c))
    {
      ghost var m0 := mem;
      assert c.Frame? ==> c.node in mem && mem[c.node] == FrameRec(c, NULL) && c.node != node;
      hide Rep;
      mem := mem[node := mem[node].(parent := parent)];
      mem := mem[node := mem[node].(left := NULL, right := NULL)];
      match link {
        case RootSlot => rbNode := node;
        case ChildSlot(owner, OnLeft) => mem := mem[owner := mem[owner].(left := node)];
        case ChildSlot(owner, OnRight) => mem := mem[owner := mem[owner].(right := node)];
      }
      mem := mem[node := mem[node].(color := Red)];
      LinkedRep(m0, mem, old(rbNode), rbNode, c, node);
    }

    /** The first node in sort order, or null. */
    method First(ghost tree: Tree) returns (n: Addr)
      requires Rep(mem, rbNode, Top, tree)
      ensures tree.Leaf? ==> n == NULL
      ensures tree.Branch? ==> |Inorder(tree)| > 0 && n == Inorder(tree)[0]
    {
      n := rbNode;
      if n == NULL {
        EmptyRoot(mem, rbNode, tree);
        return NULL;
      }
      ghost var c, t := Top, tree;
      hide Rep;
      AtMark(mem, rbNode, c, t);
      NonNullChildren(mem, rbNode, c, t);
      while mem[n].left != NULL
        invariant Rep(mem, rbNode, c, t) && t.Branch? && t.node == n && n in mem
        invariant mem[n].left == Ref(t.left) && (Ref(t.left) == NULL <==> t.left.Leaf?)
        invariant Before(c) == [] && Order(c, t) == Inorder(tree)
        decreases t
      {
        n := mem[n].left;
        DescendLeft(mem, rbNode, c, t);
        ghost var c' := Frame(OnLeft, t.node, t.color, t.right, c);
        AscendOrder(c', t.left);
        c, t := c', t.left;
        AtMark(mem, rbNode, c, t);
        NonNullChildren(mem, rbNode, c, t);
      }
      assert Order(c, t)[0] == n;
    }
  }
}
