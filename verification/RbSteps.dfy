/**
 Steps of the balancing code on a represented tree: repainting nodes next to the
 mark and rotating at the mark, with the sort order and all other memory kept.
 */
module RbSteps {
  import opened RbZipper
  import opened RbMemory

  // ---------- what every step keeps ----------

  /**
   Since memory m0, only nodes of the tree were written; the tree marked by (c, t)
   still lists the nodes in the given order.
   */
  ghost predicate Tracks(m0: Mem, order: seq<Addr>, m: Mem, root: Addr, c: Ctx, t: Tree) {
    Rep(m, root, c, t) && Order(c, t) == order && ChangedOnly(m0, m, set n | n in order)
  }

  lemma TracksStep(m0: Mem, order: seq<Addr>, m: Mem, root: Addr, c: Ctx, t: Tree, m': Mem, root': Addr, c': Ctx,
                   t': Tree)
    requires Tracks(m0, order, m, root, c, t)
    requires Rep(m', root', c', t') && Order(c', t') == order
    requires ChangedOnly(m, m', CtxNodes(c) + Nodes(t))
    ensures Tracks(m0, order, m', root', c', t')
  {
    OrderNodes(c, t);
  }

  lemma TracksAscend(m0: Mem, order: seq<Addr>, m: Mem, root: Addr, c: Ctx, t: Tree)
    requires c.Frame?
    ensures Tracks(m0, order, m, root, c, t) <==> Tracks(m0, order, m, root, c.up, Fill(c, t))
  {
    AscendRep(m, root, c, t);
    AscendOrder(c, t);
  }

  /** The mark is at the root exactly when the focus is where the root pointer points. */
  lemma {:induction false} RootRefNode(c: Ctx, d: Addr)
    requires c.Frame?
    ensures RootRef(c, d) in CtxNodes(c)
    ensures CtxSeparate(c) ==> RootRef(c, d) != NULL
  {
    if c.up.Frame? {
      RootRefNode(c.up, c.node);
    }
  }

  lemma {:induction false} ToTop(m0: Mem, order: seq<Addr>, m: Mem, root: Addr, c: Ctx, t: Tree) returns (whole: Tree)
    requires Tracks(m0, order, m, root, c, t)
    ensures Tracks(m0, order, m, root, Top, whole)
    ensures ZipRedBlack(c, t) ==> RedBlack(whole)
    ensures t.Branch? ==> whole.Branch?
    decreases c
  {
    if c.Top? {
      whole := t;
    } else {
      TracksAscend(m0, order, m, root, c, t);
      AscendRedBlack(c, t);
      whole := ToTop(m0, order, m, root, c.up, Fill(c, t));
    }
  }

  lemma TracksPaint(m0: Mem, order: seq<Addr>, m: Mem, root: Addr, c: Ctx, t: Tree, k: Color)
    requires t.Branch? && Tracks(m0, order, m, root, c, t)
    ensures t.node in m && Tracks(m0, order, m[t.node := m[t.node].(color := k)], root, c, t.(color := k))
  {
    PaintRep(m, root, c, t, k);
    OrderNodes(c, t);
  }

  lemma TracksPaintParent(m0: Mem, order: seq<Addr>, m: Mem, root: Addr, c: Ctx, t: Tree, k: Color)
    requires c.Frame? && Tracks(m0, order, m, root, c, t)
    ensures c.node in m && Tracks(m0, order, m[c.node := m[c.node].(color := k)], root, c.(color := k), t)
  {
    TracksAscend(m0, order, m, root, c, t);
    TracksPaint(m0, order, m, root, c.up, Fill(c, t), k);
    TracksAscend(m0, order, m[c.node := m[c.node].(color := k)], root, c.(color := k), t);
  }

  /** Moves the mark from one child of c.node to the other. */
  ghost function Across(c: Ctx, t: Tree): Ctx
    requires c.Frame?
  {
    Frame(if c.side == OnLeft then OnRight else OnLeft, c.node, c.color, t, c.up)
  }

  lemma TracksAcross(m0: Mem, order: seq<Addr>, m: Mem, root: Addr, c: Ctx, t: Tree)
    requires c.Frame?
    ensures Tracks(m0, order, m, root, c, t) <==> Tracks(m0, order, m, root, Across(c, t), c.sibling)
  {
    TracksAscend(m0, order, m, root, c, t);
    TracksAscend(m0, order, m, root, Across(c, t), c.sibling);
  }

  lemma TracksPaintSibling(m0: Mem, order: seq<Addr>, m: Mem, root: Addr, c: Ctx, t: Tree, k: Color)
    requires c.Frame? && c.sibling.Branch? && Tracks(m0, order, m, root, c, t)
    ensures c.sibling.node in m
    ensures Tracks(m0, order, m[c.sibling.node := m[c.sibling.node].(color := k)], root,
                   c.(sibling := c.sibling.(color := k)), t)
  {
    TracksAcross(m0, order, m, root, c, t);
    TracksPaint(m0, order, m, root, Across(c, t), c.sibling, k);
    TracksAcross(m0, order, m[c.sibling.node := m[c.sibling.node].(color := k)], root,
                 c.(sibling := c.sibling.(color := k)), t);
  }

  // ---------- rotations ----------

  ghost function RotL(t: Tree): Tree
    requires t.Branch? && t.right.Branch?
  {
    Branch(Branch(t.left, t.node, t.color, t.right.left), t.right.node, t.right.color, t.right.right)
  }

  ghost function RotR(t: Tree): Tree
    requires t.Branch? && t.left.Branch?
  {
    Branch(t.left.left, t.left.node, t.left.color, Branch(t.left.right, t.node, t.color, t.right))
  }

  /** Both rotations keep the sort order, and each undoes the other. */
  lemma RotateOrder(c: Ctx, t: Tree)
    requires t.Branch?
    ensures t.right.Branch? ==> Order(c, RotL(t)) == Order(c, t) && RotR(RotL(t)) == t
    ensures t.left.Branch? ==> Order(c, RotR(t)) == Order(c, t) && RotL(RotR(t)) == t
  {
    if t.right.Branch? {
      assert Inorder(RotL(t)) == Inorder(t);
    }
    if t.left.Branch? {
      assert Inorder(RotR(t)) == Inorder(t);
    }
  }

  /** The records a rotation at x touches are distinct and linked: y is x's child, b is y's inner child. */
  ghost predicate Near(m: Mem, c: Ctx, x: Addr, b: Tree, y: Addr) {
    && x in m && y in m && x != y && x != NULL && y != NULL
    && m[x].parent == Parent(c) && m[y].parent == x
    && (b.Branch? ==> b.node in m && b.node != NULL && b.node != x && b.node != y)
    && (c.Frame? ==>
      && c.node in m && c.node != NULL && c.node != x && c.node != y && c.node != Ref(b)
      && m[c.node] == FrameRec(c, x) && Ref(c.sibling) != x)
  }

  lemma NearInner(m0: Mem, order: seq<Addr>, m: Mem, root: Addr, c: Ctx, t: Tree)
    requires t.Branch? && Tracks(m0, order, m, root, c, t)
    ensures t.right.Branch? ==> Near(m, c, t.node, t.right.left, t.right.node)
    ensures t.left.Branch? ==> Near(m, c, t.node, t.left.right, t.left.node)
    ensures t.right.Branch? ==> m[t.node] == NodeRec(t.color, Parent(c), t.right.node, Ref(t.left))
    ensures t.left.Branch? ==> m[t.node] == NodeRec(t.color, Parent(c), Ref(t.right), t.left.node)
    ensures t.right.Branch? ==> m[t.right.node] == NodeRec(t.right.color, t.node, Ref(t.right.right), Ref(t.right.left))
    ensures t.left.Branch? ==> m[t.left.node] == NodeRec(t.left.color, t.node, Ref(t.left.right), Ref(t.left.left))
  {
    if t.right.Branch? {
      SelfNear(m, t.right, t.node, t.right.left);
    }
    if t.left.Branch? {
      SelfNear(m, t.left, t.node, t.left.right);
    }
    if c.Frame? && c.sibling.Branch? {
      assert c.sibling.node in Nodes(c.sibling);
    }
  }

  lemma SelfNear(m: Mem, t: Tree, p: Addr, b: Tree)
    requires t.Branch? && Shape(m, t, p) && Separate(t) && (b == t.left || b == t.right)
    ensures b.Branch? ==> b.node in m && b.node != NULL && b.node != t.node && b.node in Nodes(t)
    ensures t.node in m && m[t.node] == NodeRec(t.color, p, Ref(t.right), Ref(t.left)) && t.node in Nodes(t)
  {
    if b.Branch? {
      assert b.node in Nodes(b);
      assert Shape(m, b, t.node) && Separate(b);
    }
  }

  lemma TracksRotateLeft(m0: Mem, order: seq<Addr>, m: Mem, root: Addr, c: Ctx, t: Tree, m': Mem, root': Addr)
    requires t.Branch? && t.right.Branch? && Tracks(m0, order, m, root, c, t)
    requires t.node in m && t.right.node in m
    requires Rotated(m, m', root, root', c, t.node, t.right.left, t.right.node,
                     m[t.node].(right := Ref(t.right.left), parent := t.right.node),
                     m[t.right.node].(left := t.node, parent := Parent(c)))
    ensures Tracks(m0, order, m', root', c, RotL(t))
  {
    NearInner(m0, order, m, root, c, t);
    RotateLeftRep(m, m', root, root', c, t.left, t.node, t.color, t.right.left, t.right.node, t.right.color,
                  t.right.right);
    RotateOrder(c, t);
    SelfNear(m, t.right, t.node, t.right.left);
    TracksStep(m0, order, m, root, c, t, m', root', c, RotL(t));
  }

  lemma TracksRotateRight(m0: Mem, order: seq<Addr>, m: Mem, root: Addr, c: Ctx, t: Tree, m': Mem, root': Addr)
    requires t.Branch? && t.left.Branch? && Tracks(m0, order, m, root, c, t)
    requires t.node in m && t.left.node in m
    requires Rotated(m, m', root, root', c, t.node, t.left.right, t.left.node,
                     m[t.node].(left := Ref(t.left.right), parent := t.left.node),
                     m[t.left.node].(right := t.node, parent := Parent(c)))
    ensures Tracks(m0, order, m', root', c, RotR(t))
  {
    NearInner(m0, order, m, root, c, t);
    RotateRightRep(m, m', root, root', c, t.left.left, t.left.node, t.left.color, t.left.right, t.node, t.color,
                   t.right);
    RotateOrder(c, t);
    SelfNear(m, t.left, t.node, t.left.right);
    TracksStep(m0, order, m, root, c, t, m', root', c, RotR(t));
  }

  /** The links next to the mark, as records. */
  lemma AtMark(m: Mem, root: Addr, c: Ctx, t: Tree)
    requires Rep(m, root, c, t) && t.Branch?
    ensures t.node in m && m[t.node] == NodeRec(t.color, Parent(c), Ref(t.right), Ref(t.left)) && t.node != NULL
    ensures c.Frame? ==>
            c.node in m && m[c.node] == FrameRec(c, t.node) && c.node != t.node && Ref(c.sibling) != t.node &&
            c.node != NULL
    ensures c.Frame? && c.up.Frame? ==> c.up.node in m && m[c.up.node] == FrameRec(c.up, c.node)
    ensures c.Frame? && c.up.Frame? ==> Ref(c.up.sibling) != c.node && c.up.node != c.node && c.up.node != NULL
    ensures c.Frame? && c.up.Frame? && c.up.sibling.Branch? ==>
            c.up.sibling.node in m && m[c.up.sibling.node].color == c.up.sibling.color && c.up.sibling.node != NULL
    ensures root == t.node <==> c.Top?
  {
    if c.Frame? {
      RootRefNode(c, t.node);
      assert c.sibling.Branch? ==> c.sibling.node in Nodes(c.sibling);
      assert CtxShape(m, c.up, c.node) && CtxSeparate(c.up);
      assert c.up.Frame? ==> Separate(c.up.sibling);
      assert c.up.Frame? && c.up.sibling.Branch? ==> c.up.sibling.node in Nodes(c.up.sibling);
    }
  }

  /** The parent's record, the sibling's record and the colours of the sibling's children. */
  lemma AtSibling(m: Mem, root: Addr, c: Ctx, t: Tree)
    requires Rep(m, root, c, t) && c.Frame?
    ensures c.node in m && m[c.node] == FrameRec(c, Ref(t)) && c.node != NULL && root != Ref(t)
    ensures c.sibling.Branch? ==>
      var w := c.sibling;
      && w.node in m && m[w.node] == NodeRec(w.color, c.node, Ref(w.right), Ref(w.left))
      && w.node != NULL && w.node != Ref(t) && w.node != c.node
      && (w.left.Branch? ==> w.left.node in m && w.left.node != NULL && m[w.left.node].color == w.left.color)
      && (w.right.Branch? ==> w.right.node in m && w.right.node != NULL && m[w.right.node].color == w.right.color)
  {
    RootRefNode(c, Ref(t));
    assert t.Branch? ==> t.node in Nodes(t);
    var w := c.sibling;
    if w.Branch? {
      assert w.node in Nodes(w);
      SelfNear(m, w, c.node, w.left);
      SelfNear(m, w, c.node, w.right);
      assert Shape(m, w.left, w.node) && Shape(m, w.right, w.node);
    }
  }

  /** Painting the left or right child of the focus. */
  lemma TracksPaintChild(m0: Mem, order: seq<Addr>, m: Mem, root: Addr, c: Ctx, t: Tree, k: Color)
    requires t.Branch? && Tracks(m0, order, m, root, c, t)
    ensures t.left.Branch? ==>
      && t.left.node in m
      && Tracks(m0, order, m[t.left.node := m[t.left.node].(color := k)], root, c, t.(left := t.left.(color := k)))
    ensures t.right.Branch? ==>
      && t.right.node in m
      && Tracks(m0, order, m[t.right.node := m[t.right.node].(color := k)], root, c, t.(right := t.right.(color := k)))
  {
    hide Rep, Order, ChangedOnly;
    var l, r := Frame(OnLeft, t.node, t.color, t.right, c), Frame(OnRight, t.node, t.color, t.left, c);
    TracksAscend(m0, order, m, root, l, t.left);
    TracksAscend(m0, order, m, root, r, t.right);
    if t.left.Branch? {
      TracksPaint(m0, order, m, root, l, t.left, k);
      TracksAscend(m0, order, m[t.left.node := m[t.left.node].(color := k)], root, l, t.left.(color := k));
    }
    if t.right.Branch? {
      TracksPaint(m0, order, m, root, r, t.right, k);
      TracksAscend(m0, order, m[t.right.node := m[t.right.node].(color := k)], root, r, t.right.(color := k));
    }
  }

  /** Painting a child of the sibling. */
  lemma TracksPaintNephew(m0: Mem, order: seq<Addr>, m: Mem, root: Addr, c: Ctx, t: Tree, k: Color)
    requires c.Frame? && c.sibling.Branch? && Tracks(m0, order, m, root, c, t)
    ensures var w := c.sibling; w.left.Branch? ==>
      && w.left.node in m
      && Tracks(m0, order, m[w.left.node := m[w.left.node].(color := k)], root,
                c.(sibling := w.(left := w.left.(color := k))), t)
    ensures var w := c.sibling; w.right.Branch? ==>
      && w.right.node in m
      && Tracks(m0, order, m[w.right.node := m[w.right.node].(color := k)], root,
                c.(sibling := w.(right := w.right.(color := k))), t)
  {
    hide Rep, Order, ChangedOnly;
    var w := c.sibling;
    TracksAcross(m0, order, m, root, c, t);
    TracksPaintChild(m0, order, m, root, Across(c, t), w, k);
    if w.left.Branch? {
      TracksAcross(m0, order, m[w.left.node := m[w.left.node].(color := k)], root,
                   c.(sibling := w.(left := w.left.(color := k))), t);
    }
    if w.right.Branch? {
      TracksAcross(m0, order, m[w.right.node := m[w.right.node].(color := k)], root,
                   c.(sibling := w.(right := w.right.(color := k))), t);
    }
  }
}
