/**
 How a node memory represents a marked tree: every node of the tree has a record
 whose colour, parent link and child links are those of the tree.
 */
module RbMemory {
  import opened RbZipper

  /** One node record, with the fields in their declared order. */
  datatype NodeRec = NodeRec(color: Color, parent: Addr, right: Addr, left: Addr)

  type Mem = map<Addr, NodeRec>

  ghost predicate Shape(m: Mem, t: Tree, p: Addr) {
    match t
    case Leaf => true
    case Branch(l, n, c, r) =>
      n in m && m[n] == NodeRec(c, p, Ref(r), Ref(l)) && Shape(m, l, n) && Shape(m, r, n)
  }

  ghost function Parent(c: Ctx): Addr {
    if c.Top? then NULL else c.node
  }

  /** Address of the root of the whole tree when d is the address in the hole. */
  ghost function RootRef(c: Ctx, d: Addr): Addr {
    if c.Top? then d else RootRef(c.up, c.node)
  }

  /** The record of the innermost node of c when d is the address in the hole. */
  ghost function FrameRec(c: Ctx, d: Addr): NodeRec
    requires c.Frame?
  {
    if c.side == OnLeft
    then NodeRec(c.color, Parent(c.up), Ref(c.sibling), d)
    else NodeRec(c.color, Parent(c.up), d, Ref(c.sibling))
  }

  ghost predicate CtxShape(m: Mem, c: Ctx, d: Addr) {
    c.Frame? ==>
      c.node in m && m[c.node] == FrameRec(c, d) && Shape(m, c.sibling, c.node) && CtxShape(m, c.up, c.node)
  }

  /** Memory m with root pointer root holds exactly the tree marked by (c, t). */
  ghost predicate Rep(m: Mem, root: Addr, c: Ctx, t: Tree) {
    && Separate(t) && CtxSeparate(c) && CtxNodes(c) !! Nodes(t)
    && Shape(m, t, Parent(c)) && CtxShape(m, c, Ref(t))
    && root == RootRef(c, Ref(t))
  }

  /** m' differs from m at most at the addresses in s. */
  ghost predicate ChangedOnly(m: Mem, m': Mem, s: set<Addr>) {
    m'.Keys == m.Keys && forall n :: n in m && n !in s ==> m'[n] == m[n]
  }

  // ---------- moving the mark ----------

  lemma AscendRep(m: Mem, root: Addr, c: Ctx, t: Tree)
    requires c.Frame?
    ensures Rep(m, root, c, t) <==> Rep(m, root, c.up, Fill(c, t))
  {
  }

  lemma DescendLeft(m: Mem, root: Addr, c: Ctx, t: Tree)
    requires t.Branch? && Rep(m, root, c, t)
    ensures Rep(m, root, Frame(OnLeft, t.node, t.color, t.right, c), t.left)
  {
    AscendRep(m, root, Frame(OnLeft, t.node, t.color, t.right, c), t.left);
  }

  lemma DescendRight(m: Mem, root: Addr, c: Ctx, t: Tree)
    requires t.Branch? && Rep(m, root, c, t)
    ensures Rep(m, root, Frame(OnRight, t.node, t.color, t.left, c), t.right)
  {
    AscendRep(m, root, Frame(OnRight, t.node, t.color, t.left, c), t.right);
  }

  // ---------- framing ----------

  lemma {:induction false} ShapeFrame(m: Mem, m': Mem, s: set<Addr>, t: Tree, p: Addr)
    requires Shape(m, t, p) && ChangedOnly(m, m', s) && s !! Nodes(t)
    ensures Shape(m', t, p)
  {
    match t
    case Leaf =>
    case Branch(l, n, _, r) =>
      ShapeFrame(m, m', s, l, n);
      ShapeFrame(m, m', s, r, n);
  }

  lemma {:induction false} CtxFrame(m: Mem, m': Mem, s: set<Addr>, c: Ctx, d: Addr)
    requires CtxShape(m, c, d) && ChangedOnly(m, m', s) && s !! CtxNodes(c)
    ensures CtxShape(m', c, d)
    decreases c
  {
    if c.Frame? {
      ShapeFrame(m, m', s, c.sibling, c.node);
      CtxFrame(m, m', s, c.up, c.node);
    }
  }

  /** The focus gets a new colour and parent; below it nothing changes. */
  lemma ShapeRootChange(m: Mem, m': Mem, s: set<Addr>, t: Tree, p: Addr, k: Color, p': Addr)
    requires t.Branch? && Shape(m, t, p) && Separate(t) && ChangedOnly(m, m', s)
    requires forall n :: n in s && n in Nodes(t) ==> n == t.node
    requires m'[t.node] == m[t.node].(color := k, parent := p')
    ensures Shape(m', t.(color := k), p')
  {
    ShapeFrame(m, m', s, t.left, t.node);
    ShapeFrame(m, m', s, t.right, t.node);
  }

  /** The innermost node of the context gets a new child in the hole; the rest does not change. */
  lemma CtxRelink(m: Mem, m': Mem, s: set<Addr>, c: Ctx, d: Addr, d': Addr)
    requires c.Frame? && CtxShape(m, c, d) && CtxSeparate(c) && ChangedOnly(m, m', s)
    requires forall n :: n in s && n in CtxNodes(c) ==> n == c.node
    requires m'[c.node] == FrameRec(c, d')
    ensures CtxShape(m', c, d')
  {
    ShapeFrame(m, m', s, c.sibling, c.node);
    CtxFrame(m, m', s, c.up, c.node);
  }

  /** Writing the colour field of the focus repaints it. */
  lemma PaintRep(m: Mem, root: Addr, c: Ctx, t: Tree, k: Color)
    requires t.Branch? && Rep(m, root, c, t)
    ensures t.node in m && Rep(m[t.node := m[t.node].(color := k)], root, c, t.(color := k))
  {
    var m' := m[t.node := m[t.node].(color := k)];
    ShapeRootChange(m, m', {t.node}, t, Parent(c), k, Parent(c));
    CtxFrame(m, m', {t.node}, c, t.node);
  }

  // ---------- rotations ----------

  /** Node addresses of the root of t, if any, and of the innermost node of c, if any. */
  ghost function Self(t: Tree): set<Addr> {
    if t.Leaf? then {} else {t.node}
  }

  ghost function Hook(c: Ctx): set<Addr> {
    if c.Top? then {} else {c.node}
  }

  /** What the link writes of a rotation must leave: x is now under y, b under x, y in the hole. */
  ghost predicate Rotated(m: Mem, m': Mem, root: Addr, root': Addr, c: Ctx, x: Addr, b: Tree, y: Addr, rx: NodeRec,
                          ry: NodeRec)
  {
    && ChangedOnly(m, m', {x, y} + Self(b) + Hook(c))
    && x in m && m'[x] == rx
    && y in m && m'[y] == ry
    && (b.Branch? ==> b.node in m && m'[b.node] == m[b.node].(parent := x))
    && (c.Frame? ==> c.node in m && m'[c.node] == FrameRec(c, y))
    && root' == if c.Top? then y else root
  }

  /** Rotating keeps the nodes and their separation. */
  lemma RotateSeparate(a: Tree, x: Addr, k: Color, b: Tree, y: Addr, l: Color, d: Tree)
    ensures Nodes(Branch(a, x, k, Branch(b, y, l, d))) == Nodes(Branch(Branch(a, x, k, b), y, l, d))
    ensures Separate(Branch(a, x, k, Branch(b, y, l, d))) <==> Separate(Branch(Branch(a, x, k, b), y, l, d))
  {
    assert Nodes(Branch(a, x, k, b)) == Nodes(a) + {x} + Nodes(b);
    assert Nodes(Branch(b, y, l, d)) == Nodes(b) + {y} + Nodes(d);
  }

  /** A left rotation at x turns x(a, y(b, d)) into y(x(a, b), d). */
  lemma RotateLeftRep(m: Mem, m': Mem, root: Addr, root': Addr, c: Ctx, a: Tree, x: Addr, k: Color, b: Tree, y: Addr,
                      l: Color, d: Tree)
    requires Rep(m, root, c, Branch(a, x, k, Branch(b, y, l, d)))
    requires Rotated(m, m', root, root', c, x, b, y, NodeRec(k, y, Ref(b), Ref(a)), NodeRec(l, Parent(c), Ref(d), x))
    ensures Rep(m', root', c, Branch(Branch(a, x, k, b), y, l, d))
  {
    var s := {x, y} + Self(b) + Hook(c);
    var t := Branch(b, y, l, d);
    RotateSeparate(a, x, k, b, y, l, d);
    assert Shape(m, t, x) && Separate(t);
    ShapeFrame(m, m', s, a, x);
    ShapeFrame(m, m', s, d, y);
    if b.Branch? {
      ShapeRootChange(m, m', s, b, y, b.color, x);
    }
    if c.Frame? {
      CtxRelink(m, m', s, c, x, y);
    }
    assert Shape(m', Branch(a, x, k, b), y);
  }

  /** A right rotation at x turns x(y(d, b), a) into y(d, x(b, a)). */
  lemma RotateRightRep(m: Mem, m': Mem, root: Addr, root': Addr, c: Ctx, d: Tree, y: Addr, l: Color, b: Tree, x: Addr,
                       k: Color, a: Tree)
    requires Rep(m, root, c, Branch(Branch(d, y, l, b), x, k, a))
    requires Rotated(m, m', root, root', c, x, b, y, NodeRec(k, y, Ref(a), Ref(b)), NodeRec(l, Parent(c), x, Ref(d)))
    ensures Rep(m', root', c, Branch(d, y, l, Branch(b, x, k, a)))
  {
    var s := {x, y} + Self(b) + Hook(c);
    var t := Branch(d, y, l, b);
    RotateSeparate(d, y, l, b, x, k, a);
    assert Shape(m, t, x) && Separate(t);
    ShapeFrame(m, m', s, a, x);
    ShapeFrame(m, m', s, d, y);
    if b.Branch? {
      ShapeRootChange(m, m', s, b, y, b.color, x);
    }
    if c.Frame? {
      CtxRelink(m, m', s, c, x, y);
    }
    assert Shape(m', Branch(b, x, k, a), y);
  }
}
