/**
 Trees of node addresses, one-hole contexts over them, and the red-black
 conditions of both. A tree with a marked position is a pair (context, focus);
 `Ascend` and `Descend` lemmas show that every notion below depends only on the
 whole tree, not on where the mark is.
 */
module RbZipper {
  import opened Basics

  /** Address of a node; 0 is the null pointer. */
  type Addr = nat

  const NULL: Addr := 0

  datatype Color = Red | Black

  datatype Tree = Leaf | Branch(left: Tree, node: Addr, color: Color, right: Tree)

  datatype Side = OnLeft | OnRight

  /** Path from a hole to the root: the innermost enclosing node comes first. */
  datatype Ctx = Top | Frame(side: Side, node: Addr, color: Color, sibling: Tree, up: Ctx)

  ghost function Ref(t: Tree): Addr {
    if t.Leaf? then NULL else t.node
  }

  /** The tree got by putting t under the innermost node of c. */
  ghost function Fill(c: Ctx, t: Tree): Tree
    requires c.Frame?
  {
    if c.side == OnLeft then Branch(t, c.node, c.color, c.sibling) else Branch(c.sibling, c.node, c.color, t)
  }

  // ---------- node sets and the sequence in sort order ----------

  ghost function Nodes(t: Tree): set<Addr> {
    match t
    case Leaf => {}
    case Branch(l, n, _, r) => Nodes(l) + {n} + Nodes(r)
  }

  ghost function CtxNodes(c: Ctx): set<Addr> {
    match c
    case Top => {}
    case Frame(_, n, _, s, up) => {n} + Nodes(s) + CtxNodes(up)
  }

  ghost predicate Separate(t: Tree) {
    match t
    case Leaf => true
    case Branch(l, n, _, r) =>
      n != NULL && n !in Nodes(l) && n !in Nodes(r) && Nodes(l) !! Nodes(r) && Separate(l) && Separate(r)
  }

  ghost predicate CtxSeparate(c: Ctx) {
    match c
    case Top => true
    case Frame(_, n, _, s, up) =>
      n != NULL && n !in Nodes(s) && n !in CtxNodes(up) && Nodes(s) !! CtxNodes(up) && Separate(s) && CtxSeparate(up)
  }

  ghost function Inorder(t: Tree): seq<Addr> {
    match t
    case Leaf => []
    case Branch(l, n, _, r) => Inorder(l) + [n] + Inorder(r)
  }

  /** Nodes that come before the hole in sort order. */
  ghost function Before(c: Ctx): seq<Addr> {
    match c
    case Top => []
    case Frame(OnLeft, _, _, _, up) => Before(up)
    case Frame(OnRight, n, _, s, up) => Before(up) + Inorder(s) + [n]
  }

  /** Nodes that come after the hole in sort order. */
  ghost function After(c: Ctx): seq<Addr> {
    match c
    case Top => []
    case Frame(OnLeft, n, _, s, up) => [n] + Inorder(s) + After(up)
    case Frame(OnRight, _, _, _, up) => After(up)
  }

  ghost function Order(c: Ctx, t: Tree): seq<Addr> {
    Before(c) + Inorder(t) + After(c)
  }

  lemma AscendOrder(c: Ctx, t: Tree)
    requires c.Frame?
    ensures Order(c.up, Fill(c, t)) == Order(c, t)
  {
  }

  lemma {:induction false} InorderNodes(t: Tree)
    ensures forall n :: n in Inorder(t) <==> n in Nodes(t)
  {
    match t
    case Leaf =>
    case Branch(l, _, _, r) =>
      InorderNodes(l);
      InorderNodes(r);
  }

  lemma {:induction false} OrderNodes(c: Ctx, t: Tree)
    ensures forall n :: n in Order(c, t) <==> n in CtxNodes(c) || n in Nodes(t)
    decreases c
  {
    match c
    case Top => InorderNodes(t);
    case Frame(_, _, _, _, up) =>
      AscendOrder(c, t);
      OrderNodes(up, Fill(c, t));
  }

  // ---------- red-black conditions ----------

  ghost predicate IsRed(t: Tree) {
    t.Branch? && t.color == Red
  }

  ghost function Weight(c: Color): nat {
    if c == Black then 1 else 0
  }

  ghost function BlackHeight(t: Tree): nat {
    match t
    case Leaf => 0
    case Branch(l, _, c, _) => BlackHeight(l) + Weight(c)
  }

  /** Every path below t has the same number of black nodes. */
  ghost predicate Balanced(t: Tree) {
    match t
    case Leaf => true
    case Branch(l, _, _, r) => BlackHeight(l) == BlackHeight(r) && Balanced(l) && Balanced(r)
  }

  ghost predicate NoRedRed(t: Tree) {
    match t
    case Leaf => true
    case Branch(l, _, c, r) => (c == Red ==> !IsRed(l) && !IsRed(r)) && NoRedRed(l) && NoRedRed(r)
  }

  /** A valid red-black tree. */
  ghost predicate RedBlack(t: Tree) {
    !IsRed(t) && Balanced(t) && NoRedRed(t)
  }

  ghost predicate RedParent(c: Ctx) {
    c.Frame? && c.color == Red
  }

  /** The context is red-black when a tree of black height h is put in the hole. */
  ghost predicate CtxRedBlack(c: Ctx, h: nat) {
    match c
    case Top => true
    case Frame(_, _, k, s, up) =>
      && Balanced(s) && NoRedRed(s) && BlackHeight(s) == h
      && (k == Red ==> !IsRed(s) && up.Frame? && up.color == Black)
      && CtxRedBlack(up, h + Weight(k))
  }

  /** The whole tree, seen from the mark, is red-black. */
  ghost predicate ZipRedBlack(c: Ctx, t: Tree) {
    && Balanced(t) && NoRedRed(t) && CtxRedBlack(c, BlackHeight(t))
    && (IsRed(t) ==> c.Frame? && c.color == Black)
  }

  lemma AscendRedBlack(c: Ctx, t: Tree)
    requires c.Frame?
    ensures ZipRedBlack(c.up, Fill(c, t)) <==> ZipRedBlack(c, t)
  {
  }

  // ---------- size and depth ----------

  ghost function Size(t: Tree): nat {
    match t
    case Leaf => 0
    case Branch(l, _, _, r) => Size(l) + 1 + Size(r)
  }

  ghost function Height(t: Tree): nat {
    match t
    case Leaf => 0
    case Branch(l, _, _, r) => 1 + if Height(l) < Height(r) then Height(r) else Height(l)
  }

  /** A red-black tree holds at least 2^bh - 1 nodes and is at most twice its black height deep. */
  lemma {:induction false} HeightBound(t: Tree)
    requires Balanced(t) && NoRedRed(t)
    ensures Height(t) <= 2 * BlackHeight(t) + (if IsRed(t) then 1 else 0)
    ensures Size(t) + 1 >= Pow2(BlackHeight(t))
  {
    match t
    case Leaf =>
    case Branch(l, _, _, r) =>
      HeightBound(l);
      HeightBound(r);
  }
}
