/**
 Taking one node out of a represented tree: splicing out a node with at most one
 child, and letting the successor take the place of a node with two.
 */
module RbUnlink {
  import opened RbZipper
  import opened RbMemory
  import opened RbSteps

  /** The links written when child ch takes the place of a node with no other child. */
  ghost predicate Spliced(m: Mem, m': Mem, root: Addr, root': Addr, c: Ctx, ch: Tree) {
    && ChangedOnly(m, m', Hook(c) + Self(ch))
    && (ch.Branch? ==> ch.node in m && m'[ch.node] == m[ch.node].(parent := Parent(c)))
    && (c.Frame? ==> c.node in m && m'[c.node] == FrameRec(c, Ref(ch)))
    && root' == if c.Top? then Ref(ch) else root
  }

  lemma SpliceRep(m: Mem, m': Mem, root: Addr, root': Addr, c: Ctx, t: Tree, ch: Tree)
    requires t.Branch? && Rep(m, root, c, t) && Spliced(m, m', root, root', c, ch)
    requires (t.left.Leaf? && ch == t.right) || (t.right.Leaf? && ch == t.left)
    ensures Rep(m', root', c, ch)
  {
    var s := Hook(c) + Self(ch);
    if ch.Branch? {
      ShapeRootChange(m, m', s, ch, t.node, ch.color, Parent(c));
    }
    if c.Frame? {
      CtxRelink(m, m', s, c, t.node, Ref(ch));
    }
  }

  /** The links written when node n, not in the tree, takes the place of the focus. */
  ghost predicate Replaced(m: Mem, m': Mem, root: Addr, root': Addr, c: Ctx, t: Tree, n: Addr)
    requires t.Branch?
  {
    && ChangedOnly(m, m', {n, t.node} + Hook(c) + Self(t.left) + Self(t.right))
    && n in m && t.node in m && m'[n] == m[t.node]
    && (t.left.Branch? ==> t.left.node in m && m'[t.left.node] == m[t.left.node].(parent := n))
    && (t.right.Branch? ==> t.right.node in m && m'[t.right.node] == m[t.right.node].(parent := n))
    && (c.Frame? ==> c.node in m && m'[c.node] == FrameRec(c, n))
    && root' == if c.Top? then n else root
  }

  lemma ReplaceRep(m: Mem, m': Mem, root: Addr, root': Addr, c: Ctx, t: Tree, n: Addr)
    requires t.Branch? && Rep(m, root, c, t) && Replaced(m, m', root, root', c, t, n)
    requires n != NULL && n !in Nodes(t) && n !in CtxNodes(c)
    ensures Rep(m', root', c, t.(node := n))
  {
    var s := {n, t.node} + Hook(c) + Self(t.left) + Self(t.right);
    if t.left.Branch? {
      ShapeRootChange(m, m', s, t.left, t.node, t.left.color, n);
    }
    if t.right.Branch? {
      ShapeRootChange(m, m', s, t.right, t.node, t.right.color, n);
    }
    if c.Frame? {
      CtxRelink(m, m', s, c, t.node, n);
    }
  }

  // ---------- the path to the successor ----------

  /** Context c goes down from base by left links only. */
  ghost predicate Spine(c: Ctx, base: Ctx)
    decreases c
  {
    c == base || (c.Frame? && c.side == OnLeft && Spine(c.up, base))
  }

  /** The tree in the hole of base when t is in the hole of c. */
  ghost function SpineTree(c: Ctx, base: Ctx, t: Tree): Tree
    requires Spine(c, base)
    decreases c
  {
    if c == base then t else SpineTree(c.up, base, Fill(c, t))
  }

  /** Context c with node n in the place of the innermost node of base. */
  ghost function Swap(c: Ctx, base: Ctx, n: Addr): Ctx
    requires base.Frame? && Spine(c, base)
    decreases c
  {
    if c == base then base.(node := n) else c.(up := Swap(c.up, base, n))
  }

  lemma {:induction false} SpineRep(m: Mem, root: Addr, c: Ctx, base: Ctx, t: Tree)
    requires Spine(c, base)
    ensures Rep(m, root, c, t) <==> Rep(m, root, base, SpineTree(c, base, t))
    decreases c
  {
    hide Rep;
    if c != base {
      AscendRep(m, root, c, t);
      SpineRep(m, root, c.up, base, Fill(c, t));
    }
  }

  lemma {:induction false} SwapTree(c: Ctx, base: Ctx, n: Addr, t: Tree)
    requires base.Frame? && Spine(c, base)
    requires n !in CtxNodes(c)
    ensures Spine(Swap(c, base, n), base.(node := n))
    ensures SpineTree(Swap(c, base, n), base.(node := n), t) == SpineTree(c, base, t)
    decreases c
  {
    if c != base {
      SwapTree(c.up, base, n, Fill(c, t));
      SpineNodes(c, base);
    }
  }

  lemma {:induction false} SwapRedBlack(c: Ctx, base: Ctx, n: Addr, h: nat)
    requires base.Frame? && Spine(c, base)
    ensures CtxRedBlack(Swap(c, base, n), h) <==> CtxRedBlack(c, h)
    ensures RedParent(Swap(c, base, n)) <==> RedParent(c)
    decreases c
  {
    if c != base {
      SwapRedBlack(c.up, base, n, h + Weight(c.color));
    }
  }

  lemma {:induction false} SwapOrder(c: Ctx, base: Ctx, n: Addr)
    requires base.Frame? && base.side == OnRight && Spine(c, base)
    ensures Before(c) == Before(base) && Before(Swap(c, base, n)) == Before(base.(node := n))
    ensures After(Swap(c, base, n)) == After(c)
    decreases c
  {
    if c != base {
      SwapOrder(c.up, base, n);
    }
  }

  lemma {:induction false} SpineNodes(c: Ctx, base: Ctx)
    requires Spine(c, base)
    ensures CtxNodes(base) <= CtxNodes(c)
    ensures c != base ==> c.Frame? && c.node in CtxNodes(c)
    ensures c != base && CtxSeparate(c) ==> c.node !in CtxNodes(base)
    decreases c
  {
    if c != base {
      SpineNodes(c.up, base);
    }
  }

  /** Below base the topmost node on the path does not depend on what hangs in the hole. */
  lemma {:induction false} SpineTop(c: Ctx, base: Ctx, t: Tree, t': Tree)
    requires Spine(c, base) && c != base
    ensures Ref(SpineTree(c, base, t)) == Ref(SpineTree(c, base, t'))
    ensures SpineTree(c, base, t).Branch? && SpineTree(c, base, t').Branch?
    ensures Ref(SpineTree(c, base, t)) in CtxNodes(c)
    ensures CtxSeparate(c) ==> Ref(SpineTree(c, base, t)) !in CtxNodes(base)
    decreases c
  {
    SpineNodes(c, base);
    if c.up != base {
      SpineTop(c.up, base, Fill(c, t), Fill(c, t'));
    }
  }

  /** The mark (c1, t1) is at the successor of the focus of (c, t). */
  ghost predicate AtSuccessor(c: Ctx, t: Tree, c1: Ctx, t1: Tree) {
    && t.Branch? && t.left.Branch? && t.right.Branch?
    && Spine(c1, Below(c, t)) && SpineTree(c1, Below(c, t), t1) == t.right
    && t1.Branch? && t1.left.Leaf?
  }

  ghost function Below(c: Ctx, t: Tree): Ctx
    requires t.Branch?
  {
    Frame(OnRight, t.node, t.color, t.left, c)
  }

  /** The records that change when the successor moves up are distinct and linked as the tree says. */
  ghost predicate SwapNear(m: Mem, c: Ctx, t: Tree, c1: Ctx, t1: Tree)
    requires AtSuccessor(c, t, c1, t1)
  {
    var z, n, l, r, ch := t.node, t1.node, t.left.node, t.right.node, t1.right;
    && z in m && m[z] == NodeRec(t.color, Parent(c), r, l)
    && n in m && n != NULL && n != z && n != l && m[n] == NodeRec(t1.color, Parent(c1), Ref(ch), NULL)
    && l in m && l != NULL && l != z && r in m && r != NULL && r != z && r != l
    && (ch.Branch? ==>
        ch.node in m && ch.node != NULL && ch.node != z && ch.node != n && ch.node != l && ch.node != r &&
        m[ch.node].parent == n)
    && (c.Frame? ==>
        c.node in m && c.node != NULL && c.node != z && c.node != n && c.node != l && c.node != r &&
        c.node != Ref(ch) && m[c.node] == FrameRec(c, z) && Ref(c.sibling) != z)
    && (c1 == Below(c, t) ==> r == n)
    && (c1 != Below(c, t) ==>
      && c1.Frame? && c1.side == OnLeft && r != n
      && c1.node in m && c1.node != NULL && c1.node != z && c1.node != n && c1.node != l && c1.node != Ref(ch) &&
         m[c1.node] == FrameRec(c1, n)
      && (c.Frame? ==> c1.node != c.node))
  }

  lemma SwapNearRep(m: Mem, root: Addr, c: Ctx, t: Tree, c1: Ctx, t1: Tree)
    requires Rep(m, root, c, t) && AtSuccessor(c, t, c1, t1)
    ensures Rep(m, root, c1, t1) && SwapNear(m, c, t, c1, t1)
  {
    var base := Below(c, t);
    DescendRight(m, root, c, t);
    SpineRep(m, root, c1, base, t1);
    SpineNodes(c1, base);
    SelfNear(m, t1, Parent(c1), t1.right);
    assert Shape(m, t1.right, t1.node);
    SelfNear(m, t, Parent(c), t.left);
    SelfNear(m, t, Parent(c), t.right);
    assert t.left.node in Nodes(t.left);
    assert c.Frame? && c.sibling.Branch? ==> c.sibling.node in Nodes(c.sibling);
    if c1 != base {
      SpineTop(c1, base, t1, t1);
    }
  }

  /** The links written when the successor moves into the place of the focus. */
  ghost predicate Succeeded(m: Mem, m': Mem, root: Addr, root': Addr, c: Ctx, t: Tree, c1: Ctx, t1: Tree)
    requires AtSuccessor(c, t, c1, t1) && SwapNear(m, c, t, c1, t1)
  {
    var n, l, r, ch := t1.node, t.left.node, t.right.node, t1.right;
    var base := Below(c, t);
    && ChangedOnly(m, m', {n, l, r} + Hook(c) + Self(ch) + (if c1 == base then {} else {c1.node}))
    && m'[n] == NodeRec(t.color, Parent(c), if c1 == base then Ref(ch) else r, l)
    && m'[l] == m[l].(parent := n)
    && (c1 != base && c1.node != r ==> m'[r] == m[r].(parent := n) && m'[c1.node] == m[c1.node].(left := Ref(ch)))
    && (c1 != base && c1.node == r ==> m'[r] == m[r].(parent := n, left := Ref(ch)))
    && (ch.Branch? ==> m'[ch.node] == m[ch.node].(parent := if c1 == base then n else c1.node))
    && (c.Frame? ==> m'[c.node] == FrameRec(c, n))
    && root' == if c.Top? then n else root
  }

  /** The links written when the successor is lifted out from below its parent and gets the right child of z. */
  ghost predicate Lifted(m: Mem, m': Mem, n: Addr, ch: Tree, p: Addr, r: Addr) {
    && n in m && p in m && r in m
    && ChangedOnly(m, m', {n, p, r} + Self(ch))
    && m'[n] == m[n].(right := r)
    && (p != r ==> m'[r] == m[r].(parent := n) && m'[p] == m[p].(left := Ref(ch)))
    && (p == r ==> m'[r] == m[r].(parent := n, left := Ref(ch)))
    && (ch.Branch? ==> ch.node in m && m'[ch.node] == m[ch.node].(parent := p))
  }

  /** Redirecting the link to the focus, lifting the successor if it is deeper, then taking over the focus's fields. */
  lemma SucceededSteps(m: Mem, m1: Mem, m2: Mem, root: Addr, root': Addr, c: Ctx, t: Tree, c1: Ctx, t1: Tree)
    requires AtSuccessor(c, t, c1, t1) && SwapNear(m, c, t, c1, t1)
    requires m1 == if c.Top? then m else m[c.node := FrameRec(c, t1.node)]
    requires if c1 == Below(c, t) then m2 == m1 else Lifted(m1, m2, t1.node, t1.right, c1.node, t.right.node)
    requires root' == if c.Top? then t1.node else root
    ensures t1.node in m2 && t.left.node in m2
    ensures var m3 := m2[t1.node := m2[t1.node].(color := t.color, parent := Parent(c), left := t.left.node)];
      Succeeded(m, m3[t.left.node := m3[t.left.node].(parent := t1.node)], root, root', c, t, c1, t1)
  {
    hide Spine, SpineTree;
    if c1 == Below(c, t) {
    } else {
      assert m2[t.left.node] == m[t.left.node];
    }
  }

  /** The memory after the successor alone is spliced out of its place. */
  ghost function WithoutSuccessor(m: Mem, c1: Ctx, t1: Tree): Mem
    requires c1.Frame? && t1.Branch?
  {
    var m1 := m[c1.node := FrameRec(c1, Ref(t1.right))];
    if t1.right.Branch? && t1.right.node in m
    then m1[t1.right.node := m1[t1.right.node].(parent := c1.node)] else m1
  }

  lemma SplicedFirst(m: Mem, root: Addr, c: Ctx, t: Tree, c1: Ctx, t1: Tree)
    requires AtSuccessor(c, t, c1, t1) && SwapNear(m, c, t, c1, t1)
    ensures c1.Frame? && Spliced(m, WithoutSuccessor(m, c1, t1), root, root, c1, t1.right)
  {
    assert c1 == Below(c, t) ==> c1.node == t.node;
  }

  lemma ReplacedThen(m: Mem, m': Mem, root: Addr, root': Addr, c: Ctx, t: Tree, c1: Ctx, t1: Tree, r': Tree)
    requires AtSuccessor(c, t, c1, t1) && SwapNear(m, c, t, c1, t1)
    requires Succeeded(m, m', root, root', c, t, c1, t1)
    requires if c1 == Below(c, t) then r' == t1.right else r'.Branch? && r'.node == t.right.node
    ensures c1.Frame? && Replaced(WithoutSuccessor(m, c1, t1), m', root, root', c, t.(right := r'), t1.node)
  {
    hide Spine, SpineTree;
    assert c1 == Below(c, t) ==> c1.node == t.node;
  }

  /** The successor's child is spliced in first; then the successor replaces the focus. */
  lemma SucceedRep(m: Mem, m': Mem, root: Addr, root': Addr, c: Ctx, t: Tree, c1: Ctx, t1: Tree)
    requires Rep(m, root, c, t) && AtSuccessor(c, t, c1, t1) && SwapNear(m, c, t, c1, t1)
    requires Succeeded(m, m', root, root', c, t, c1, t1)
    ensures Rep(m', root', Swap(c1, Below(c, t), t1.node), t1.right)
  {
    var base, ch, n := Below(c, t), t1.right, t1.node;
    SwapNearRep(m, root, c, t, c1, t1);
    hide Rep, SwapNear, Succeeded, Spliced, Replaced, WithoutSuccessor;
    SplicedFirst(m, root, c, t, c1, t1);
    var m1 := WithoutSuccessor(m, c1, t1);
    SpliceRep(m, m1, root, root, c1, t1, ch);
    var r' := SpineTree(c1, base, ch);
    SpineRep(m1, root, c1, base, ch);
    AscendRep(m1, root, base, r');
    if c1 != base {
      SpineTop(c1, base, t1, ch);
    }
    SuccessorOut(m, root, c1, t1);
    OutOfTree(c1, base, ch, n);
    ReplacedThen(m, m', root, root', c, t, c1, t1, r');
    assert t.(right := r') == Fill(base, r');
    ReplaceRep(m1, m', root, root', c, t.(right := r'), n);
    AscendRep(m', root', base.(node := n), r');
    SwapTree(c1, base, n, ch);
    SpineRep(m', root', Swap(c1, base, n), base.(node := n), ch);
  }

  lemma SuccessorOut(m: Mem, root: Addr, c: Ctx, t: Tree)
    requires Rep(m, root, c, t) && t.Branch?
    ensures t.node !in CtxNodes(c) && t.node !in Nodes(t.right) && t.node != NULL
  {
  }

  lemma {:induction false} OutOfTree(c: Ctx, base: Ctx, t: Tree, n: Addr)
    requires Spine(c, base) && n !in CtxNodes(c) && n !in Nodes(t)
    ensures n !in CtxNodes(base) && n !in Nodes(SpineTree(c, base, t))
    decreases c
  {
    if c != base {
      OutOfTree(c.up, base, Fill(c, t), n);
    }
  }
}
