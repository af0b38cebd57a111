/**
 * The colour rules of `remove`'s fix-up, stated on tree values.
 *
 * A black leaf is about to be cut off. Before cutting it, the fix-up walks
 * up from it and repairs the tree as if it were already gone: the subtree at
 * the current node (with the leaf cut off) is one black short of what the
 * path above it expects (`Short`). Each of the six cases of the fix-up either
 * keeps that invariant (cases 2, 3 and 5) or ends in a red-black tree
 * (cases 1, 4 and 6). The new paths the rotations and repaintings produce
 * are spelled out as functions on the path, so that the tree the arena
 * holds afterwards is `Plug(new path, subtree)`.
 */
module RbDeleteRules {
  import opened RbShape

  /** The other child of the hole's parent. */
  function Sibling<V>(c: Ctx<V>): Tree<V>
    requires !c.Top?
  {
    if c.InLeft? then c.right else c.left
  }

  /** The sibling's child nearer to the hole. */
  function Closer<V>(c: Ctx<V>): Tree<V>
    requires !c.Top? && Sibling(c).Branch?
  {
    if c.InLeft? then c.right.left else c.left.right
  }

  /** The sibling's child further from the hole. */
  function Outer<V>(c: Ctx<V>): Tree<V>
    requires !c.Top? && Sibling(c).Branch?
  {
    if c.InLeft? then c.right.right else c.left.left
  }

  /** The path to the sibling, with `s` in the hole's place. */
  function SiblingCtx<V>(c: Ctx<V>, s: Tree<V>): (r: Ctx<V>)
    requires !c.Top?
    ensures Plug(r, Sibling(c)) == Plug(c, s)
  {
    match c
    case InLeft(up, p, k, it, col, _) => InRight(s, p, k, it, col, up)
    case InRight(_, p, k, it, col, up) => InLeft(up, p, k, it, col, s)
  }

  /** The innermost frame of the path on its own. */
  function Frame<V>(c: Ctx<V>): (r: Ctx<V>)
    requires !c.Top?
    ensures !r.Top? && r.up.Top? && CtxIds(r) + CtxIds(c.up) == CtxIds(c)
  {
    match c
    case InLeft(_, p, k, it, col, r) => InLeft(Top, p, k, it, col, r)
    case InRight(l, p, k, it, col, _) => InRight(l, p, k, it, col, Top)
  }

  /** Plugging into the innermost frame alone builds the frame's subtree. */
  lemma FramePlug<V>(c: Ctx<V>, s: Tree<V>)
    requires !c.Top?
    ensures Plug(Frame(c), s) == Fill(c, s)
  {
  }

  /** Two paths over the same nodes give trees over the same nodes. */
  lemma SameIds<V>(c: Ctx<V>, c2: Ctx<V>, s: Tree<V>)
    requires CtxIds(c2) == CtxIds(c)
    ensures Ids(Plug(c2, s)) == Ids(Plug(c, s))
  {
    PlugIds(c, s);
    PlugIds(c2, s);
  }

  /** The number of nodes outside the hole. */
  function CtxSize<V>(c: Ctx<V>): nat {
    match c
    case Top => 0
    case InLeft(up, _, _, _, _, r) => CtxSize(up) + 1 + Size(r)
    case InRight(l, _, _, _, _, up) => CtxSize(up) + 1 + Size(l)
  }

  /**
   * The fix-up invariant: the subtree `s` at the hole has no red-red edge,
   * equal black heights and a black root, but one black fewer than the path
   * expects; the path itself has no red-red edge and the whole tree a black
   * root.
   */
  ghost predicate Short<V>(c: Ctx<V>, s: Tree<V>) {
    RedOk(s) && Balanced(s) && !IsRed(s) &&
    CtxBalanced(c, BH(s) + 1) && CtxRedOk(c, false) && !IsRed(Plug(c, s))
  }

  /** A black node has black height at least one, so a short hole always has a sibling. */
  lemma ShortSibling<V>(c: Ctx<V>, s: Tree<V>)
    requires Short(c, s) && !c.Top?
    ensures Sibling(c).Branch? && Balanced(Sibling(c)) && RedOk(Sibling(c))
    ensures IsRed(Sibling(c)) ==>
      c.color == Black && Sibling(c).left.Branch? && Sibling(c).right.Branch? &&
      !IsRed(Sibling(c).left) && !IsRed(Sibling(c).right)
  {
  }

  /** A red-black tree is short at a black leaf, for the path above the leaf. */
  lemma ShortAtLeaf<V>(c: Ctx<V>, x: Tree<V>)
    requires RedBlack(Plug(c, x)) && x.Branch? && x.left.Leaf? && x.right.Leaf? && x.color == Black && !c.Top?
    ensures Short(c, Leaf)
  {
    PlugBalanced(c, x);
    PlugRedOk(c, x);
    PlugRoot(c, x, Leaf);
  }

  /** A path whose hole may hold a red node also takes a black one. */
  lemma CtxRedOkBlackHole<V>(c: Ctx<V>, holeRed: bool)
    requires CtxRedOk(c, holeRed)
    ensures CtxRedOk(c, false)
  {
  }

  /* ---------------- case 2: red sibling ---------------- */

  /**
   * Case 2: a rotation at the parent raises the red sibling, which turns
   * black; the parent turns red and the near child of the old sibling
   * becomes the new sibling.
   */
  function Case2Ctx<V>(c: Ctx<V>): Ctx<V>
    requires !c.Top? && Sibling(c).Branch?
  {
    match c
    case InLeft(up, p, k, it, _, sib) =>
      InLeft(InLeft(up, sib.id, sib.key, sib.item, Black, sib.right), p, k, it, Red, sib.left)
    case InRight(sib, p, k, it, _, up) =>
      InRight(sib.right, p, k, it, Red, InRight(sib.left, sib.id, sib.key, sib.item, Black, up))
  }

  lemma Case2<V>(c: Ctx<V>, s: Tree<V>)
    requires Short(c, s) && !c.Top? && IsRed(Sibling(c))
    ensures Short(Case2Ctx(c), s)
    ensures !IsRed(Sibling(Case2Ctx(c)))
    ensures CtxSize(Case2Ctx(c)) == CtxSize(c)
    ensures CtxIds(Case2Ctx(c)) == CtxIds(c)
  {
    ShortSibling(c, s);
    var c2 := Case2Ctx(c);
    assert Plug(c2, s) == Plug(c.up, Fill(c2.up, Fill(c2, s)));
    assert Plug(c, s) == Plug(c.up, Fill(c, s));
    if !c.up.Top? {
      PlugRoot(c.up, Fill(c2.up, Fill(c2, s)), Fill(c, s));
    }
  }

  /* ---------------- case 3: black parent, sibling and nephews ---------------- */

  /** Case 3: the sibling turns red, and the parent becomes the short node. */
  function Case3Ctx<V>(c: Ctx<V>): Ctx<V>
    requires !c.Top?
  {
    match c
    case InLeft(up, p, k, it, col, sib) => InLeft(up, p, k, it, col, Paint(sib, Red))
    case InRight(sib, p, k, it, col, up) => InRight(Paint(sib, Red), p, k, it, col, up)
  }

  lemma Case3<V>(c: Ctx<V>, s: Tree<V>)
    requires Short(c, s) && !c.Top? && c.color == Black
    requires Sibling(c).Branch? && Sibling(c).color == Black
    requires !IsRed(Sibling(c).left) && !IsRed(Sibling(c).right)
    ensures Short(c.up, Fill(Case3Ctx(c), s))
    ensures CtxSize(c.up) < CtxSize(c)
    ensures CtxIds(Case3Ctx(c)) == CtxIds(c)
  {
    if !c.up.Top? {
      PlugRoot(c.up, Fill(Case3Ctx(c), s), Fill(c, s));
    }
  }

  /**
   * After case 3 the parent is the short node: the path below it grows by
   * the parent's frame, both for the real subtree `Plug(cx, x)` and for the
   * one with the leaf cut off.
   */
  lemma Case3Step<V>(cy: Ctx<V>, cx: Ctx<V>, x: Tree<V>)
    requires !cy.Top?
    ensures Plug(cy.up, Fill(Case3Ctx(cy), Plug(cx, x))) == Plug(Case3Ctx(cy), Plug(cx, x))
    ensures Plug(Compose(cx, Frame(Case3Ctx(cy))), x) == Fill(Case3Ctx(cy), Plug(cx, x))
    ensures Plug(Compose(cx, Frame(Case3Ctx(cy))), Leaf) == Fill(Case3Ctx(cy), Plug(cx, Leaf))
    ensures !Compose(cx, Frame(Case3Ctx(cy))).Top?
    ensures Fill(Case3Ctx(cy), Plug(cx, x)).id == cy.id
  {
    var c3 := Case3Ctx(cy);
    assert c3.up == cy.up;
    PlugFill(c3, Plug(cx, x));
    FramePlug(c3, Plug(cx, x));
    FramePlug(c3, Plug(cx, Leaf));
    PlugCompose(cx, Frame(c3), x);
    PlugCompose(cx, Frame(c3), Leaf);
  }

  /* ---------------- case 4: red parent, black sibling and nephews ---------------- */

  /** Case 4: the parent and the sibling swap colours. */
  function Case4Ctx<V>(c: Ctx<V>): Ctx<V>
    requires !c.Top?
  {
    match c
    case InLeft(up, p, k, it, _, sib) => InLeft(up, p, k, it, Black, Paint(sib, Red))
    case InRight(sib, p, k, it, _, up) => InRight(Paint(sib, Red), p, k, it, Black, up)
  }

  lemma Case4<V>(c: Ctx<V>, s: Tree<V>)
    requires Short(c, s) && !c.Top? && c.color == Red
    requires Sibling(c).Branch? && Sibling(c).color == Black
    requires !IsRed(Sibling(c).left) && !IsRed(Sibling(c).right)
    ensures RedBlack(Plug(Case4Ctx(c), s))
    ensures CtxIds(Case4Ctx(c)) == CtxIds(c)
  {
    var f := Fill(Case4Ctx(c), s);
    CtxRedOkBlackHole(c.up, true);
    PlugBalanced(c.up, f);
    PlugRedOk(c.up, f);
    if !c.up.Top? {
      PlugRoot(c.up, f, Fill(c, s));
    }
  }

  /* ---------------- case 5: red near nephew, non-red far nephew ---------------- */

  /** The sibling after case 5: its near child rises and turns black, the old sibling turns red. */
  function Case5Sibling<V>(sib: Tree<V>, holeLeft: bool): Tree<V>
    requires sib.Branch?
    requires holeLeft ==> sib.left.Branch?
    requires !holeLeft ==> sib.right.Branch?
  {
    if holeLeft then
      var n := sib.left;
      Branch(n.left, n.id, n.key, n.item, Black, Branch(n.right, sib.id, sib.key, sib.item, Red, sib.right))
    else
      var n := sib.right;
      Branch(Branch(sib.left, sib.id, sib.key, sib.item, Red, n.left), n.id, n.key, n.item, Black, n.right)
  }

  function Case5Ctx<V>(c: Ctx<V>): Ctx<V>
    requires !c.Top? && Sibling(c).Branch? && Closer(c).Branch?
  {
    match c
    case InLeft(up, p, k, it, col, sib) => InLeft(up, p, k, it, col, Case5Sibling(sib, true))
    case InRight(sib, p, k, it, col, up) => InRight(Case5Sibling(sib, false), p, k, it, col, up)
  }

  lemma Case5<V>(c: Ctx<V>, s: Tree<V>)
    requires Short(c, s) && !c.Top?
    requires Sibling(c).Branch? && Sibling(c).color == Black && IsRed(Closer(c)) && !IsRed(Outer(c))
    ensures Short(Case5Ctx(c), s)
    ensures Sibling(Case5Ctx(c)).Branch? && Sibling(Case5Ctx(c)).color == Black
    ensures IsRed(Outer(Case5Ctx(c)))
    ensures CtxIds(Case5Ctx(c)) == CtxIds(c)
  {
    var sib, n := Sibling(c), Closer(c);
    var ns := Case5Sibling(sib, c.InLeft?);
    var inner := if c.InLeft? then ns.right else ns.left;
    assert RedOk(sib) && RedOk(n) && RedOk(Outer(c));
    assert Balanced(sib) && BH(sib) == BH(s) + 1 && Balanced(n) && Balanced(Outer(c));
    assert BH(n) == BH(s) && BH(Outer(c)) == BH(s);
    assert Balanced(inner) && BH(inner) == BH(s) && RedOk(inner);
    assert Balanced(ns) && BH(ns) == BH(s) + 1 && RedOk(ns);
    assert Ids(ns) == Ids(sib);
    assert Plug(Case5Ctx(c), s) == Plug(c.up, Fill(Case5Ctx(c), s));
    assert Plug(c, s) == Plug(c.up, Fill(c, s));
    if !c.up.Top? {
      PlugRoot(c.up, Fill(Case5Ctx(c), s), Fill(c, s));
    }
  }

  /* ---------------- case 6: black sibling, red far nephew ---------------- */

  /**
   * Case 6: a rotation at the parent raises the sibling, which takes the
   * parent's colour; the parent and the far nephew turn black.
   */
  function Case6Ctx<V>(c: Ctx<V>): Ctx<V>
    requires !c.Top? && Sibling(c).Branch?
  {
    match c
    case InLeft(up, p, k, it, col, sib) =>
      InLeft(InLeft(up, sib.id, sib.key, sib.item, col, Paint(sib.right, Black)), p, k, it, Black, sib.left)
    case InRight(sib, p, k, it, col, up) =>
      InRight(sib.right, p, k, it, Black, InRight(Paint(sib.left, Black), sib.id, sib.key, sib.item, col, up))
  }

  lemma Case6<V>(c: Ctx<V>, s: Tree<V>)
    requires Short(c, s) && !c.Top?
    requires Sibling(c).Branch? && Sibling(c).color == Black && IsRed(Outer(c))
    ensures RedBlack(Plug(Case6Ctx(c), s))
    ensures CtxIds(Case6Ctx(c)) == CtxIds(c)
  {
    var c6 := Case6Ctx(c);
    var sib := Sibling(c);
    var f := Fill(c6.up, Fill(c6, s));
    assert Plug(c6, s) == Plug(c.up, f);
    assert RedOk(sib) && RedOk(Outer(c)) && RedOk(Closer(c));
    assert Balanced(sib) && BH(sib) == BH(s) + 1 && Balanced(Outer(c)) && Balanced(Closer(c));
    assert BH(Outer(c)) == BH(s) && BH(Closer(c)) == BH(s);
    assert RedOk(Fill(c6, s)) && RedOk(Paint(Outer(c), Black));
    assert Balanced(Fill(c6, s)) && BH(Fill(c6, s)) == BH(s) + 1;
    assert Balanced(Paint(Outer(c), Black)) && BH(Paint(Outer(c), Black)) == BH(s) + 1;
    assert Balanced(f) && RedOk(f);
    assert Ids(Paint(Outer(c), Black)) == Ids(Outer(c));
    assert Plug(c, s) == Plug(c.up, Fill(c, s));
    PlugBalanced(c.up, f);
    PlugRedOk(c.up, f);
    if !c.up.Top? {
      PlugRoot(c.up, f, Fill(c, s));
    }
  }
}
