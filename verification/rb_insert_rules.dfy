/**
 * The red-black argument behind `add`'s rebalancing, on tree values:
 * rotations keep the in-order entries and the arena indices, and each branch
 * of `_try_rebalance` / `_recolor` either restores every red-black rule or
 * moves the single red-red violation two levels up.
 */
module RbInsertRules {
  import opened ByteKeys
  import opened Assoc
  import opened RbShape

  /**
   * `_right_rotation` at `s` (the grandfather), whose left child rises. With
   * `recolor`, the risen node turns black, the lowered one red, and the
   * risen node's left child (the rotation's `node`) red.
   */
  function RotR<V>(s: Tree<V>, recolor: bool): (r: Tree<V>)
    requires s.Branch? && s.left.Branch?
    ensures r.Branch? && r.right.Branch? && r.id == s.left.id && r.right.id == s.id
  {
    var p := s.left;
    Branch(if recolor then Paint(p.left, Red) else p.left, p.id, p.key, p.item,
           if recolor then Black else p.color,
           Branch(p.right, s.id, s.key, s.item, if recolor then Red else s.color, s.right))
  }

  /** `_left_rotation` at `s`, whose right child rises; `recolor` as for `RotR`. */
  function RotL<V>(s: Tree<V>, recolor: bool): (r: Tree<V>)
    requires s.Branch? && s.right.Branch?
    ensures r.Branch? && r.left.Branch? && r.id == s.right.id && r.left.id == s.id
  {
    var p := s.right;
    Branch(Branch(s.left, s.id, s.key, s.item, if recolor then Red else s.color, p.left),
           p.id, p.key, p.item, if recolor then Black else p.color,
           if recolor then Paint(p.right, Red) else p.right)
  }

  /** Painting the root changes neither the entries nor the indices. */
  lemma PaintKeeps<V>(t: Tree<V>, col: Color)
    ensures Entries(Paint(t, col)) == Entries(t)
    ensures Ids(Paint(t, col)) == Ids(t)
    ensures Unique(Paint(t, col)) == Unique(t)
    ensures RedOk(t) && !IsRed(t) ==> RedOk(Paint(t, col)) || col == Red
    ensures Balanced(Paint(t, col)) == Balanced(t)
  {
  }

  /** The shape `Branch(Branch(a, x, b), y, cc)` with given indices: indices unique and disjoint. */
  predicate UniqueThree(a: set<nat>, x: nat, b: set<nat>, y: nat, cc: set<nat>) {
    x != y && x !in a && x !in b && x !in cc && y !in a && y !in b && y !in cc &&
    a !! b && a !! cc && b !! cc
  }

  lemma UniqueLeftHeavy<V>(a: Tree<V>, x: nat, kx: Key, ix: Item<V>, cx: Color, b: Tree<V>,
                           y: nat, ky: Key, iy: Item<V>, cy: Color, cc: Tree<V>)
    ensures Unique(Branch(Branch(a, x, kx, ix, cx, b), y, ky, iy, cy, cc)) <==>
      Unique(a) && Unique(b) && Unique(cc) && UniqueThree(Ids(a), x, Ids(b), y, Ids(cc))
  {
  }

  lemma UniqueRightHeavy<V>(a: Tree<V>, x: nat, kx: Key, ix: Item<V>, cx: Color, b: Tree<V>,
                            y: nat, ky: Key, iy: Item<V>, cy: Color, cc: Tree<V>)
    ensures Unique(Branch(a, x, kx, ix, cx, Branch(b, y, ky, iy, cy, cc))) <==>
      Unique(a) && Unique(b) && Unique(cc) && UniqueThree(Ids(a), x, Ids(b), y, Ids(cc))
  {
  }

  /** A rotation keeps the in-order entries, the set of arena indices and their uniqueness. */
  lemma RotRKeeps<V>(s: Tree<V>, recolor: bool)
    requires s.Branch? && s.left.Branch?
    ensures Entries(RotR(s, recolor)) == Entries(s)
    ensures Ids(RotR(s, recolor)) == Ids(s)
    ensures Unique(RotR(s, recolor)) == Unique(s)
  {
    var p := s.left;
    var a, b, cc := p.left, p.right, s.right;
    var a2 := if recolor then Paint(a, Red) else a;
    PaintKeeps(a, Red);
    var r := RotR(s, recolor);
    var hi := Branch(b, s.id, s.key, s.item, if recolor then Red else s.color, cc);
    assert r == Branch(a2, p.id, p.key, p.item, if recolor then Black else p.color, hi);
    RotationEntries(a2, p.id, p.key, p.item, b, s.id, s.key, s.item, cc, p.color, s.color, r.color, hi.color);
    assert Ids(hi) == Ids(b) + {s.id} + Ids(cc);
    assert Ids(p) == Ids(a) + {p.id} + Ids(b);
    IdsRegroup(Ids(a), p.id, Ids(b), s.id, Ids(cc));
    UniqueLeftHeavy(a, p.id, p.key, p.item, p.color, b, s.id, s.key, s.item, s.color, cc);
    UniqueRightHeavy(a2, p.id, p.key, p.item, r.color, b, s.id, s.key, s.item, hi.color, cc);
  }

  lemma RotLKeeps<V>(s: Tree<V>, recolor: bool)
    requires s.Branch? && s.right.Branch?
    ensures Entries(RotL(s, recolor)) == Entries(s)
    ensures Ids(RotL(s, recolor)) == Ids(s)
    ensures Unique(RotL(s, recolor)) == Unique(s)
  {
    var p := s.right;
    var a, b, d := s.left, p.left, p.right;
    var d2 := if recolor then Paint(d, Red) else d;
    PaintKeeps(d, Red);
    var r := RotL(s, recolor);
    var lo := Branch(a, s.id, s.key, s.item, if recolor then Red else s.color, b);
    assert r == Branch(lo, p.id, p.key, p.item, if recolor then Black else p.color, d2);
    RotationEntries(a, s.id, s.key, s.item, b, p.id, p.key, p.item, d2, lo.color, r.color, s.color, p.color);
    assert Ids(lo) == Ids(a) + {s.id} + Ids(b);
    assert Ids(p) == Ids(b) + {p.id} + Ids(d);
    IdsRegroup(Ids(a), s.id, Ids(b), p.id, Ids(d));
    UniqueRightHeavy(a, s.id, s.key, s.item, s.color, b, p.id, p.key, p.item, p.color, d);
    UniqueLeftHeavy(a, s.id, s.key, s.item, lo.color, b, p.id, p.key, p.item, r.color, d2);
  }

  /** Both shapes of a rotation hold the same indices. */
  lemma IdsRegroup(a: set<nat>, x: nat, b: set<nat>, y: nat, cc: set<nat>)
    ensures a + {x} + b + {y} + cc == a + {x} + (b + {y} + cc)
  {
  }

  /** Both shapes of a rotation list the same entries, whatever the colours. */
  lemma RotationEntries<V>(a: Tree<V>, x: nat, kx: Key, ix: Item<V>, b: Tree<V>,
                           y: nat, ky: Key, iy: Item<V>, cc: Tree<V>,
                           c1: Color, c2: Color, c3: Color, c4: Color)
    ensures Entries(Branch(Branch(a, x, kx, ix, c1, b), y, ky, iy, c2, cc)) ==
            Entries(Branch(a, x, kx, ix, c3, Branch(b, y, ky, iy, c4, cc)))
  {
    var ea, eb, ec := Entries(a), Entries(b), Entries(cc);
    assert (ea + [(kx, ix)] + eb) + [(ky, iy)] + ec == ea + [(kx, ix)] + (eb + [(ky, iy)] + ec);
  }

  /**
   * The state `_try_rebalance(x)` is called in: `s` is the subtree rooted at
   * `x`, red unless it is the whole tree; the only red-red edge allowed is
   * the one between `x` and its parent; black heights agree everywhere and
   * the root is black.
   */
  ghost predicate InsInv<V>(c: Ctx<V>, s: Tree<V>) {
    s.Branch? && (c.Top? || s.color == Red) &&
    RedOk(s) && Balanced(s) && CtxBalanced(c, BH(s)) && CtxRedOkAbove(c) &&
    !IsRed(Plug(c, s))
  }

  /** No red parent (or no parent, or a parent that is the root): nothing to repair. */
  lemma InsDone<V>(c: Ctx<V>, s: Tree<V>)
    requires InsInv(c, s)
    requires c.Top? || c.up.Top? || c.color == Black
    ensures RedBlack(Plug(c, s))
  {
    PlugBalanced(c, s);
    PlugRedOk(c, s);
  }

  /** What `_recolor(grandfather)` needs: a black node with two red children and sound surroundings. */
  ghost predicate RecolorPre<V>(cg: Ctx<V>, g: Tree<V>) {
    g.Branch? && g.color == Black && IsRed(g.left) && IsRed(g.right) &&
    RedOk(g.left.left) && RedOk(g.left.right) && RedOk(g.right.left) && RedOk(g.right.right) &&
    Balanced(g) && CtxBalanced(cg, BH(g)) && CtxRedOk(cg, false) && !IsRed(Plug(cg, g))
  }

  /** `_recolor`: both children black, the node itself red unless it is the root. */
  function Recolored<V>(g: Tree<V>, isRoot: bool): Tree<V>
    requires g.Branch?
  {
    Branch(Paint(g.left, Black), g.id, g.key, g.item, if isRoot then Black else Red, Paint(g.right, Black))
  }

  /** Red parent and red uncle: the grandfather is ready for `_recolor`. */
  lemma InsToRecolor<V>(c: Ctx<V>, s: Tree<V>)
    requires InsInv(c, s) && !c.Top? && !c.up.Top?
    requires c.color == Red && s.color == Red
    requires IsRed(if c.up.InLeft? then c.up.right else c.up.left)
    ensures RecolorPre(c.up.up, Fill(c.up, Fill(c, s)))
  {
    var g := Fill(c.up, Fill(c, s));
    PlugFill(c, s);
    PlugFill(c.up, Fill(c, s));
    assert Plug(c, s) == Plug(c.up.up, g);
    var h := BH(s);
    assert CtxBalanced(c, h);
    assert CtxBalanced(c.up, h);
    assert BH(Fill(c, s)) == h && Balanced(Fill(c, s));
    assert CtxBalanced(c.up.up, h + 1);
    assert Balanced(g) && BH(g) == h + 1;
    assert CtxRedOk(c.up, true);
  }

  /** After `_recolor`, the grandfather is the new subtree `_try_rebalance` looks at. */
  lemma RecolorToIns<V>(cg: Ctx<V>, g: Tree<V>)
    requires RecolorPre(cg, g)
    ensures InsInv(cg, Recolored(g, cg.Top?))
    ensures Entries(Recolored(g, cg.Top?)) == Entries(g)
    ensures Ids(Recolored(g, cg.Top?)) == Ids(g)
    ensures Unique(Recolored(g, cg.Top?)) == Unique(g)
  {
    var g2 := Recolored(g, cg.Top?);
    assert Balanced(g.left) && Balanced(g.right);
    assert BH(Paint(g.left, Black)) == BH(g.left) + 1;
    assert BH(Paint(g.right, Black)) == BH(g.right) + 1;
    assert Balanced(Paint(g.left, Black)) && Balanced(Paint(g.right, Black));
    assert Entries(Paint(g.left, Black)) == Entries(g.left);
    assert Entries(Paint(g.right, Black)) == Entries(g.right);
    assert Ids(Paint(g.left, Black)) == Ids(g.left);
    assert Ids(Paint(g.right, Black)) == Ids(g.right);
    if !cg.Top? {
      PlugRoot(cg, g, g2);
    }
  }

  /** A sound subtree with a black (or empty) root and black height `h`. */
  predicate Quiet<V>(t: Tree<V>, h: nat) {
    RedOk(t) && !IsRed(t) && Balanced(t) && BH(t) == h
  }

  /** The balanced shape every rotation case ends in: a black node between two red ones. */
  lemma Settled<V>(a: Tree<V>, b: Tree<V>, cc: Tree<V>, d: Tree<V>, h: nat,
                   x: Tree<V>, y: Tree<V>, z: Tree<V>)
    requires Quiet(a, h) && Quiet(b, h) && Quiet(cc, h) && Quiet(d, h)
    requires x.Branch? && y.Branch? && z.Branch?
    requires y == Branch(Branch(a, x.id, x.key, x.item, Red, b), y.id, y.key, y.item, Black,
                         Branch(cc, z.id, z.key, z.item, Red, d))
    ensures RedOk(y) && Balanced(y) && BH(y) == h + 1 && !IsRed(y)
  {
  }

  /**
   * The grandfather's subtree after the black-uncle repair of `_try_rebalance`:
   * one rotation at the grandfather when node and parent lean the same way
   * (LL, RR), else a rotation at the parent first (LR, RL).
   */
  function Restructured<V>(c: Ctx<V>, s: Tree<V>): (r: Tree<V>)
    requires !c.Top? && !c.up.Top? && s.Branch?
    ensures r.Branch? && r.color == Black
  {
    var g := Fill(c.up, Fill(c, s));
    if c.InLeft? && c.up.InLeft? then RotR(g, true)
    else if c.InRight? && c.up.InRight? then RotL(g, true)
    else if c.InLeft? then RotL(Fill(c.up, RotR(Fill(c, s), false)), true)
    else RotR(Fill(c.up, RotL(Fill(c, s), false)), true)
  }

  /** What the black-uncle repair starts from: four black-rooted sound subtrees of one black height. */
  lemma InsRotateView<V>(c: Ctx<V>, s: Tree<V>)
    requires InsInv(c, s) && !c.Top? && !c.up.Top?
    requires c.color == Red && s.color == Red
    requires !IsRed(if c.up.InLeft? then c.up.right else c.up.left)
    ensures Quiet(s.left, BH(s)) && Quiet(s.right, BH(s))
    ensures Quiet(if c.InLeft? then c.right else c.left, BH(s))
    ensures Quiet(if c.up.InLeft? then c.up.right else c.up.left, BH(s))
    ensures CtxBalanced(c.up.up, BH(s) + 1) && CtxRedOk(c.up.up, false)
  {
    var h := BH(s);
    assert c.up.color == Black;
    assert RedOk(s.left) && RedOk(s.right) && !IsRed(s.left) && !IsRed(s.right);
    assert Balanced(s.left) && Balanced(s.right) && BH(s.left) == h && BH(s.right) == h;
    assert CtxBalanced(c, h) && Blackness(c.color) == 0;
    assert CtxBalanced(c.up, h);
    assert CtxRedOk(c.up, true);
  }

  /** Red parent, black uncle: the rotation cases settle the tree. */
  lemma InsRotate<V>(c: Ctx<V>, s: Tree<V>)
    requires InsInv(c, s) && !c.Top? && !c.up.Top?
    requires c.color == Red && s.color == Red
    requires !IsRed(if c.up.InLeft? then c.up.right else c.up.left)
    ensures RedBlack(Plug(c.up.up, Restructured(c, s)))
  {
    var cg := c.up.up;
    var g := Fill(c.up, Fill(c, s));
    var h := BH(s);
    InsRotateView(c, s);
    PlugFill(c, s);
    PlugFill(c.up, Fill(c, s));
    var r := Restructured(c, s);
    if c.InLeft? && c.up.InLeft? {
      Settled(s.left, s.right, c.right, c.up.right, h, s, r, r.right);
    } else if c.InRight? && c.up.InRight? {
      Settled(c.up.left, c.left, s.left, s.right, h, r.left, r, s);
    } else if c.InLeft? && c.up.InRight? {
      Settled(c.up.left, s.left, s.right, c.right, h, r.left, r, r.right);
    } else {
      Settled(c.left, s.left, s.right, c.up.right, h, r.left, r, r.right);
    }
    PlugBalanced(cg, r);
    PlugRedOk(cg, r);
    if !cg.Top? {
      PlugRoot(cg, g, r);
    }
  }
}
