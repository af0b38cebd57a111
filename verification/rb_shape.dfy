/**
 * The shape of a red-black tree as a value: the ghost picture that the
 * arena-backed tree class is proved against. Every node carries the arena
 * index (`id`) it lives at, its key, its payload and its colour.
 *
 * A `Ctx` is the path from the root down to a hole (a zipper): `Plug(c, s)`
 * puts the subtree `s` back into the hole. Local rotations and recolourings
 * are stated on the subtree at the hole, and the lemmas here say how the
 * invariants of the whole tree split into a part about the path and a part
 * about the subtree.
 */
module RbShape {
  import opened Wrappers
  import opened ByteKeys
  import opened Assoc

  datatype Color = Black | Red

  /** A node's payload: `value`, `offset` and `segment`. */
  datatype Item<V> = Item(value: V, offset: Option<nat>, segment: Option<string>)

  datatype Tree<V> =
    | Leaf
    | Branch(left: Tree<V>, id: nat, key: Key, item: Item<V>, color: Color, right: Tree<V>)

  datatype Ctx<V> =
    | Top
    | InLeft(up: Ctx<V>, id: nat, key: Key, item: Item<V>, color: Color, right: Tree<V>)
    | InRight(left: Tree<V>, id: nat, key: Key, item: Item<V>, color: Color, up: Ctx<V>)

  /** The arena index standing for the shared `NIL_LEAF` sentinel (and for "no parent"). */
  const NIL: int := -1

  function RootId<V>(t: Tree<V>): int {
    if t.Leaf? then NIL else t.id
  }

  /** The node the hole hangs from, NIL at the top. */
  function HoleParent<V>(c: Ctx<V>): int {
    if c.Top? then NIL else c.id
  }

  /** The innermost frame of the path, filled with `s`. */
  function Fill<V>(c: Ctx<V>, s: Tree<V>): Tree<V>
    requires !c.Top?
  {
    match c
    case InLeft(_, id, k, it, col, r) => Branch(s, id, k, it, col, r)
    case InRight(l, id, k, it, col, _) => Branch(l, id, k, it, col, s)
  }

  function Plug<V>(c: Ctx<V>, s: Tree<V>): Tree<V>
    decreases c
  {
    match c
    case Top => s
    case InLeft(up, id, k, it, col, r) => Plug(up, Branch(s, id, k, it, col, r))
    case InRight(l, id, k, it, col, up) => Plug(up, Branch(l, id, k, it, col, s))
  }

  function Depth<V>(c: Ctx<V>): nat {
    match c
    case Top => 0
    case InLeft(up, _, _, _, _, _) => Depth(up) + 1
    case InRight(_, _, _, _, _, up) => Depth(up) + 1
  }

  /** `Plug(c, Plug(d, s)) == Plug(Compose(d, c), s)`: the path `d` continued below `c`. */
  function Compose<V>(d: Ctx<V>, c: Ctx<V>): Ctx<V>
    decreases d
  {
    match d
    case Top => c
    case InLeft(up, id, k, it, col, r) => InLeft(Compose(up, c), id, k, it, col, r)
    case InRight(l, id, k, it, col, up) => InRight(l, id, k, it, col, Compose(up, c))
  }

  lemma {:induction false} PlugCompose<V>(d: Ctx<V>, c: Ctx<V>, s: Tree<V>)
    ensures Plug(Compose(d, c), s) == Plug(c, Plug(d, s))
    decreases d
  {
    match d
    case Top =>
    case InLeft(up, id, k, it, col, r) => PlugCompose(up, c, Branch(s, id, k, it, col, r));
    case InRight(l, id, k, it, col, up) => PlugCompose(up, c, Branch(l, id, k, it, col, s));
  }

  lemma PlugFill<V>(c: Ctx<V>, s: Tree<V>)
    requires !c.Top?
    ensures Plug(c, s) == Plug(c.up, Fill(c, s))
  {
  }

  /** Below the top, the root of the whole tree is one of the path's nodes. */
  lemma {:induction false} PlugRootIn<V>(c: Ctx<V>, s: Tree<V>)
    requires !c.Top?
    ensures RootId(Plug(c, s)) in CtxIds(c)
    decreases c
  {
    match c
    case InLeft(up, id, k, it, col, r) =>
      if !up.Top? {
        PlugRootIn(up, Branch(s, id, k, it, col, r));
      }
    case InRight(l, id, k, it, col, up) =>
      if !up.Top? {
        PlugRootIn(up, Branch(l, id, k, it, col, s));
      }
  }

  /* ---------------- contents in key order ---------------- */

  /** The entries of the tree read in order, as `Node.in_order_traversal` lists them. */
  function Entries<V>(t: Tree<V>): seq<Entry<Item<V>>> {
    match t
    case Leaf => []
    case Branch(l, _, k, it, _, r) => Entries(l) + [(k, it)] + Entries(r)
  }

  /** The entries to the left of the hole. */
  function Before<V>(c: Ctx<V>): seq<Entry<Item<V>>> {
    match c
    case Top => []
    case InLeft(up, _, _, _, _, _) => Before(up)
    case InRight(l, _, k, it, _, up) => Before(up) + Entries(l) + [(k, it)]
  }

  /** The entries to the right of the hole. */
  function After<V>(c: Ctx<V>): seq<Entry<Item<V>>> {
    match c
    case Top => []
    case InLeft(up, _, k, it, _, r) => [(k, it)] + Entries(r) + After(up)
    case InRight(_, _, _, _, _, up) => After(up)
  }

  lemma {:induction false} PlugEntries<V>(c: Ctx<V>, s: Tree<V>)
    ensures Entries(Plug(c, s)) == Before(c) + Entries(s) + After(c)
    decreases c
  {
    match c
    case Top =>
    case InLeft(up, id, k, it, col, r) =>
      PlugEntries(up, Branch(s, id, k, it, col, r));
      RegroupRight(Before(up), Entries(s), [(k, it)], Entries(r), After(up));
    case InRight(l, id, k, it, col, up) =>
      PlugEntries(up, Branch(l, id, k, it, col, s));
      RegroupLeft(Before(up), Entries(l), [(k, it)], Entries(s), After(up));
  }

  /** With the hole empty, the entries are those on either side of it. */
  lemma PlugLeafEntries<V>(c: Ctx<V>)
    ensures Entries(Plug(c, Leaf)) == Before(c) + After(c)
  {
    PlugEntries(c, Leaf);
    assert Entries<V>(Leaf) == [];
    assert Before(c) + [] == Before(c);
  }

  /** With a single node in the hole, its entry sits between those on either side. */
  lemma PlugSingleEntries<V>(c: Ctx<V>, s: Tree<V>)
    requires s.Branch? && s.left.Leaf? && s.right.Leaf?
    ensures Entries(Plug(c, s)) == Before(c) + [(s.key, s.item)] + After(c)
  {
    PlugEntries(c, s);
    assert Entries(s) == [] + [(s.key, s.item)] + [];
    assert [] + [(s.key, s.item)] + [] == [(s.key, s.item)];
  }

  lemma RegroupRight<T>(a: seq<T>, x: seq<T>, y: seq<T>, z: seq<T>, d: seq<T>)
    ensures a + (x + y + z) + d == a + x + (y + z + d)
  {
  }

  lemma RegroupLeft<T>(a: seq<T>, x: seq<T>, y: seq<T>, z: seq<T>, d: seq<T>)
    ensures a + (x + y + z) + d == a + x + y + z + d
  {
  }

  function Size<V>(t: Tree<V>): nat {
    match t
    case Leaf => 0
    case Branch(l, _, _, _, _, r) => Size(l) + 1 + Size(r)
  }

  lemma {:induction false} SizeEntries<V>(t: Tree<V>)
    ensures Size(t) == |Entries(t)|
  {
    match t
    case Leaf =>
    case Branch(l, _, _, _, _, r) =>
      SizeEntries(l);
      SizeEntries(r);
  }

  /* ---------------- arena indices ---------------- */

  function Ids<V>(t: Tree<V>): set<nat> {
    match t
    case Leaf => {}
    case Branch(l, id, _, _, _, r) => Ids(l) + {id} + Ids(r)
  }

  function CtxIds<V>(c: Ctx<V>): set<nat> {
    match c
    case Top => {}
    case InLeft(up, id, _, _, _, r) => CtxIds(up) + {id} + Ids(r)
    case InRight(l, id, _, _, _, up) => CtxIds(up) + {id} + Ids(l)
  }

  /** No arena index occurs twice. */
  predicate Unique<V>(t: Tree<V>) {
    match t
    case Leaf => true
    case Branch(l, id, _, _, _, r) =>
      Unique(l) && Unique(r) && id !in Ids(l) && id !in Ids(r) && Ids(l) !! Ids(r)
  }

  predicate CtxUnique<V>(c: Ctx<V>) {
    match c
    case Top => true
    case InLeft(up, id, _, _, _, r) =>
      CtxUnique(up) && Unique(r) && id !in Ids(r) && id !in CtxIds(up) && Ids(r) !! CtxIds(up)
    case InRight(l, id, _, _, _, up) =>
      CtxUnique(up) && Unique(l) && id !in Ids(l) && id !in CtxIds(up) && Ids(l) !! CtxIds(up)
  }

  lemma {:induction false} PlugIds<V>(c: Ctx<V>, s: Tree<V>)
    ensures Ids(Plug(c, s)) == CtxIds(c) + Ids(s)
    decreases c
  {
    match c
    case Top =>
    case InLeft(up, id, k, it, col, r) => PlugIds(up, Branch(s, id, k, it, col, r));
    case InRight(l, id, k, it, col, up) => PlugIds(up, Branch(l, id, k, it, col, s));
  }

  lemma {:induction false} PlugUnique<V>(c: Ctx<V>, s: Tree<V>)
    ensures Unique(Plug(c, s)) <==> CtxUnique(c) && Unique(s) && CtxIds(c) !! Ids(s)
    decreases c
  {
    match c
    case Top =>
    case InLeft(up, id, k, it, col, r) => PlugUnique(up, Branch(s, id, k, it, col, r));
    case InRight(l, id, k, it, col, up) => PlugUnique(up, Branch(l, id, k, it, col, s));
  }

  /* ---------------- colours ---------------- */

  predicate IsRed<V>(t: Tree<V>) {
    t.Branch? && t.color == Red
  }

  function Blackness(col: Color): nat {
    if col == Black then 1 else 0
  }

  /** Black nodes on the leftmost path (the black height when the tree is balanced). */
  function BH<V>(t: Tree<V>): nat {
    match t
    case Leaf => 0
    case Branch(l, _, _, _, col, _) => BH(l) + Blackness(col)
  }

  /** Every path from a node down to a leaf passes the same number of black nodes. */
  predicate Balanced<V>(t: Tree<V>) {
    match t
    case Leaf => true
    case Branch(l, _, _, _, _, r) => Balanced(l) && Balanced(r) && BH(l) == BH(r)
  }

  /** No red node has a red child. */
  predicate RedOk<V>(t: Tree<V>) {
    match t
    case Leaf => true
    case Branch(l, _, _, _, col, r) =>
      RedOk(l) && RedOk(r) && (col == Red ==> !IsRed(l) && !IsRed(r))
  }

  /** The red-black rules: no red-red edge, equal black heights and a black root. */
  predicate RedBlack<V>(t: Tree<V>) {
    RedOk(t) && Balanced(t) && !IsRed(t)
  }

  /** The path is balanced for a subtree of black height `h` in the hole. */
  predicate CtxBalanced<V>(c: Ctx<V>, h: nat) {
    match c
    case Top => true
    case InLeft(up, _, _, _, col, r) => Balanced(r) && BH(r) == h && CtxBalanced(up, h + Blackness(col))
    case InRight(l, _, _, _, col, up) => Balanced(l) && BH(l) == h && CtxBalanced(up, h + Blackness(col))
  }

  /** The path has no red-red edge, given whether the hole's root is red. */
  predicate CtxRedOk<V>(c: Ctx<V>, holeRed: bool) {
    match c
    case Top => true
    case InLeft(up, _, _, _, col, r) =>
      RedOk(r) && (col == Red ==> !holeRed && !IsRed(r)) && CtxRedOk(up, col == Red)
    case InRight(l, _, _, _, col, up) =>
      RedOk(l) && (col == Red ==> !holeRed && !IsRed(l)) && CtxRedOk(up, col == Red)
  }

  /** As `CtxRedOk`, except that the hole's parent may be red with a red hole. */
  predicate CtxRedOkAbove<V>(c: Ctx<V>) {
    match c
    case Top => true
    case InLeft(up, _, _, _, col, r) => RedOk(r) && (col == Red ==> !IsRed(r)) && CtxRedOk(up, col == Red)
    case InRight(l, _, _, _, col, up) => RedOk(l) && (col == Red ==> !IsRed(l)) && CtxRedOk(up, col == Red)
  }

  lemma {:induction false} PlugBalanced<V>(c: Ctx<V>, s: Tree<V>)
    ensures Balanced(Plug(c, s)) <==> Balanced(s) && CtxBalanced(c, BH(s))
    decreases c
  {
    match c
    case Top =>
    case InLeft(up, id, k, it, col, r) => PlugBalanced(up, Branch(s, id, k, it, col, r));
    case InRight(l, id, k, it, col, up) => PlugBalanced(up, Branch(l, id, k, it, col, s));
  }

  lemma {:induction false} PlugRedOk<V>(c: Ctx<V>, s: Tree<V>)
    ensures RedOk(Plug(c, s)) <==> RedOk(s) && CtxRedOk(c, IsRed(s))
    decreases c
  {
    match c
    case Top =>
    case InLeft(up, id, k, it, col, r) => PlugRedOk(up, Branch(s, id, k, it, col, r));
    case InRight(l, id, k, it, col, up) => PlugRedOk(up, Branch(l, id, k, it, col, s));
  }

  /** Below the top, the root of the whole tree does not depend on what is in the hole. */
  lemma {:induction false} PlugRoot<V>(c: Ctx<V>, s: Tree<V>, s2: Tree<V>)
    requires !c.Top?
    ensures RootId(Plug(c, s)) == RootId(Plug(c, s2))
    ensures IsRed(Plug(c, s)) == IsRed(Plug(c, s2))
    decreases c
  {
    match c
    case InLeft(up, id, k, it, col, r) =>
      if !up.Top? {
        PlugRoot(up, Branch(s, id, k, it, col, r), Branch(s2, id, k, it, col, r));
      }
    case InRight(l, id, k, it, col, up) =>
      if !up.Top? {
        PlugRoot(up, Branch(l, id, k, it, col, s), Branch(l, id, k, it, col, s2));
      }
  }

  /** The same tree with its root painted `col`. */
  function Paint<V>(t: Tree<V>, col: Color): Tree<V> {
    match t
    case Leaf => Leaf
    case Branch(l, id, k, it, _, r) => Branch(l, id, k, it, col, r)
  }

  /** The path (and everything under it) with no red-red edge is also fine with a red-red edge at the hole allowed. */
  lemma CtxRedOkWeaken<V>(c: Ctx<V>, holeRed: bool)
    requires CtxRedOk(c, holeRed)
    ensures CtxRedOkAbove(c)
  {
  }
}
