/**
 * The arena the tree class keeps its nodes in: a sequence of node records
 * addressed by index, with `NIL` (-1) for the shared `NIL_LEAF` sentinel and
 * for "no parent". `Linked` says that the records reachable from a root spell
 * out exactly a given tree value, parent pointers included.
 */
module RbArena {
  import opened Wrappers
  import opened ByteKeys
  import opened Assoc
  import opened RbShape
  import opened RbInsertRules
  import opened RbSearch

  /** One `Node`: key, payload, colour and the indices of its parent and children. */
  datatype Node<V> = Node(key: Key, item: Item<V>, color: Color, parent: int, left: int, right: int)

  /** `Node.get_children_count`: how many of the two child pointers are not the sentinel. */
  function ChildrenCount<V>(n: Node<V>): (r: nat)
    ensures r <= 2
    ensures r == 0 <==> n.left == NIL && n.right == NIL
  {
    (if n.left != NIL then 1 else 0) + (if n.right != NIL then 1 else 0)
  }

  /** `Node.has_children`. */
  predicate HasChildren<V>(n: Node<V>) {
    n.left != NIL || n.right != NIL
  }

  /** The records reachable from `RootId(t)` are exactly `t`'s nodes, each pointing back to its parent. */
  ghost predicate Linked<V>(nodes: seq<Node<V>>, t: Tree<V>, p: int) {
    match t
    case Leaf => true
    case Branch(l, id, k, it, col, r) =>
      id < |nodes| && nodes[id] == Node(k, it, col, p, RootId(l), RootId(r)) &&
      Linked(nodes, l, id) && Linked(nodes, r, id)
  }

  /** The records along the path `c` are linked, with `hole` as the child pointer into the hole. */
  ghost predicate CtxLinked<V>(nodes: seq<Node<V>>, c: Ctx<V>, hole: int) {
    match c
    case Top => true
    case InLeft(up, id, k, it, col, r) =>
      id < |nodes| && nodes[id] == Node(k, it, col, HoleParent(up), hole, RootId(r)) &&
      Linked(nodes, r, id) && CtxLinked(nodes, up, id)
    case InRight(l, id, k, it, col, up) =>
      id < |nodes| && nodes[id] == Node(k, it, col, HoleParent(up), RootId(l), hole) &&
      Linked(nodes, l, id) && CtxLinked(nodes, up, id)
  }

  /** The arena spells out `t` from `root`, with unique indices and keys in increasing order. */
  ghost predicate Represents<V>(nodes: seq<Node<V>>, root: int, t: Tree<V>) {
    Linked(nodes, t, NIL) && root == RootId(t) && Unique(t) && Sorted(Entries(t))
  }

  lemma {:induction false} PlugLinked<V>(nodes: seq<Node<V>>, c: Ctx<V>, s: Tree<V>)
    ensures Linked(nodes, Plug(c, s), NIL) <==>
      CtxLinked(nodes, c, RootId(s)) && Linked(nodes, s, HoleParent(c))
    decreases c
  {
    match c
    case Top =>
    case InLeft(up, id, k, it, col, r) => PlugLinked(nodes, up, Branch(s, id, k, it, col, r));
    case InRight(l, id, k, it, col, up) => PlugLinked(nodes, up, Branch(l, id, k, it, col, s));
  }

  /** `nodes2` keeps every record of `nodes` whose index is in `ids`. */
  ghost predicate SameAt<V>(nodes: seq<Node<V>>, nodes2: seq<Node<V>>, ids: set<nat>) {
    |nodes| <= |nodes2| && forall i :: i in ids && i < |nodes| ==> nodes2[i] == nodes[i]
  }

  lemma {:induction false} LinkedFrame<V>(nodes: seq<Node<V>>, nodes2: seq<Node<V>>, t: Tree<V>, p: int)
    requires Linked(nodes, t, p) && SameAt(nodes, nodes2, Ids(t))
    ensures Linked(nodes2, t, p)
  {
    match t
    case Leaf =>
    case Branch(l, id, k, it, col, r) =>
      LinkedFrame(nodes, nodes2, l, id);
      LinkedFrame(nodes, nodes2, r, id);
  }

  lemma {:induction false} CtxLinkedFrame<V>(nodes: seq<Node<V>>, nodes2: seq<Node<V>>, c: Ctx<V>, hole: int)
    requires CtxLinked(nodes, c, hole) && SameAt(nodes, nodes2, CtxIds(c))
    ensures CtxLinked(nodes2, c, hole)
  {
    match c
    case Top =>
    case InLeft(up, id, k, it, col, r) =>
      LinkedFrame(nodes, nodes2, r, id);
      CtxLinkedFrame(nodes, nodes2, up, id);
    case InRight(l, id, k, it, col, up) =>
      LinkedFrame(nodes, nodes2, l, id);
      CtxLinkedFrame(nodes, nodes2, up, id);
  }

  lemma {:induction false} LinkedBound<V>(nodes: seq<Node<V>>, t: Tree<V>, p: int)
    requires Linked(nodes, t, p)
    ensures forall i :: i in Ids(t) ==> i < |nodes|
  {
    match t
    case Leaf =>
    case Branch(l, id, k, it, col, r) =>
      LinkedBound(nodes, l, id);
      LinkedBound(nodes, r, id);
  }

  lemma {:induction false} CtxLinkedBound<V>(nodes: seq<Node<V>>, c: Ctx<V>, hole: int)
    requires CtxLinked(nodes, c, hole)
    ensures forall i :: i in CtxIds(c) ==> i < |nodes|
  {
    match c
    case Top =>
    case InLeft(up, id, k, it, col, r) =>
      LinkedBound(nodes, r, id);
      CtxLinkedBound(nodes, up, id);
    case InRight(l, id, k, it, col, up) =>
      LinkedBound(nodes, l, id);
      CtxLinkedBound(nodes, up, id);
  }

  /** The record of the innermost frame with its child pointer into the hole redirected to `h`. */
  function SetChild<V>(n: Node<V>, c: Ctx<V>, h: int): Node<V>
    requires !c.Top?
  {
    if c.InLeft? then n.(left := h) else n.(right := h)
  }

  /** Redirecting the innermost frame's child pointer moves the hole's index from `h` to `h2`. */
  lemma Relink<V>(nodes: seq<Node<V>>, nodes2: seq<Node<V>>, c: Ctx<V>, h: int, h2: int)
    requires CtxLinked(nodes, c, h) && CtxUnique(c) && !c.Top?
    requires c.id < |nodes2| && nodes2[c.id] == SetChild(nodes[c.id], c, h2)
    requires SameAt(nodes, nodes2, CtxIds(c) - {c.id})
    ensures CtxLinked(nodes2, c, h2)
  {
    match c
    case InLeft(up, id, k, it, col, r) =>
      LinkedFrame(nodes, nodes2, r, id);
      CtxLinkedFrame(nodes, nodes2, up, id);
    case InRight(l, id, k, it, col, up) =>
      LinkedFrame(nodes, nodes2, l, id);
      CtxLinkedFrame(nodes, nodes2, up, id);
  }

  /** The record at a linked node. */
  lemma LinkedRoot<V>(nodes: seq<Node<V>>, c: Ctx<V>, s: Tree<V>)
    requires Linked(nodes, Plug(c, s), NIL) && s.Branch?
    ensures s.id < |nodes|
    ensures nodes[s.id] == Node(s.key, s.item, s.color, HoleParent(c), RootId(s.left), RootId(s.right))
    ensures Linked(nodes, s, HoleParent(c)) && CtxLinked(nodes, c, s.id)
  {
    PlugLinked(nodes, c, s);
  }

  /** A linked node's child count matches the shape. */
  lemma ChildrenCountShape<V>(nodes: seq<Node<V>>, t: Tree<V>, p: int)
    requires Linked(nodes, t, p) && t.Branch?
    ensures ChildrenCount(nodes[t.id]) == (if t.left.Branch? then 1 else 0) + (if t.right.Branch? then 1 else 0)
    ensures HasChildren(nodes[t.id]) <==> t.left.Branch? || t.right.Branch?
  {
  }

  /** A node whose record is rewritten (colour and parent) keeps spelling out its subtree, repainted. */
  lemma LinkedRetop<V>(n0: seq<Node<V>>, n1: seq<Node<V>>, t: Tree<V>, p: int, col: Color, p2: int)
    requires Linked(n0, t, p) && Unique(t) && t.Branch?
    requires t.id < |n1| && n1[t.id] == Node(t.key, t.item, col, p2, RootId(t.left), RootId(t.right))
    requires SameAt(n0, n1, Ids(t) - {t.id})
    ensures Linked(n1, Paint(t, col), p2)
  {
    LinkedFrame(n0, n1, t.left, t.id);
    LinkedFrame(n0, n1, t.right, t.id);
  }

  /** Repainting the node at the hole. */
  lemma PaintLinked<V>(nodes: seq<Node<V>>, c: Ctx<V>, s: Tree<V>, col: Color)
    requires Linked(nodes, Plug(c, s), NIL) && Unique(Plug(c, s)) && s.Branch?
    ensures s.id < |nodes|
    ensures Linked(nodes[s.id := nodes[s.id].(color := col)], Plug(c, Paint(s, col)), NIL)
    ensures RootId(Plug(c, Paint(s, col))) == RootId(Plug(c, s))
  {
    PlugLinked(nodes, c, s);
    PlugUnique(c, s);
    var n1 := nodes[s.id := nodes[s.id].(color := col)];
    CtxLinkedFrame(nodes, n1, c, s.id);
    LinkedRetop(nodes, n1, s, HoleParent(c), col, HoleParent(c));
    PlugLinked(n1, c, Paint(s, col));
    if !c.Top? {
      PlugRoot(c, s, Paint(s, col));
    }
  }

  /** Only the records at indices in `w` may differ. */
  ghost predicate Unchanged<V>(n0: seq<Node<V>>, n1: seq<Node<V>>, w: set<int>) {
    |n1| == |n0| && forall i :: 0 <= i < |n0| && i !in w ==> n1[i] == n0[i]
  }

  lemma LinkedOutside<V>(n0: seq<Node<V>>, n1: seq<Node<V>>, t: Tree<V>, p: int, w: set<int>)
    requires Linked(n0, t, p) && Unchanged(n0, n1, w)
    requires forall i :: i in Ids(t) ==> i !in w
    ensures Linked(n1, t, p)
  {
    LinkedFrame(n0, n1, t, p);
  }

  lemma RetopOutside<V>(n0: seq<Node<V>>, n1: seq<Node<V>>, t: Tree<V>, p: int, col: Color, p2: int, w: set<int>)
    requires Linked(n0, t, p) && Unique(t) && t.Branch? && Unchanged(n0, n1, w)
    requires t.id < |n1| && n1[t.id] == Node(t.key, t.item, col, p2, RootId(t.left), RootId(t.right))
    requires forall i :: i in Ids(t) && i != t.id ==> i !in w
    ensures Linked(n1, Paint(t, col), p2)
  {
    LinkedRetop(n0, n1, t, p, col, p2);
  }

  /** The records `_right_rotation` at `s` leaves behind, all other records unchanged. */
  ghost predicate RotatedRight<V>(n0: seq<Node<V>>, n1: seq<Node<V>>, hp: int, s: Tree<V>, recolor: bool)
    requires s.Branch? && s.left.Branch?
  {
    var p := s.left;
    var r := RotR(s, recolor);
    p.id < |n0| && s.id < |n0| && (p.right.Branch? ==> p.right.id < |n0|) &&
    (recolor ==> p.left.Branch? && p.left.id < |n0|) &&
    Unchanged(n0, n1, {p.id, s.id, RootId(p.right), hp} + (if recolor then {RootId(p.left)} else {})) &&
    n1[p.id] == Node(p.key, p.item, r.color, hp, RootId(p.left), s.id) &&
    n1[s.id] == Node(s.key, s.item, r.right.color, p.id, RootId(p.right), RootId(s.right)) &&
    (p.right.Branch? ==> n1[p.right.id] == n0[p.right.id].(parent := s.id)) &&
    (recolor ==> n1[p.left.id] == n0[p.left.id].(color := Red))
  }

  /** The records `_left_rotation` at `s` leaves behind, all other records unchanged. */
  ghost predicate RotatedLeft<V>(n0: seq<Node<V>>, n1: seq<Node<V>>, hp: int, s: Tree<V>, recolor: bool)
    requires s.Branch? && s.right.Branch?
  {
    var p := s.right;
    var r := RotL(s, recolor);
    p.id < |n0| && s.id < |n0| && (p.left.Branch? ==> p.left.id < |n0|) &&
    (recolor ==> p.right.Branch? && p.right.id < |n0|) &&
    Unchanged(n0, n1, {p.id, s.id, RootId(p.left), hp} + (if recolor then {RootId(p.right)} else {})) &&
    n1[p.id] == Node(p.key, p.item, r.color, hp, s.id, RootId(p.right)) &&
    n1[s.id] == Node(s.key, s.item, r.left.color, p.id, RootId(s.left), RootId(p.left)) &&
    (p.left.Branch? ==> n1[p.left.id] == n0[p.left.id].(parent := s.id)) &&
    (recolor ==> n1[p.right.id] == n0[p.right.id].(color := Red))
  }

  /**
   * The records of `s` (hole parent `hp`) a right rotation reads: `s` and its
   * left child `p` as the tree says, and the indices it writes all distinct.
   */
  ghost predicate RotRReady<V>(nodes: seq<Node<V>>, hp: int, s: Tree<V>)
    requires s.Branch? && s.left.Branch?
  {
    var p := s.left;
    s.id < |nodes| && p.id < |nodes| && p.id != s.id &&
    nodes[s.id] == Node(s.key, s.item, s.color, hp, p.id, RootId(s.right)) &&
    nodes[p.id] == Node(p.key, p.item, p.color, s.id, RootId(p.left), RootId(p.right)) &&
    (p.left.Branch? ==> p.left.id < |nodes| && p.left.id != s.id && p.left.id != p.id && p.left.id != hp) &&
    (p.right.Branch? ==>
      p.right.id < |nodes| && p.right.id != s.id && p.right.id != p.id && p.right.id != hp && p.right.id != RootId(p.left)) &&
    (hp != NIL ==> 0 <= hp < |nodes| && hp != s.id && hp != p.id)
  }

  /** The mirror image of `RotRReady`, for a left rotation. */
  ghost predicate RotLReady<V>(nodes: seq<Node<V>>, hp: int, s: Tree<V>)
    requires s.Branch? && s.right.Branch?
  {
    var p := s.right;
    s.id < |nodes| && p.id < |nodes| && p.id != s.id &&
    nodes[s.id] == Node(s.key, s.item, s.color, hp, RootId(s.left), p.id) &&
    nodes[p.id] == Node(p.key, p.item, p.color, s.id, RootId(p.left), RootId(p.right)) &&
    (p.right.Branch? ==> p.right.id < |nodes| && p.right.id != s.id && p.right.id != p.id && p.right.id != hp) &&
    (p.left.Branch? ==>
      p.left.id < |nodes| && p.left.id != s.id && p.left.id != p.id && p.left.id != hp && p.left.id != RootId(p.right)) &&
    (hp != NIL ==> 0 <= hp < |nodes| && hp != s.id && hp != p.id)
  }

  /** `i` is the sentinel or the index of a record. */
  predicate InArena<V>(nodes: seq<Node<V>>, i: int) {
    i == NIL || 0 <= i < |nodes|
  }

  /**
   * `__update_parent(node, oldChild, newParent)` on the records: `node` points
   * up to `newParent`, which points down to `node` on the side of `oldChild`'s
   * key; every other record is kept.
   */
  function Reparented<V>(nodes: seq<Node<V>>, node: nat, oldChild: nat, newParent: int): (r: seq<Node<V>>)
    requires node < |nodes| && oldChild < |nodes| && InArena(nodes, newParent) && node != newParent
    ensures |r| == |nodes| && r[node] == nodes[node].(parent := newParent)
    ensures newParent != NIL ==>
      r[newParent] == if Less(nodes[oldChild].key, nodes[newParent].key)
        then nodes[newParent].(left := node) else nodes[newParent].(right := node)
    ensures forall i :: 0 <= i < |r| && i != node && i != newParent ==> r[i] == nodes[i]
  {
    var r1 := nodes[node := nodes[node].(parent := newParent)];
    if newParent == NIL then r1
    else if Less(r1[oldChild].key, r1[newParent].key) then r1[newParent := r1[newParent].(left := node)]
    else r1[newParent := r1[newParent].(right := node)]
  }

  /** What `_right_rotation(node, parent, grandfather, recolor)` needs to find in the records. */
  predicate RotatableRight<V>(nodes: seq<Node<V>>, node: int, parent: nat, grandfather: nat, recolor: bool) {
    parent < |nodes| && grandfather < |nodes| && parent != grandfather &&
    InArena(nodes, nodes[grandfather].parent) && nodes[grandfather].parent != parent &&
    InArena(nodes, nodes[parent].right) && (recolor ==> 0 <= node < |nodes|)
  }

  /** What `_left_rotation(node, parent, grandfather, recolor)` needs to find in the records. */
  predicate RotatableLeft<V>(nodes: seq<Node<V>>, node: int, parent: nat, grandfather: nat, recolor: bool) {
    parent < |nodes| && grandfather < |nodes| && parent != grandfather &&
    InArena(nodes, nodes[grandfather].parent) && nodes[grandfather].parent != parent &&
    InArena(nodes, nodes[parent].left) && (recolor ==> 0 <= node < |nodes|)
  }

  /**
   * The records after `_right_rotation`: `parent` takes `grandfather`'s place,
   * `grandfather` becomes its right child and adopts `parent`'s old right
   * subtree; with `recolor`, `parent` turns black and `node` and
   * `grandfather` red.
   */
  function RightRotated<V>(nodes: seq<Node<V>>, node: int, parent: nat, grandfather: nat, recolor: bool): (r: seq<Node<V>>)
    requires RotatableRight(nodes, node, parent, grandfather, recolor)
    ensures |r| == |nodes|
  {
    var n1 := Reparented(nodes, parent, grandfather, nodes[grandfather].parent);
    var oldRight := n1[parent].right;
    var n2 := n1[parent := n1[parent].(right := grandfather)];
    var n3 := n2[grandfather := n2[grandfather].(parent := parent)];
    var n4 := n3[grandfather := n3[grandfather].(left := oldRight)];
    var n5 := if oldRight != NIL then n4[oldRight := n4[oldRight].(parent := grandfather)] else n4;
    if recolor then
      var n6 := n5[parent := n5[parent].(color := Black)];
      var n7 := n6[node := n6[node].(color := Red)];
      n7[grandfather := n7[grandfather].(color := Red)]
    else n5
  }

  /** The records after `_left_rotation`, the mirror image of `RightRotated`. */
  function LeftRotated<V>(nodes: seq<Node<V>>, node: int, parent: nat, grandfather: nat, recolor: bool): (r: seq<Node<V>>)
    requires RotatableLeft(nodes, node, parent, grandfather, recolor)
    ensures |r| == |nodes|
  {
    var n1 := Reparented(nodes, parent, grandfather, nodes[grandfather].parent);
    var oldLeft := n1[parent].left;
    var n2 := n1[parent := n1[parent].(left := grandfather)];
    var n3 := n2[grandfather := n2[grandfather].(parent := parent)];
    var n4 := n3[grandfather := n3[grandfather].(right := oldLeft)];
    var n5 := if oldLeft != NIL then n4[oldLeft := n4[oldLeft].(parent := grandfather)] else n4;
    if recolor then
      var n6 := n5[parent := n5[parent].(color := Black)];
      var n7 := n6[node := n6[node].(color := Red)];
      n7[grandfather := n7[grandfather].(color := Red)]
    else n5
  }

  /**
   * `_right_rotation` as written: it hands `__update_parent` the great-
   * grandfather both as the new parent and as the old child whose key picks
   * the side, and no key is below itself, so `parent` always lands on the
   * great-grandfather's right.
   */
  function RightRotatedAsWritten<V>(nodes: seq<Node<V>>, node: int, parent: nat, grandfather: nat, recolor: bool): (r: seq<Node<V>>)
    requires RotatableRight(nodes, node, parent, grandfather, recolor)
    ensures |r| == |nodes|
  {
    var gg := nodes[grandfather].parent;
    var n1 := if gg == NIL then Reparented(nodes, parent, grandfather, NIL) else Reparented(nodes, parent, gg, gg);
    var oldRight := n1[parent].right;
    var n2 := n1[parent := n1[parent].(right := grandfather)];
    var n3 := n2[grandfather := n2[grandfather].(parent := parent)];
    var n4 := n3[grandfather := n3[grandfather].(left := oldRight)];
    var n5 := if oldRight != NIL then n4[oldRight := n4[oldRight].(parent := grandfather)] else n4;
    if recolor then
      var n6 := n5[parent := n5[parent].(color := Black)];
      var n7 := n6[node := n6[node].(color := Red)];
      n7[grandfather := n7[grandfather].(color := Red)]
    else n5
  }

  /**
   * The arena after `add` of the one-byte keys 50, 30, 70, 20 into an empty
   * tree, with 10 attached under 20: 50 black at 0 with children 30 (1) and
   * 70 (2), both black; 20 red at 3 under 30; 10 red at 4 under 20.
   */
  function LeftChainArena(): (nodes: seq<Node<int>>)
    ensures |nodes| == 5
  {
    var it := Item(0, None, None);
    [Node([50], it, Black, NIL, 1, 2), Node([30], it, Black, 0, 3, NIL), Node([70], it, Black, 0, NIL, NIL),
     Node([20], it, Red, 1, 4, NIL), Node([10], it, Red, 3, NIL, NIL)]
  }

  /**
   * The rebalance after adding 10 rotates right at 30, a left child. As
   * written, 20 is hung on 50's right in place of 70 while 50's left still
   * points at 30: no record points at 70 any more. The rotation of
   * `RightRotated` puts 20 where 30 was and keeps 70.
   */
  lemma RightRotationLosesSubtree()
    ensures RotatableRight(LeftChainArena(), 4, 3, 1, true)
    ensures var r := RightRotatedAsWritten(LeftChainArena(), 4, 3, 1, true);
      r[0].left == 1 && r[0].right == 3 && forall i :: 0 <= i < |r| ==> r[i].left != 2 && r[i].right != 2
    ensures var r := RightRotated(LeftChainArena(), 4, 3, 1, true);
      r[0].left == 3 && r[0].right == 2 && r[3].right == 1 && r[1].left == NIL
  {
  }

  /** A right rotation writes only the records of `s`, its child `p`, the subtree it moves and the hole's parent. */
  lemma RightRotatedKeeps<V>(n0: seq<Node<V>>, node: int, hp: int, s: Tree<V>, recolor: bool)
    requires s.Branch? && s.left.Branch? && RotRReady(n0, hp, s)
    requires recolor ==> s.left.left.Branch? && node == s.left.left.id
    ensures RotatableRight(n0, node, s.left.id, s.id, recolor)
    ensures Unchanged(n0, RightRotated(n0, node, s.left.id, s.id, recolor),
      {s.left.id, s.id, RootId(s.left.right), hp} + (if recolor then {RootId(s.left.left)} else {}))
  {
  }

  /** A right rotation at a ready `s` leaves exactly the records `RotatedRight` describes. */
  lemma RightRotatedRecords<V>(n0: seq<Node<V>>, node: int, hp: int, s: Tree<V>, recolor: bool)
    requires s.Branch? && s.left.Branch? && RotRReady(n0, hp, s)
    requires recolor ==> s.left.left.Branch? && node == s.left.left.id
    ensures RotatableRight(n0, node, s.left.id, s.id, recolor)
    ensures RotatedRight(n0, RightRotated(n0, node, s.left.id, s.id, recolor), hp, s, recolor)
    ensures hp != NIL ==>
      RightRotated(n0, node, s.left.id, s.id, recolor)[hp] ==
        if Less(s.key, n0[hp].key) then n0[hp].(left := s.left.id) else n0[hp].(right := s.left.id)
  {
    RightRotatedKeeps(n0, node, hp, s, recolor);
  }

  /** A left rotation writes only the records of `s`, its child `p`, the subtree it moves and the hole's parent. */
  lemma LeftRotatedKeeps<V>(n0: seq<Node<V>>, node: int, hp: int, s: Tree<V>, recolor: bool)
    requires s.Branch? && s.right.Branch? && RotLReady(n0, hp, s)
    requires recolor ==> s.right.right.Branch? && node == s.right.right.id
    ensures RotatableLeft(n0, node, s.right.id, s.id, recolor)
    ensures Unchanged(n0, LeftRotated(n0, node, s.right.id, s.id, recolor),
      {s.right.id, s.id, RootId(s.right.left), hp} + (if recolor then {RootId(s.right.right)} else {}))
  {
  }

  /** A left rotation at a ready `s` leaves exactly the records `RotatedLeft` describes. */
  lemma LeftRotatedRecords<V>(n0: seq<Node<V>>, node: int, hp: int, s: Tree<V>, recolor: bool)
    requires s.Branch? && s.right.Branch? && RotLReady(n0, hp, s)
    requires recolor ==> s.right.right.Branch? && node == s.right.right.id
    ensures RotatableLeft(n0, node, s.right.id, s.id, recolor)
    ensures RotatedLeft(n0, LeftRotated(n0, node, s.right.id, s.id, recolor), hp, s, recolor)
    ensures hp != NIL ==>
      LeftRotated(n0, node, s.right.id, s.id, recolor)[hp] ==
        if Less(s.key, n0[hp].key) then n0[hp].(left := s.right.id) else n0[hp].(right := s.right.id)
  {
    LeftRotatedKeeps(n0, node, hp, s, recolor);
  }

  /** The rotated subtree is spelled out by the new records. */
  lemma RotateRightSub<V>(n0: seq<Node<V>>, n1: seq<Node<V>>, hp: int, s: Tree<V>, recolor: bool)
    requires Linked(n0, s, hp) && Unique(s) && hp !in Ids(s)
    requires s.Branch? && s.left.Branch? && RotatedRight(n0, n1, hp, s, recolor)
    ensures Linked(n1, RotR(s, recolor), hp)
  {
    var p, r := s.left, RotR(s, recolor);
    var a, b, cc := p.left, p.right, s.right;
    var w := {p.id, s.id, RootId(b), hp} + (if recolor then {RootId(a)} else {});
    assert Ids(s) == Ids(a) + {p.id} + Ids(b) + {s.id} + Ids(cc);
    if recolor {
      RetopOutside(n0, n1, a, p.id, Red, p.id, w);
    } else {
      LinkedOutside(n0, n1, a, p.id, w);
    }
    if b.Branch? {
      RetopOutside(n0, n1, b, p.id, b.color, s.id, w);
      assert Paint(b, b.color) == b;
    }
    LinkedOutside(n0, n1, cc, s.id, w);
    assert Linked(n1, r.right, p.id);
  }

  lemma RotateLeftSub<V>(n0: seq<Node<V>>, n1: seq<Node<V>>, hp: int, s: Tree<V>, recolor: bool)
    requires Linked(n0, s, hp) && Unique(s) && hp !in Ids(s)
    requires s.Branch? && s.right.Branch? && RotatedLeft(n0, n1, hp, s, recolor)
    ensures Linked(n1, RotL(s, recolor), hp)
  {
    var p, r := s.right, RotL(s, recolor);
    var a, b, d := s.left, p.left, p.right;
    var w := {p.id, s.id, RootId(b), hp} + (if recolor then {RootId(d)} else {});
    assert Ids(s) == Ids(a) + {s.id} + Ids(b) + {p.id} + Ids(d);
    if recolor {
      RetopOutside(n0, n1, d, p.id, Red, p.id, w);
    } else {
      LinkedOutside(n0, n1, d, p.id, w);
    }
    if b.Branch? {
      RetopOutside(n0, n1, b, p.id, b.color, s.id, w);
      assert Paint(b, b.color) == b;
    }
    LinkedOutside(n0, n1, a, s.id, w);
    assert Linked(n1, r.left, p.id);
  }

  /**
   * A subtree at the hole replaced by `s2`, spelled out by the new records
   * with the same root index; the path is redirected to `s2`'s root.
   */
  lemma ReplaceAtHole<V>(n0: seq<Node<V>>, n1: seq<Node<V>>, c: Ctx<V>, s: Tree<V>, s2: Tree<V>, w: set<int>)
    requires Linked(n0, Plug(c, s), NIL) && Unique(Plug(c, s)) && s.Branch? && s2.Branch?
    requires Linked(n1, s2, HoleParent(c)) && Unchanged(n0, n1, w)
    requires forall i :: i in w && 0 <= i ==> i in Ids(s) || i == HoleParent(c)
    requires !c.Top? ==> c.id < |n1| && n1[c.id] == SetChild(n0[c.id], c, s2.id)
    ensures Linked(n1, Plug(c, s2), NIL)
  {
    PlugLinked(n0, c, s);
    PlugUnique(c, s);
    PlugIds(c, s);
    if !c.Top? {
      Relink(n0, n1, c, s.id, s2.id);
    }
    PlugLinked(n1, c, s2);
  }

  /** Hanging a fresh record, appended to the arena, into the hole of a path. */
  lemma AttachLinked<V>(n0: seq<Node<V>>, n1: seq<Node<V>>, c: Ctx<V>, s: Tree<V>)
    requires Linked(n0, Plug(c, Leaf), NIL) && Unique(Plug(c, Leaf)) && !c.Top?
    requires s.Branch? && s == Branch(Leaf, |n0|, s.key, s.item, s.color, Leaf)
    requires |n1| == |n0| + 1 && n1[|n0|] == Node(s.key, s.item, s.color, c.id, NIL, NIL)
    requires c.id < |n0| && n1[c.id] == SetChild(n0[c.id], c, |n0|)
    requires forall i :: 0 <= i < |n0| && i != c.id ==> n1[i] == n0[i]
    ensures Linked(n1, Plug(c, s), NIL) && Unique(Plug(c, s))
  {
    PlugLinked(n0, c, Leaf);
    PlugUnique(c, Leaf);
    CtxLinkedBound(n0, c, NIL);
    Relink(n0, n1, c, NIL, |n0|);
    PlugLinked(n1, c, s);
    PlugUnique(c, s);
  }

  /** Rewriting the key and payload of the node at the hole. */
  lemma LabelLinked<V>(nodes: seq<Node<V>>, c: Ctx<V>, s: Tree<V>, k: Key, it: Item<V>)
    requires Linked(nodes, Plug(c, s), NIL) && Unique(Plug(c, s)) && s.Branch?
    ensures s.id < |nodes|
    ensures Linked(nodes[s.id := nodes[s.id].(key := k, item := it)], Plug(c, s.(key := k, item := it)), NIL)
    ensures Unique(Plug(c, s.(key := k, item := it)))
  {
    PlugLinked(nodes, c, s);
    PlugUnique(c, s);
    var s2 := s.(key := k, item := it);
    var n1 := nodes[s.id := nodes[s.id].(key := k, item := it)];
    CtxLinkedFrame(nodes, n1, c, s.id);
    LinkedFrame(nodes, n1, s.left, s.id);
    LinkedFrame(nodes, n1, s.right, s.id);
    PlugLinked(n1, c, s2);
    PlugUnique(c, s2);
  }

  /** Repainting the node at the hole keeps the arena spelling out the (repainted) tree. */
  lemma PaintRepresents<V>(nodes: seq<Node<V>>, root: int, c: Ctx<V>, s: Tree<V>, col: Color)
    requires Represents(nodes, root, Plug(c, s)) && s.Branch?
    ensures s.id < |nodes|
    ensures Represents(nodes[s.id := nodes[s.id].(color := col)], root, Plug(c, Paint(s, col)))
    ensures Entries(Plug(c, Paint(s, col))) == Entries(Plug(c, s))
  {
    PaintLinked(nodes, c, s, col);
    PaintKeeps(s, col);
    PlugEntries(c, s);
    PlugEntries(c, Paint(s, col));
    PlugUnique(c, s);
    PlugUnique(c, Paint(s, col));
  }

  /** The arena indices of a tree, in order. */
  function InOrderIds<V>(t: Tree<V>): seq<nat> {
    match t
    case Leaf => []
    case Branch(l, id, _, _, _, r) => InOrderIds(l) + [id] + InOrderIds(r)
  }

  /** The records at the in-order indices spell out the in-order entries. */
  lemma {:induction false} InOrderMatches<V>(nodes: seq<Node<V>>, t: Tree<V>, p: int)
    requires Linked(nodes, t, p)
    ensures |InOrderIds(t)| == |Entries(t)|
    ensures forall i :: 0 <= i < |Entries(t)| ==>
      InOrderIds(t)[i] < |nodes| && (nodes[InOrderIds(t)[i]].key, nodes[InOrderIds(t)[i]].item) == Entries(t)[i]
  {
    match t
    case Leaf =>
    case Branch(l, id, k, it, col, r) =>
      InOrderMatches(nodes, l, id);
      InOrderMatches(nodes, r, id);
      var il, ir, el, er := InOrderIds(l), InOrderIds(r), Entries(l), Entries(r);
      forall i | 0 <= i < |Entries(t)|
        ensures InOrderIds(t)[i] < |nodes| &&
          (nodes[InOrderIds(t)[i]].key, nodes[InOrderIds(t)[i]].item) == Entries(t)[i]
      {
        if i < |el| {
          assert InOrderIds(t)[i] == il[i] && Entries(t)[i] == el[i];
        } else if i == |el| {
          assert InOrderIds(t)[i] == id && Entries(t)[i] == (k, it);
        } else {
          assert InOrderIds(t)[i] == ir[i - |el| - 1] && Entries(t)[i] == er[i - |el| - 1];
        }
      }
  }

  /**
   * What `_try_rebalance` at `s` reads: the records of `s`, of its parent and
   * of its grandfather (when they exist) agree with the tree, the key
   * comparisons give the sides, and the uncle's record holds its colour.
   */
  lemma RebalanceView<V>(nodes: seq<Node<V>>, root: int, c: Ctx<V>, s: Tree<V>)
    requires Represents(nodes, root, Plug(c, s)) && s.Branch?
    ensures s.id < |nodes| && nodes[s.id].parent == HoleParent(c)
    ensures nodes[s.id].key == s.key && nodes[s.id].color == s.color
    ensures !c.Top? ==>
      c.id < |nodes| && nodes[c.id].parent == HoleParent(c.up) &&
      nodes[c.id].key == c.key && nodes[c.id].color == c.color && (c.InLeft? <==> Less(s.key, c.key))
    ensures !c.Top? && !c.up.Top? ==>
      c.up.id < |nodes| && nodes[c.up.id].key == c.up.key && (c.up.InLeft? <==> Less(c.key, c.up.key)) &&
      Plug(c.up.up, Fill(c.up, Fill(c, s))) == Plug(c, s) &&
      (c.up.InLeft? ==>
        nodes[c.up.id].right == RootId(c.up.right) &&
        (c.up.right.Branch? ==> c.up.right.id < |nodes| && nodes[c.up.right.id].color == c.up.right.color)) &&
      (c.up.InRight? ==>
        nodes[c.up.id].left == RootId(c.up.left) &&
        (c.up.left.Branch? ==> c.up.left.id < |nodes| && nodes[c.up.left.id].color == c.up.left.color))
  {
    LinkedRoot(nodes, c, s);
    if !c.Top? {
      PlugFill(c, s);
      LinkedRoot(nodes, c.up, Fill(c, s));
      HoleSide(c, s);
      if !c.up.Top? {
        var f := Fill(c, s);
        PlugFill(c.up, f);
        LinkedRoot(nodes, c.up.up, Fill(c.up, f));
        HoleSide(c.up, f);
        var u := if c.up.InLeft? then c.up.right else c.up.left;
        assert Linked(nodes, u, c.up.id);
      }
    }
  }

  /** The records a right rotation at `s` reads, and why its writes do not collide. */
  lemma RotRSetup<V>(nodes: seq<Node<V>>, root: int, c: Ctx<V>, s: Tree<V>)
    requires Represents(nodes, root, Plug(c, s)) && s.Branch? && s.left.Branch?
    ensures RotRReady(nodes, HoleParent(c), s)
    ensures !c.Top? ==> nodes[c.id].key == c.key && (c.InLeft? <==> Less(s.key, c.key))
  {
    LinkedRoot(nodes, c, s);
    PlugUnique(c, s);
    PlugIds(c, s);
    var p := s.left;
    assert Linked(nodes, p.left, p.id) && Linked(nodes, p.right, p.id);
    assert Ids(s) == Ids(p.left) + {p.id} + Ids(p.right) + {s.id} + Ids(s.right);
    if !c.Top? {
      HoleSide(c, s);
    }
  }

  /** The records a left rotation at `s` reads, and why its writes do not collide. */
  lemma RotLSetup<V>(nodes: seq<Node<V>>, root: int, c: Ctx<V>, s: Tree<V>)
    requires Represents(nodes, root, Plug(c, s)) && s.Branch? && s.right.Branch?
    ensures RotLReady(nodes, HoleParent(c), s)
    ensures !c.Top? ==> nodes[c.id].key == c.key && (c.InLeft? <==> Less(s.key, c.key))
  {
    LinkedRoot(nodes, c, s);
    PlugUnique(c, s);
    PlugIds(c, s);
    var p := s.right;
    assert Linked(nodes, p.left, p.id) && Linked(nodes, p.right, p.id);
    assert Ids(s) == Ids(s.left) + {s.id} + Ids(p.left) + {p.id} + Ids(p.right);
    if !c.Top? {
      HoleSide(c, s);
    }
  }

  /** Every record a right rotation at `s` writes belongs to `s` or is its hole parent `hp`. */
  lemma RotRWrites<V>(s: Tree<V>, hp: int, recolor: bool)
    requires s.Branch? && s.left.Branch?
    ensures forall i :: i in {s.left.id, s.id, RootId(s.left.right), hp} + (if recolor then {RootId(s.left.left)} else {}) && 0 <= i ==> i in Ids(s) || i == hp
  {
    var p := s.left;
    assert Ids(s) == Ids(p.left) + {p.id} + Ids(p.right) + {s.id} + Ids(s.right);
  }

  /** The records after a right rotation spell out the rotated subtree, under the same hole parent. */
  lemma RotRLinkedSub<V>(n0: seq<Node<V>>, root0: int, c: Ctx<V>, s: Tree<V>, node: int, recolor: bool)
    requires Represents(n0, root0, Plug(c, s)) && s.Branch? && s.left.Branch?
    requires recolor ==> s.left.left.Branch? && node == s.left.left.id
    ensures RotatableRight(n0, node, s.left.id, s.id, recolor) && n0[s.id].parent == HoleParent(c)
    ensures RotatedRight(n0, RightRotated(n0, node, s.left.id, s.id, recolor), HoleParent(c), s, recolor)
    ensures !c.Top? ==>
      RightRotated(n0, node, s.left.id, s.id, recolor)[c.id] == SetChild(n0[c.id], c, s.left.id)
    ensures Linked(RightRotated(n0, node, s.left.id, s.id, recolor), RotR(s, recolor), HoleParent(c))
    ensures forall i :: i in {s.left.id, s.id, RootId(s.left.right), HoleParent(c)} + (if recolor then {RootId(s.left.left)} else {}) && 0 <= i ==> i in Ids(s) || i == HoleParent(c)
  {
    var p := s.left;
    RotRSetup(n0, root0, c, s);
    RightRotatedRecords(n0, node, HoleParent(c), s, recolor);
    LinkedRoot(n0, c, s);
    PlugUnique(c, s);
    PlugIds(c, s);
    RotateRightSub(n0, RightRotated(n0, node, s.left.id, s.id, recolor), HoleParent(c), s, recolor);
    RotRWrites(s, HoleParent(c), recolor);
  }

  /** The records after a right rotation spell out the whole rotated tree. */
  lemma RotRLinked<V>(n0: seq<Node<V>>, root0: int, c: Ctx<V>, s: Tree<V>, node: int, recolor: bool)
    requires Represents(n0, root0, Plug(c, s)) && s.Branch? && s.left.Branch?
    requires recolor ==> s.left.left.Branch? && node == s.left.left.id
    ensures RotatableRight(n0, node, s.left.id, s.id, recolor) && n0[s.id].parent == HoleParent(c)
    ensures Linked(RightRotated(n0, node, s.left.id, s.id, recolor), Plug(c, RotR(s, recolor)), NIL)
  {
    var p, r := s.left, RotR(s, recolor);
    RotRLinkedSub(n0, root0, c, s, node, recolor);
    ReplaceAtHole(n0, RightRotated(n0, node, s.left.id, s.id, recolor), c, s, r,
      {p.id, s.id, RootId(p.right), HoleParent(c)} + (if recolor then {RootId(p.left)} else {}));
  }

  /** After the writes of a right rotation the arena represents the rotated tree, with the same entries. */
  lemma RotRFinish<V>(n0: seq<Node<V>>, root0: int, root1: int, c: Ctx<V>, s: Tree<V>, node: int, recolor: bool)
    requires Represents(n0, root0, Plug(c, s)) && s.Branch? && s.left.Branch?
    requires recolor ==> s.left.left.Branch? && node == s.left.left.id
    requires root1 == if c.Top? then s.left.id else root0
    ensures RotatableRight(n0, node, s.left.id, s.id, recolor) && n0[s.id].parent == HoleParent(c)
    ensures Represents(RightRotated(n0, node, s.left.id, s.id, recolor), root1, Plug(c, RotR(s, recolor)))
    ensures Entries(Plug(c, RotR(s, recolor))) == Entries(Plug(c, s))
  {
    var r := RotR(s, recolor);
    RotRLinked(n0, root0, c, s, node, recolor);
    RotRKeeps(s, recolor);
    PlugEntries(c, s);
    PlugEntries(c, r);
    PlugUnique(c, s);
    PlugUnique(c, r);
    if !c.Top? {
      PlugRoot(c, s, r);
    }
  }

  /** Every record a left rotation at `s` writes belongs to `s` or is its hole parent `hp`. */
  lemma RotLWrites<V>(s: Tree<V>, hp: int, recolor: bool)
    requires s.Branch? && s.right.Branch?
    ensures forall i :: i in {s.right.id, s.id, RootId(s.right.left), hp} + (if recolor then {RootId(s.right.right)} else {}) && 0 <= i ==> i in Ids(s) || i == hp
  {
    var p := s.right;
    assert Ids(s) == Ids(s.left) + {s.id} + Ids(p.left) + {p.id} + Ids(p.right);
  }

  /** The records after a left rotation spell out the rotated subtree, under the same hole parent. */
  lemma RotLLinkedSub<V>(n0: seq<Node<V>>, root0: int, c: Ctx<V>, s: Tree<V>, node: int, recolor: bool)
    requires Represents(n0, root0, Plug(c, s)) && s.Branch? && s.right.Branch?
    requires recolor ==> s.right.right.Branch? && node == s.right.right.id
    ensures RotatableLeft(n0, node, s.right.id, s.id, recolor) && n0[s.id].parent == HoleParent(c)
    ensures RotatedLeft(n0, LeftRotated(n0, node, s.right.id, s.id, recolor), HoleParent(c), s, recolor)
    ensures !c.Top? ==>
      LeftRotated(n0, node, s.right.id, s.id, recolor)[c.id] == SetChild(n0[c.id], c, s.right.id)
    ensures Linked(LeftRotated(n0, node, s.right.id, s.id, recolor), RotL(s, recolor), HoleParent(c))
    ensures forall i :: i in {s.right.id, s.id, RootId(s.right.left), HoleParent(c)} + (if recolor then {RootId(s.right.right)} else {}) && 0 <= i ==> i in Ids(s) || i == HoleParent(c)
  {
    var p := s.right;
    RotLSetup(n0, root0, c, s);
    LeftRotatedRecords(n0, node, HoleParent(c), s, recolor);
    LinkedRoot(n0, c, s);
    PlugUnique(c, s);
    PlugIds(c, s);
    RotateLeftSub(n0, LeftRotated(n0, node, s.right.id, s.id, recolor), HoleParent(c), s, recolor);
    RotLWrites(s, HoleParent(c), recolor);
  }

  /** The records after a left rotation spell out the whole rotated tree. */
  lemma RotLLinked<V>(n0: seq<Node<V>>, root0: int, c: Ctx<V>, s: Tree<V>, node: int, recolor: bool)
    requires Represents(n0, root0, Plug(c, s)) && s.Branch? && s.right.Branch?
    requires recolor ==> s.right.right.Branch? && node == s.right.right.id
    ensures RotatableLeft(n0, node, s.right.id, s.id, recolor) && n0[s.id].parent == HoleParent(c)
    ensures Linked(LeftRotated(n0, node, s.right.id, s.id, recolor), Plug(c, RotL(s, recolor)), NIL)
  {
    var p, r := s.right, RotL(s, recolor);
    RotLLinkedSub(n0, root0, c, s, node, recolor);
    ReplaceAtHole(n0, LeftRotated(n0, node, s.right.id, s.id, recolor), c, s, r,
      {p.id, s.id, RootId(p.left), HoleParent(c)} + (if recolor then {RootId(p.right)} else {}));
  }

  /** After the writes of a left rotation the arena represents the rotated tree, with the same entries. */
  lemma RotLFinish<V>(n0: seq<Node<V>>, root0: int, root1: int, c: Ctx<V>, s: Tree<V>, node: int, recolor: bool)
    requires Represents(n0, root0, Plug(c, s)) && s.Branch? && s.right.Branch?
    requires recolor ==> s.right.right.Branch? && node == s.right.right.id
    requires root1 == if c.Top? then s.right.id else root0
    ensures RotatableLeft(n0, node, s.right.id, s.id, recolor) && n0[s.id].parent == HoleParent(c)
    ensures Represents(LeftRotated(n0, node, s.right.id, s.id, recolor), root1, Plug(c, RotL(s, recolor)))
    ensures Entries(Plug(c, RotL(s, recolor))) == Entries(Plug(c, s))
  {
    var r := RotL(s, recolor);
    RotLLinked(n0, root0, c, s, node, recolor);
    RotLKeeps(s, recolor);
    PlugEntries(c, s);
    PlugEntries(c, r);
    PlugUnique(c, s);
    PlugUnique(c, r);
    if !c.Top? {
      PlugRoot(c, s, r);
    }
  }
}
