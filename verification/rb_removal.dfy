/**
 * What `remove` finds in the arena and why each of its writes keeps the
 * arena spelling out a red-black search tree: the colour tests on child
 * pointers (the sentinel is neither red nor black), the shape of a node with
 * at most one child, cutting a leaf off its parent, and the entries after
 * the in-order successor takes the removed node's place.
 */
module RbRemoval {
  import opened ByteKeys
  import opened Assoc
  import opened RbShape
  import opened RbSearch
  import opened RbInsertRules
  import opened RbDeleteRules
  import opened RbArena

  /** `x.color == Colors.RED` for the node at index `i`; the sentinel's colour is `NIL`. */
  predicate RedAt<V>(nodes: seq<Node<V>>, i: int) {
    0 <= i < |nodes| && nodes[i].color == Red
  }

  /** `x.color == Colors.BLACK` for the node at index `i`. */
  predicate BlackAt<V>(nodes: seq<Node<V>>, i: int) {
    0 <= i < |nodes| && nodes[i].color == Black
  }

  /** Every record keeps its key and payload, except possibly the one at `except`. */
  ghost predicate SameLabels<V>(n0: seq<Node<V>>, n1: seq<Node<V>>, except: int) {
    |n1| == |n0| && forall i :: 0 <= i < |n0| && i != except ==> n1[i].key == n0[i].key && n1[i].item == n0[i].item
  }

  /** Rewriting one record with its key and payload kept. */
  lemma KeepLabel<V>(n0: seq<Node<V>>, n1: seq<Node<V>>, i: int, r: Node<V>)
    requires SameLabels(n0, n1, NIL) && 0 <= i < |n1| && r.key == n1[i].key && r.item == n1[i].item
    ensures SameLabels(n0, n1[i := r], NIL)
  {
  }

  /** Keeping every label is transitive. */
  lemma SameLabelsTrans<V>(n0: seq<Node<V>>, n1: seq<Node<V>>, n2: seq<Node<V>>, except: int)
    requires SameLabels(n0, n1, NIL) && SameLabels(n1, n2, except)
    ensures SameLabels(n0, n2, except)
  {
  }

  /** `__update_parent` rewrites links only. */
  lemma ReparentedLabels<V>(n0: seq<Node<V>>, node: nat, oldChild: nat, newParent: int)
    requires node < |n0| && oldChild < |n0| && InArena(n0, newParent) && node != newParent
    ensures SameLabels(n0, Reparented(n0, node, oldChild, newParent), NIL)
  {
  }

  /** `_right_rotation` rewrites links and colours only. */
  lemma RightRotatedLabels<V>(n0: seq<Node<V>>, node: int, parent: nat, grandfather: nat, recolor: bool)
    requires RotatableRight(n0, node, parent, grandfather, recolor)
    ensures SameLabels(n0, RightRotated(n0, node, parent, grandfather, recolor), NIL)
  {
    var n1 := Reparented(n0, parent, grandfather, n0[grandfather].parent);
    ReparentedLabels(n0, parent, grandfather, n0[grandfather].parent);
    var oldRight := n1[parent].right;
    var n2 := n1[parent := n1[parent].(right := grandfather)];
    KeepLabel(n0, n1, parent, n1[parent].(right := grandfather));
    var n3 := n2[grandfather := n2[grandfather].(parent := parent)];
    KeepLabel(n0, n2, grandfather, n2[grandfather].(parent := parent));
    var n4 := n3[grandfather := n3[grandfather].(left := oldRight)];
    KeepLabel(n0, n3, grandfather, n3[grandfather].(left := oldRight));
    var n5 := if oldRight != NIL then n4[oldRight := n4[oldRight].(parent := grandfather)] else n4;
    if oldRight != NIL {
      KeepLabel(n0, n4, oldRight, n4[oldRight].(parent := grandfather));
    }
    if recolor {
      var n6 := n5[parent := n5[parent].(color := Black)];
      KeepLabel(n0, n5, parent, n5[parent].(color := Black));
      var n7 := n6[node := n6[node].(color := Red)];
      KeepLabel(n0, n6, node, n6[node].(color := Red));
      KeepLabel(n0, n7, grandfather, n7[grandfather].(color := Red));
    }
  }

  /** `_left_rotation` rewrites links and colours only. */
  lemma LeftRotatedLabels<V>(n0: seq<Node<V>>, node: int, parent: nat, grandfather: nat, recolor: bool)
    requires RotatableLeft(n0, node, parent, grandfather, recolor)
    ensures SameLabels(n0, LeftRotated(n0, node, parent, grandfather, recolor), NIL)
  {
    var n1 := Reparented(n0, parent, grandfather, n0[grandfather].parent);
    ReparentedLabels(n0, parent, grandfather, n0[grandfather].parent);
    var oldLeft := n1[parent].left;
    var n2 := n1[parent := n1[parent].(left := grandfather)];
    KeepLabel(n0, n1, parent, n1[parent].(left := grandfather));
    var n3 := n2[grandfather := n2[grandfather].(parent := parent)];
    KeepLabel(n0, n2, grandfather, n2[grandfather].(parent := parent));
    var n4 := n3[grandfather := n3[grandfather].(right := oldLeft)];
    KeepLabel(n0, n3, grandfather, n3[grandfather].(right := oldLeft));
    var n5 := if oldLeft != NIL then n4[oldLeft := n4[oldLeft].(parent := grandfather)] else n4;
    if oldLeft != NIL {
      KeepLabel(n0, n4, oldLeft, n4[oldLeft].(parent := grandfather));
    }
    if recolor {
      var n6 := n5[parent := n5[parent].(color := Black)];
      KeepLabel(n0, n5, parent, n5[parent].(color := Black));
      var n7 := n6[node := n6[node].(color := Red)];
      KeepLabel(n0, n6, node, n6[node].(color := Red));
      KeepLabel(n0, n7, grandfather, n7[grandfather].(color := Red));
    }
  }

  /** The colour tests on a linked subtree and on its children agree with the tree. */
  lemma ColourAt<V>(nodes: seq<Node<V>>, t: Tree<V>, p: int)
    requires Linked(nodes, t, p)
    ensures RedAt(nodes, RootId(t)) <==> IsRed(t)
    ensures BlackAt(nodes, RootId(t)) <==> t.Branch? && t.color == Black
    ensures t.Branch? ==>
      t.id < |nodes| && nodes[t.id].left == RootId(t.left) && nodes[t.id].right == RootId(t.right) &&
      (RedAt(nodes, RootId(t.left)) <==> IsRed(t.left)) && (RedAt(nodes, RootId(t.right)) <==> IsRed(t.right))
  {
    if t.Branch? {
      assert Linked(nodes, t.left, t.id) && Linked(nodes, t.right, t.id);
    }
  }

  /** The index of the root is that of the node at the hole exactly when the hole is at the top. */
  lemma AtRoot<V>(nodes: seq<Node<V>>, root: int, c: Ctx<V>, s: Tree<V>)
    requires Represents(nodes, root, Plug(c, s)) && s.Branch?
    ensures root == s.id <==> c.Top?
  {
    if !c.Top? {
      PlugRootIn(c, s);
      PlugUnique(c, s);
    }
  }

  /**
   * The records around the node at the hole that the fix-up cases read: its
   * parent's record, the side it hangs on, and the sibling subtree linked
   * below the parent.
   */
  lemma FixView<V>(nodes: seq<Node<V>>, root: int, c: Ctx<V>, s: Tree<V>)
    requires Represents(nodes, root, Plug(c, s)) && s.Branch? && !c.Top?
    ensures s.id < |nodes| && nodes[s.id].parent == c.id && nodes[s.id].key == s.key
    ensures c.id < |nodes| && nodes[c.id].key == c.key && (c.InLeft? <==> Less(s.key, c.key))
    ensures nodes[c.id].left == (if c.InLeft? then s.id else RootId(c.left))
    ensures nodes[c.id].right == (if c.InLeft? then RootId(c.right) else s.id)
    ensures RedAt(nodes, c.id) <==> c.color == Red
    ensures BlackAt(nodes, c.id) <==> c.color == Black
    ensures Linked(nodes, Sibling(c), c.id)
  {
    LinkedRoot(nodes, c, s);
    PlugFill(c, s);
    LinkedRoot(nodes, c.up, Fill(c, s));
    HoleSide(c, s);
  }

  /**
   * `_remove_leaf` on the records: clearing the parent's child pointer to a
   * leaf removes the leaf's entry and keeps the arena a search tree.
   */
  lemma LeafCut<V>(nodes: seq<Node<V>>, root: int, c: Ctx<V>, s: Tree<V>)
    requires Represents(nodes, root, Plug(c, s)) && !c.Top?
    requires s.Branch? && s.left.Leaf? && s.right.Leaf?
    ensures s.id < |nodes| && nodes[s.id].parent == c.id && nodes[s.id].key == s.key
    ensures c.id < |nodes| && nodes[c.id].key == c.key && (c.InLeft? <==> Less(s.key, c.key))
    ensures Represents(nodes[c.id := SetChild(nodes[c.id], c, NIL)], root, Plug(c, Leaf))
    ensures Entries(Plug(c, Leaf)) == Delete(Entries(Plug(c, s)), s.key)
    ensures Ids(Plug(c, Leaf)) == Ids(Plug(c, s)) - {s.id}
  {
    FixView(nodes, root, c, s);
    LeafCutLinks(nodes, c, s);
    LeafCutEntries(c, s);
    PlugRoot(c, s, Leaf);
  }

  lemma LeafCutLinks<V>(nodes: seq<Node<V>>, c: Ctx<V>, s: Tree<V>)
    requires Linked(nodes, Plug(c, s), NIL) && Unique(Plug(c, s)) && !c.Top?
    requires s.Branch? && s.left.Leaf? && s.right.Leaf?
    ensures c.id < |nodes|
    ensures Linked(nodes[c.id := SetChild(nodes[c.id], c, NIL)], Plug(c, Leaf), NIL)
    ensures Unique(Plug(c, Leaf)) && Ids(Plug(c, Leaf)) == Ids(Plug(c, s)) - {s.id}
  {
    LinkedRoot(nodes, c, s);
    PlugUnique(c, s);
    var n1 := nodes[c.id := SetChild(nodes[c.id], c, NIL)];
    Relink(nodes, n1, c, s.id, NIL);
    PlugLinked(n1, c, Leaf);
    PlugUnique(c, Leaf);
    PlugIds(c, s);
    PlugIds(c, Leaf);
  }

  lemma LeafCutEntries<V>(c: Ctx<V>, s: Tree<V>)
    requires Sorted(Entries(Plug(c, s))) && s.Branch? && s.left.Leaf? && s.right.Leaf?
    ensures Entries(Plug(c, Leaf)) == Delete(Entries(Plug(c, s)), s.key) && Sorted(Entries(Plug(c, Leaf)))
  {
    PlugLeafEntries(c);
    PlugSingleEntries(c, s);
    DeleteSorted(Before(c), (s.key, s.item), After(c));
  }

  /**
   * A node with at most one child in a red-black tree: the child, if any, is
   * a red leaf and the node itself is black.
   */
  lemma OneChildShape<V>(c: Ctx<V>, s: Tree<V>)
    requires RedBlack(Plug(c, s)) && s.Branch? && (s.left.Leaf? || s.right.Leaf?)
    ensures s.left.Branch? ==> s.color == Black && s.left.color == Red && s.left.left.Leaf? && s.left.right.Leaf?
    ensures s.right.Branch? ==> s.color == Black && s.right.color == Red && s.right.left.Leaf? && s.right.right.Leaf?
  {
    PlugBalanced(c, s);
    PlugRedOk(c, s);
  }

  /** Cutting off a red leaf keeps the red-black rules. */
  lemma RedLeafCut<V>(c: Ctx<V>, s: Tree<V>)
    requires RedBlack(Plug(c, s)) && !c.Top? && s.Branch? && s.left.Leaf? && s.right.Leaf? && s.color == Red
    ensures RedBlack(Plug(c, Leaf))
  {
    PlugBalanced(c, s);
    PlugRedOk(c, s);
    PlugBalanced(c, Leaf);
    PlugRedOk(c, Leaf);
    CtxRedOkBlackHole(c, true);
    PlugRoot(c, s, Leaf);
  }

  /**
   * The root with one child: the child, repainted black and with no parent,
   * is the whole tree.
   */
  lemma RootChild<V>(nodes: seq<Node<V>>, s: Tree<V>, child: Tree<V>)
    requires s.Branch? && Represents(nodes, s.id, s) && RedBlack(s) && (s.left.Leaf? || s.right.Leaf?)
    requires child == (if s.left.Branch? then s.left else s.right) && child.Branch?
    ensures child.id < |nodes|
    ensures Represents(nodes[child.id := nodes[child.id].(parent := NIL, color := Black)], child.id, Paint(child, Black))
    ensures RedBlack(Paint(child, Black))
    ensures Entries(Paint(child, Black)) == Delete(Entries(s), s.key)
  {
    assert Linked(nodes, child, s.id);
    var n1 := nodes[child.id := nodes[child.id].(parent := NIL, color := Black)];
    LinkedRetop(nodes, n1, child, s.id, Black, NIL);
    PaintKeeps(child, Black);
    if s.left.Branch? {
      assert Entries(s) == Entries(child) + [(s.key, s.item)] + [];
      DeleteSorted(Entries(child), (s.key, s.item), []);
      assert Entries(child) + [] == Entries(child);
    } else {
      assert Entries(s) == [] + [(s.key, s.item)] + Entries(child);
      DeleteSorted([], (s.key, s.item), Entries(child));
      assert [] + Entries(child) == Entries(child);
    }
  }

  /**
   * A black node whose only child is red takes over the child's entry and
   * drops it: the node becomes a black leaf.
   */
  lemma Absorb<V>(nodes: seq<Node<V>>, root: int, c: Ctx<V>, s: Tree<V>, child: Tree<V>)
    requires Represents(nodes, root, Plug(c, s)) && RedBlack(Plug(c, s)) && s.Branch? && (s.left.Leaf? || s.right.Leaf?)
    requires child == (if s.left.Branch? then s.left else s.right) && IsRed(child)
    ensures child.id < |nodes| && nodes[child.id] == Node(child.key, child.item, Red, s.id, NIL, NIL)
    ensures s.id < |nodes| && nodes[s.id].left == RootId(s.left) && nodes[s.id].right == RootId(s.right)
    ensures
      var s2 := Branch(Leaf, s.id, child.key, child.item, Black, Leaf);
      Represents(nodes[s.id := nodes[s.id].(key := child.key, item := child.item, left := NIL, right := NIL)], root, Plug(c, s2)) &&
      RedBlack(Plug(c, s2)) &&
      Entries(Plug(c, s2)) == Delete(Entries(Plug(c, s)), s.key) &&
      Ids(Plug(c, s)) - Ids(s) <= Ids(Plug(c, s2))
  {
    var s2 := Branch(Leaf, s.id, child.key, child.item, Black, Leaf);
    OneChildShape(c, s);
    AbsorbLinks(nodes, c, s, child);
    AbsorbEntries(c, s, child);
    if !c.Top? {
      PlugRoot(c, s, s2);
    }
    assert s.color == Black && BH(child) == 0;
    assert BH(s.left) == 0;
    assert BH(s) == 1;
    AbsorbShape(c, s, s2);
  }

  lemma AbsorbLinks<V>(nodes: seq<Node<V>>, c: Ctx<V>, s: Tree<V>, child: Tree<V>)
    requires Linked(nodes, Plug(c, s), NIL) && Unique(Plug(c, s)) && s.Branch? && s.color == Black
    requires child == (if s.left.Branch? then s.left else s.right) && child.Branch? && child.color == Red
    requires child.left.Leaf? && child.right.Leaf? && (s.left.Leaf? || s.right.Leaf?)
    ensures child.id < |nodes| && nodes[child.id] == Node(child.key, child.item, Red, s.id, NIL, NIL)
    ensures s.id < |nodes| && nodes[s.id].left == RootId(s.left) && nodes[s.id].right == RootId(s.right)
    ensures
      var s2 := Branch(Leaf, s.id, child.key, child.item, Black, Leaf);
      Linked(nodes[s.id := nodes[s.id].(key := child.key, item := child.item, left := NIL, right := NIL)], Plug(c, s2), NIL) &&
      Unique(Plug(c, s2)) && Ids(Plug(c, s)) - Ids(s) <= Ids(Plug(c, s2))
  {
    var s2 := Branch(Leaf, s.id, child.key, child.item, Black, Leaf);
    LinkedRoot(nodes, c, s);
    assert Linked(nodes, child, s.id);
    var n1 := nodes[s.id := nodes[s.id].(key := child.key, item := child.item, left := NIL, right := NIL)];
    PlugUnique(c, s);
    assert Linked(n1, s2, HoleParent(c));
    if !c.Top? {
      assert nodes[c.id] == SetChild(nodes[c.id], c, s.id);
    }
    ReplaceAtHole(nodes, n1, c, s, s2, {s.id});
    PlugUnique(c, s2);
    PlugIds(c, s);
    PlugIds(c, s2);
  }

  lemma AbsorbEntries<V>(c: Ctx<V>, s: Tree<V>, child: Tree<V>)
    requires Sorted(Entries(Plug(c, s))) && s.Branch?
    requires child == (if s.left.Branch? then s.left else s.right) && child.Branch?
    requires child.left.Leaf? && child.right.Leaf? && (s.left.Leaf? || s.right.Leaf?)
    ensures
      var s2 := Branch(Leaf, s.id, child.key, child.item, Black, Leaf);
      Entries(Plug(c, s2)) == Delete(Entries(Plug(c, s)), s.key) && Sorted(Entries(Plug(c, s2)))
  {
    var s2 := Branch(Leaf, s.id, child.key, child.item, Black, Leaf);
    PlugSingleEntries(c, s2);
    PlugEntries(c, s);
    var e, f := (s.key, s.item), (child.key, child.item);
    if s.left.Branch? {
      assert Entries(s) == [f] + [e];
      assert Entries(Plug(c, s)) == (Before(c) + [f]) + [e] + After(c);
      DeleteSorted(Before(c) + [f], e, After(c));
    } else {
      assert Entries(s) == [e] + [f];
      assert Entries(Plug(c, s)) == Before(c) + [e] + ([f] + After(c));
      DeleteSorted(Before(c), e, [f] + After(c));
    }
  }

  lemma AbsorbShape<V>(c: Ctx<V>, s: Tree<V>, s2: Tree<V>)
    requires RedBlack(Plug(c, s)) && s.Branch? && s.color == Black && BH(s) == 1 && s2.Branch? && s2.color == Black
    requires s2.left.Leaf? && s2.right.Leaf? && (!c.Top? ==> IsRed(Plug(c, s2)) == IsRed(Plug(c, s)))
    ensures RedBlack(Plug(c, s2))
  {
    PlugBalanced(c, s);
    PlugBalanced(c, s2);
    PlugRedOk(c, s);
    PlugRedOk(c, s2);
  }

  /** The path down to the node with index `id`. */
  lemma {:induction false} Locate<V>(c0: Ctx<V>, t: Tree<V>, id: nat) returns (c: Ctx<V>, s: Tree<V>)
    requires id in Ids(t)
    ensures Plug(c, s) == Plug(c0, t) && s.Branch? && s.id == id
    decreases t
  {
    if t.id == id {
      c, s := c0, t;
    } else if id in Ids(t.left) {
      c, s := Locate(LeftOf(c0, t), t.left, id);
    } else {
      c, s := Locate(RightOf(c0, t), t.right, id);
    }
  }

  /**
   * Removing the successor `f` of `e` and then writing `f` over `e`'s entry
   * leaves the sorted entries with `e` deleted.
   */
  lemma CopySuccessor<T>(x: seq<Entry<T>>, e: Entry<T>, f: Entry<T>, y: seq<Entry<T>>, a: seq<Entry<T>>, b: seq<Entry<T>>)
    requires Sorted(x + [e] + [f] + y)
    requires a + [e] + b == Delete(x + [e] + [f] + y, f.0)
    ensures a + [f] + b == Delete(x + [e] + [f] + y, e.0) && Sorted(a + [f] + b)
  {
    var es := x + [e] + [f] + y;
    DeleteSorted(x + [e], f, y);
    SplitUnique(a, x, e, b, y);
    assert es == x + [e] + ([f] + y);
    DeleteSorted(x, e, [f] + y);
    assert x + ([f] + y) == a + [f] + b;
  }
}
