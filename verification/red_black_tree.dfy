/**
 * The red-black tree of the storage engine: the memtable (key -> value) and
 * the sparse index (key -> offset and segment) are both instances of it.
 *
 * Nodes live in an arena `nodes`, addressed by index; `NIL` (-1) stands for
 * the shared `NIL_LEAF` sentinel and for a missing parent or root. The ghost
 * field `tree` is the tree the arena spells out; `Contents()` is its entries
 * in key order, and every operation is specified against `Contents()`.
 */
module RedBlackTrees {
  import opened Wrappers
  import opened ByteKeys
  import opened Assoc
  import opened RbShape
  import opened RbSearch
  import opened RbInsertRules
  import opened RbArena
  import opened RbDeleteRules
  import opened RbRemoval

  datatype Direction = L | R

  /** The payload `add` leaves at a key: only the value changes when the key was present. */
  function Stored<V>(prior: Option<Item<V>>, value: V, offset: Option<nat>, segment: Option<string>): Item<V> {
    match prior
    case None => Item(value, offset, segment)
    case Some(it) => it.(value := value)
  }

  class RedBlackTree<V> {
    var nodes: seq<Node<V>>
    var root: int
    var count: nat
    var totalBytes: int
    ghost var tree: Tree<V>

    /** The arena spells out a red-black search tree, and `count` is its size. */
    ghost predicate Valid()
      reads this
    {
      Represents(nodes, root, tree) && RedBlack(tree) && count == Size(tree)
    }

    /** The stored entries in ascending key order. */
    ghost function Contents(): seq<Entry<Item<V>>>
      reads this
    {
      Entries(tree)
    }

    constructor ()
      ensures Valid() && Contents() == [] && count == 0 && totalBytes == 0 && root == NIL
    {
      nodes := [];
      root := NIL;
      count := 0;
      totalBytes := 0;
      tree := Leaf;
    }

    /** `find_node`: the index of the node holding `key`, or NIL. */
    method FindNode(key: Key) returns (n: int)
      requires Valid()
      ensures n == NIL <==> key !in KeysOf(Contents())
      ensures n != NIL ==> 0 <= n < |nodes| && nodes[n].key == key && Lookup(Contents(), key) == Some(nodes[n].item)
      ensures n != NIL ==> n in Ids(tree)
    {
      n := root;
      ghost var c: Ctx<V> := Top;
      ghost var sub := tree;
      while true
        invariant Plug(c, sub) == tree && n == RootId(sub) && Brackets(c, key)
        invariant Linked(nodes, sub, HoleParent(c))
        decreases sub
      {
        if n == NIL {
          MissAtLeaf(c, key);
          return;
        }
        if Less(nodes[n].key, key) {
          StepRight(c, sub, key);
          c, sub := RightOf(c, sub), sub.right;
          n := nodes[n].right;
        } else if Less(key, nodes[n].key) {
          StepLeft(c, sub, key);
          c, sub := LeftOf(c, sub), sub.left;
          n := nodes[n].left;
        } else {
          NeitherLess(nodes[n].key, key);
          HitAtNode(c, sub);
          PlugIds(c, sub);
          return;
        }
      }
    }

    /** `contains`. */
    method Contains(key: Key) returns (r: bool)
      requires Valid()
      ensures r <==> key in KeysOf(Contents())
    {
      var n := FindNode(key);
      r := n != NIL;
    }

    /** `floor`: the greatest stored key not above `key`. */
    method Floor(key: Key) returns (r: Option<Key>)
      requires Valid()
      ensures IsFloor(Contents(), key, r)
    {
      if root == NIL {
        return None;
      }
      var last: Option<Key> := if Less(key, nodes[root].key) then None else Some(nodes[root].key);
      ghost var first := last;
      var n := root;
      ghost var c: Ctx<V> := Top;
      ghost var sub := tree;
      while true
        invariant Plug(c, sub) == tree && n == RootId(sub) && Brackets(c, key)
        invariant Linked(nodes, sub, HoleParent(c))
        invariant last == if c.Top? then first else LastKey(Before(c))
        decreases sub
      {
        if n == NIL {
          FloorAtLeaf(tree, c, key);
          break;
        }
        if nodes[n].key == key {
          last := Some(key);
          BoundAtNode(tree, c, sub);
          break;
        } else if Less(nodes[n].key, key) {
          last := Some(nodes[n].key);
          DescendRight(tree, c, sub, key);
          c, sub := RightOf(c, sub), sub.right;
          n := nodes[n].right;
        } else {
          LessTotal(nodes[n].key, key);
          DescendLeft(tree, c, sub, key);
          c, sub := LeftOf(c, sub), sub.left;
          n := nodes[n].left;
        }
      }
      return last;
    }

    /** `ceil`: the least stored key not below `key`. */
    method Ceil(key: Key) returns (r: Option<Key>)
      requires Valid()
      ensures IsCeil(Contents(), key, r)
    {
      if root == NIL {
        return None;
      }
      var last: Option<Key> := if Less(nodes[root].key, key) then None else Some(nodes[root].key);
      ghost var first := last;
      var n := root;
      ghost var c: Ctx<V> := Top;
      ghost var sub := tree;
      while true
        invariant Plug(c, sub) == tree && n == RootId(sub) && Brackets(c, key)
        invariant Linked(nodes, sub, HoleParent(c))
        invariant last == if c.Top? then first else FirstKey(After(c))
        decreases sub
      {
        if n == NIL {
          CeilAtLeaf(tree, c, key);
          break;
        }
        if nodes[n].key == key {
          last := Some(key);
          BoundAtNode(tree, c, sub);
          break;
        } else if Less(nodes[n].key, key) {
          DescendRight(tree, c, sub, key);
          c, sub := RightOf(c, sub), sub.right;
          n := nodes[n].right;
        } else {
          last := Some(nodes[n].key);
          LessTotal(nodes[n].key, key);
          DescendLeft(tree, c, sub, key);
          c, sub := LeftOf(c, sub), sub.left;
          n := nodes[n].left;
        }
      }
      return last;
    }

    /**
     * `_find_parent`: the node holding `key` (direction None), or the node
     * under which `key` belongs, with the side its empty child slot is on.
     */
    method FindParent(key: Key) returns (parent: int, dir: Option<Direction>, ghost c: Ctx<V>, ghost sub: Tree<V>)
      requires Valid() && root != NIL
      ensures Plug(c, sub) == tree && 0 <= parent < |nodes|
      ensures dir.None? ==> sub.Branch? && sub.id == parent && sub.key == key
      ensures dir.Some? ==>
        sub.Leaf? && !c.Top? && c.id == parent && Brackets(c, key) && (dir == Some(L) <==> c.InLeft?)
    {
      var p := root;
      c, sub := Top, tree;
      while true
        invariant Plug(c, sub) == tree && p == RootId(sub) && sub.Branch? && Brackets(c, key)
        invariant Linked(nodes, sub, HoleParent(c))
        decreases sub
      {
        if key == nodes[p].key {
          return p, None, c, sub;
        } else if Less(nodes[p].key, key) {
          StepRight(c, sub, key);
          if nodes[p].right == NIL {
            return p, Some(R), RightOf(c, sub), Leaf;
          }
          c, sub := RightOf(c, sub), sub.right;
          p := nodes[p].right;
        } else {
          LessTotal(nodes[p].key, key);
          StepLeft(c, sub, key);
          if nodes[p].left == NIL {
            return p, Some(L), LeftOf(c, sub), Leaf;
          }
          c, sub := LeftOf(c, sub), sub.left;
          p := nodes[p].left;
        }
      }
    }

    /**
     * `add`: binds `key` to `value`. A present key keeps its node, colour,
     * offset and segment and only has its value replaced; an absent key gets a
     * new node (black if the tree was empty, else red and rebalanced).
     */
    method Add(key: Key, value: V, offset: Option<nat>, segment: Option<string>)
      requires Valid()
      modifies this`nodes, this`root, this`count, this`tree
      ensures Valid()
      ensures Contents() == Insert(old(Contents()), key, Stored(Lookup(old(Contents()), key), value, offset, segment))
      ensures count == old(count) + (if key in KeysOf(old(Contents())) then 0 else 1)
      ensures old(root) == NIL ==> count == 1 && tree == Branch(Leaf, root, key, Item(value, offset, segment), Black, Leaf)
      ensures key in KeysOf(old(Contents())) ==> root == old(root) && OnlyValuesDiffer(old(nodes), nodes)
    {
      if root == NIL {
        PlantKeeps(nodes, tree, key, Item(value, offset, segment));
        assert key !in KeysOf(Contents());
        nodes := nodes + [Node(key, Item(value, offset, segment), Black, NIL, NIL, NIL)];
        root := |nodes| - 1;
        tree := Branch(Leaf, root, key, Item(value, offset, segment), Black, Leaf);
        count := count + 1;
        return;
      }
      var parent, dir, c, sub := FindParent(key);
      if dir.None? {
        ghost var it := sub.item.(value := value);
        OverwriteKeeps(nodes, root, c, sub, it);
        ValueWrite(nodes, parent, value);
        nodes := nodes[parent := nodes[parent].(item := nodes[parent].item.(value := value))];
        tree := Plug(c, sub.(item := it));
        return;
      }
      assert key !in KeysOf(Entries(Plug(c, Leaf))) by {
        MissAtLeaf(c, key);
      }
      tree := Attach(parent, dir.value, key, Item(value, offset, segment), c);
      count := count + 1;
    }

    /**
     * The rest of `add` for an absent key: a red node under `parent`, on the
     * side the search ended at, then `_try_rebalance`.
     */
    method Attach(parent: int, dir: Direction, key: Key, it: Item<V>, ghost c: Ctx<V>) returns (ghost t: Tree<V>)
      requires Represents(nodes, root, Plug(c, Leaf)) && RedBlack(Plug(c, Leaf))
      requires !c.Top? && c.id == parent < |nodes| && Brackets(c, key) && (dir == L <==> c.InLeft?)
      modifies this`nodes, this`root
      ensures Represents(nodes, root, t) && RedBlack(t)
      ensures Entries(t) == Insert(Entries(Plug(c, Leaf)), key, it)
      ensures Size(t) == Size(Plug(c, Leaf)) + 1
    {
      ghost var n0 := nodes;
      var id := |nodes|;
      nodes := nodes + [Node(key, it, Red, parent, NIL, NIL)];
      if dir == L {
        nodes := nodes[parent := nodes[parent].(left := id)];
      } else {
        nodes := nodes[parent := nodes[parent].(right := id)];
      }
      ghost var s := Branch(Leaf, id, key, it, Red, Leaf);
      AttachKeeps(n0, nodes, root, c, s);
      t := TryRebalance(id, c, s);
      SizeEntries(Plug(c, Leaf));
      SizeEntries(t);
    }

    /**
     * `_try_rebalance(node)`: `node` is red and its subtree `s` sound; if its
     * parent is red too, rotate (black uncle) or recolour (red uncle).
     */
    method TryRebalance(node: int, ghost c: Ctx<V>, ghost s: Tree<V>) returns (ghost t: Tree<V>)
      requires Represents(nodes, root, Plug(c, s)) && InsInv(c, s) && node == s.id
      modifies this`nodes, this`root
      ensures Represents(nodes, root, t) && RedBlack(t) && Entries(t) == Entries(Plug(c, s))
      decreases Depth(c), 0
    {
      RebalanceView(nodes, root, c, s);
      var parent := nodes[node].parent;
      if parent == NIL || nodes[parent].parent == NIL || nodes[node].color != Red || nodes[parent].color != Red {
        InsDone(c, s);
        return Plug(c, s);
      }
      ghost var cg := c.up.up;
      ghost var g := Fill(c.up, Fill(c, s));
      var grandfather := nodes[parent].parent;
      var key := nodes[node].key;
      var nodeDir := if Less(key, nodes[parent].key) then L else R;
      var parentDir := if Less(nodes[parent].key, nodes[grandfather].key) then L else R;
      var uncle := if parentDir == L then nodes[grandfather].right else nodes[grandfather].left;
      if uncle == NIL || nodes[uncle].color == Black {
        InsRotate(c, s);
        Restructure(node, parent, grandfather, nodeDir, parentDir, c, s);
        t := Plug(cg, Restructured(c, s));
      } else {
        InsToRecolor(c, s);
        assert Depth(c) == Depth(cg) + 2;
        t := Recolor(grandfather, cg, g);
      }
    }

    /**
     * The black-uncle branch of `_try_rebalance`: a right or left rotation at
     * the grandfather (LL, RR), preceded by the opposite rotation at the
     * parent when node and parent lean different ways (LR, RL).
     */
    method Restructure(node: int, parent: int, grandfather: int, nodeDir: Direction, parentDir: Direction, ghost c: Ctx<V>, ghost s: Tree<V>)
      requires Represents(nodes, root, Plug(c, s)) && s.Branch? && !c.Top? && !c.up.Top?
      requires node == s.id && parent == c.id && grandfather == c.up.id
      requires (nodeDir == L <==> c.InLeft?) && (parentDir == L <==> c.up.InLeft?)
      modifies this`nodes, this`root
      ensures Represents(nodes, root, Plug(c.up.up, Restructured(c, s)))
      ensures Entries(Plug(c.up.up, Restructured(c, s))) == Entries(Plug(c, s))
    {
      ghost var cg, g := c.up.up, Fill(c.up, Fill(c, s));
      PlugFill(c, s);
      PlugFill(c.up, Fill(c, s));
      if nodeDir == L && parentDir == L {
        RightRotation(node, parent, grandfather, true, cg, g);
      } else if nodeDir == R && parentDir == R {
        LeftRotation(node, parent, grandfather, true, cg, g);
      } else if nodeDir == L && parentDir == R {
        RightRotation(NIL, node, parent, false, c.up, Fill(c, s));
        PlugFill(c.up, RotR(Fill(c, s), false));
        LeftRotation(parent, node, grandfather, true, cg, Fill(c.up, RotR(Fill(c, s), false)));
      } else {
        LeftRotation(NIL, node, parent, false, c.up, Fill(c, s));
        PlugFill(c.up, RotL(Fill(c, s), false));
        RightRotation(parent, node, grandfather, true, cg, Fill(c.up, RotL(Fill(c, s), false)));
      }
    }

    /** `_recolor(grandfather)`: both children black, the node red unless it is the root; then rebalance it. */
    method Recolor(grandfather: int, ghost c: Ctx<V>, ghost g: Tree<V>) returns (ghost t: Tree<V>)
      requires Represents(nodes, root, Plug(c, g)) && RecolorPre(c, g) && grandfather == g.id
      modifies this`nodes, this`root
      ensures Represents(nodes, root, t) && RedBlack(t) && Entries(t) == Entries(Plug(c, g))
      decreases Depth(c), 1
    {
      LinkedRoot(nodes, c, g);
      var right := nodes[grandfather].right;
      PaintRepresents(nodes, root, RightOf(c, g), g.right, Black);
      nodes := nodes[right := nodes[right].(color := Black)];
      ghost var g1 := g.(right := Paint(g.right, Black));
      var left := nodes[grandfather].left;
      PaintRepresents(nodes, root, LeftOf(c, g1), g1.left, Black);
      nodes := nodes[left := nodes[left].(color := Black)];
      ghost var g2 := g1.(left := Paint(g.left, Black));
      PlugUnique(c, g);
      if !c.Top? {
        PlugRootIn(c, g);
      }
      if grandfather != root {
        PaintRepresents(nodes, root, c, g2, Red);
        nodes := nodes[grandfather := nodes[grandfather].(color := Red)];
      }
      RecolorToIns(c, g);
      assert Plug(c, Recolored(g, c.Top?)) == if c.Top? then Plug(c, g2) else Plug(c, Paint(g2, Red));
      t := TryRebalance(grandfather, c, Recolored(g, c.Top?));
    }

    /**
     * `__update_parent`: `node` takes the place of `parentOldChild` under
     * `newParent`, on the side the key comparison picks, or becomes the root.
     */
    method UpdateParent(node: int, parentOldChild: int, newParent: int)
      requires 0 <= node < |nodes| && 0 <= parentOldChild < |nodes|
      requires InArena(nodes, newParent) && node != newParent
      modifies this`nodes, this`root
      ensures nodes == Reparented(old(nodes), node, parentOldChild, newParent)
      ensures root == if newParent == NIL then node else old(root)
    {
      nodes := nodes[node := nodes[node].(parent := newParent)];
      if newParent != NIL {
        if Less(nodes[parentOldChild].key, nodes[newParent].key) {
          nodes := nodes[newParent := nodes[newParent].(left := node)];
        } else {
          nodes := nodes[newParent := nodes[newParent].(right := node)];
        }
      } else {
        root := node;
      }
    }

    /**
     * `_right_rotation` at `grandfather` (the root of `s`): its left child
     * `parent` rises. With `toRecolor`, `parent` turns black and `node` (the
     * left child of `parent`) and `grandfather` red.
     */
    method RightRotation(node: int, parent: int, grandfather: int, toRecolor: bool, ghost c: Ctx<V>, ghost s: Tree<V>)
      requires Represents(nodes, root, Plug(c, s))
      requires s.Branch? && s.left.Branch? && grandfather == s.id && parent == s.left.id
      requires toRecolor ==> s.left.left.Branch? && node == s.left.left.id
      modifies this`nodes, this`root
      ensures RotatableRight(old(nodes), node, parent, grandfather, toRecolor)
      ensures nodes == RightRotated(old(nodes), node, parent, grandfather, toRecolor)
      ensures Represents(nodes, root, Plug(c, RotR(s, toRecolor)))
      ensures Entries(Plug(c, RotR(s, toRecolor))) == Entries(Plug(c, s))
    {
      RotRFinish(nodes, root, if c.Top? then parent else root, c, s, node, toRecolor);
      var grandGrandfather := nodes[grandfather].parent;
      UpdateParent(parent, grandfather, grandGrandfather);
      var oldRight := nodes[parent].right;
      nodes := nodes[parent := nodes[parent].(right := grandfather)];
      nodes := nodes[grandfather := nodes[grandfather].(parent := parent)];
      nodes := nodes[grandfather := nodes[grandfather].(left := oldRight)];
      if oldRight != NIL {
        nodes := nodes[oldRight := nodes[oldRight].(parent := grandfather)];
      }
      if toRecolor {
        nodes := nodes[parent := nodes[parent].(color := Black)];
        nodes := nodes[node := nodes[node].(color := Red)];
        nodes := nodes[grandfather := nodes[grandfather].(color := Red)];
      }
    }

    /** `_left_rotation`, the mirror image of `RightRotation`. */
    method LeftRotation(node: int, parent: int, grandfather: int, toRecolor: bool, ghost c: Ctx<V>, ghost s: Tree<V>)
      requires Represents(nodes, root, Plug(c, s))
      requires s.Branch? && s.right.Branch? && grandfather == s.id && parent == s.right.id
      requires toRecolor ==> s.right.right.Branch? && node == s.right.right.id
      modifies this`nodes, this`root
      ensures RotatableLeft(old(nodes), node, parent, grandfather, toRecolor)
      ensures nodes == LeftRotated(old(nodes), node, parent, grandfather, toRecolor)
      ensures Represents(nodes, root, Plug(c, RotL(s, toRecolor)))
      ensures Entries(Plug(c, RotL(s, toRecolor))) == Entries(Plug(c, s))
    {
      RotLFinish(nodes, root, if c.Top? then parent else root, c, s, node, toRecolor);
      var grandGrandfather := nodes[grandfather].parent;
      UpdateParent(parent, grandfather, grandGrandfather);
      var oldLeft := nodes[parent].left;
      nodes := nodes[parent := nodes[parent].(left := grandfather)];
      nodes := nodes[grandfather := nodes[grandfather].(parent := parent)];
      nodes := nodes[grandfather := nodes[grandfather].(right := oldLeft)];
      if oldLeft != NIL {
        nodes := nodes[oldLeft := nodes[oldLeft].(parent := grandfather)];
      }
      if toRecolor {
        nodes := nodes[parent := nodes[parent].(color := Black)];
        nodes := nodes[node := nodes[node].(color := Red)];
        nodes := nodes[grandfather := nodes[grandfather].(color := Red)];
      }
    }

    /** `_get_sibling`: the other child of `node`'s parent, and the side it hangs on. */
    method GetSibling(node: int, ghost c: Ctx<V>, ghost sub: Tree<V>) returns (sibling: int, direction: Direction)
      requires Represents(nodes, root, Plug(c, sub)) && sub.Branch? && sub.id == node && !c.Top?
      ensures sibling == RootId(Sibling(c)) && (direction == L <==> c.InRight?)
    {
      FixView(nodes, root, c, sub);
      var parent := nodes[node].parent;
      if !Less(nodes[node].key, nodes[parent].key) {
        sibling, direction := nodes[parent].left, L;
      } else {
        sibling, direction := nodes[parent].right, R;
      }
    }

    /** `_remove_leaf`: the parent's pointer to `leaf` becomes NIL, which deletes the leaf's key. */
    method RemoveLeaf(leaf: int, ghost c: Ctx<V>, ghost s: Tree<V>)
      requires Represents(nodes, root, Plug(c, s)) && !c.Top?
      requires s.Branch? && s.left.Leaf? && s.right.Leaf? && s.id == leaf
      modifies this`nodes
      ensures Represents(nodes, root, Plug(c, Leaf))
      ensures Entries(Plug(c, Leaf)) == Delete(Entries(Plug(c, s)), s.key)
      ensures Ids(Plug(c, Leaf)) == Ids(Plug(c, s)) - {leaf}
      ensures SameLabels(old(nodes), nodes, NIL)
    {
      LeafCut(nodes, root, c, s);
      var parent := nodes[leaf].parent;
      if !Less(nodes[leaf].key, nodes[parent].key) {
        KeepLabel(nodes, nodes, parent, nodes[parent].(right := NIL));
        nodes := nodes[parent := nodes[parent].(right := NIL)];
      } else {
        KeepLabel(nodes, nodes, parent, nodes[parent].(left := NIL));
        nodes := nodes[parent := nodes[parent].(left := NIL)];
      }
    }

    /**
     * Case 2 of `remove`'s fix-up, a red sibling: a rotation at the parent
     * raises the sibling; the parent turns red and the sibling black.
     */
    method RotateRedSibling(parent: int, sibling: int, direction: Direction, ghost c: Ctx<V>, ghost sub: Tree<V>, ghost pruned: Tree<V>)
      requires Represents(nodes, root, Plug(c, sub)) && !c.Top? && Short(c, pruned) && IsRed(Sibling(c))
      requires parent == c.id && sibling == Sibling(c).id && (direction == L <==> c.InRight?)
      modifies this`nodes, this`root
      ensures Short(Case2Ctx(c), pruned) && !IsRed(Sibling(Case2Ctx(c))) && CtxSize(Case2Ctx(c)) == CtxSize(c)
      ensures Represents(nodes, root, Plug(Case2Ctx(c), sub))
      ensures Entries(Plug(Case2Ctx(c), sub)) == Entries(Plug(c, sub))
      ensures Ids(Plug(Case2Ctx(c), sub)) == Ids(Plug(c, sub))
      ensures SameLabels(old(nodes), nodes, NIL)
    {
      ghost var n0 := nodes;
      Case2(c, pruned);
      SameIds(c, Case2Ctx(c), sub);
      PlugFill(c, sub);
      ghost var f := Fill(c, sub);
      if direction == L {
        RightRotation(NIL, sibling, parent, false, c.up, f);
        RightRotatedLabels(n0, NIL, sibling, parent, false);
        ghost var r := RotR(f, false);
        PaintRepresents(nodes, root, RightOf(c.up, r), r.right, Red);
        KeepLabel(n0, nodes, parent, nodes[parent].(color := Red));
        nodes := nodes[parent := nodes[parent].(color := Red)];
        ghost var r1 := r.(right := Paint(r.right, Red));
        assert Plug(RightOf(c.up, r), Paint(r.right, Red)) == Plug(c.up, r1);
        PaintRepresents(nodes, root, c.up, r1, Black);
        KeepLabel(n0, nodes, sibling, nodes[sibling].(color := Black));
        nodes := nodes[sibling := nodes[sibling].(color := Black)];
        assert Plug(c.up, Paint(r1, Black)) == Plug(Case2Ctx(c), sub);
      } else {
        LeftRotation(NIL, sibling, parent, false, c.up, f);
        LeftRotatedLabels(n0, NIL, sibling, parent, false);
        ghost var r := RotL(f, false);
        PaintRepresents(nodes, root, LeftOf(c.up, r), r.left, Red);
        KeepLabel(n0, nodes, parent, nodes[parent].(color := Red));
        nodes := nodes[parent := nodes[parent].(color := Red)];
        ghost var r1 := r.(left := Paint(r.left, Red));
        assert Plug(LeftOf(c.up, r), Paint(r.left, Red)) == Plug(c.up, r1);
        PaintRepresents(nodes, root, c.up, r1, Black);
        KeepLabel(n0, nodes, sibling, nodes[sibling].(color := Black));
        nodes := nodes[sibling := nodes[sibling].(color := Black)];
        assert Plug(c.up, Paint(r1, Black)) == Plug(Case2Ctx(c), sub);
      }
    }

    /** Case 3, black parent, sibling and nephews: the sibling turns red. */
    method PaintSiblingRed(sibling: int, ghost c: Ctx<V>, ghost sub: Tree<V>, ghost pruned: Tree<V>)
      requires Represents(nodes, root, Plug(c, sub)) && !c.Top? && Short(c, pruned) && c.color == Black
      requires Sibling(c).Branch? && Sibling(c).color == Black && sibling == Sibling(c).id
      requires !IsRed(Sibling(c).left) && !IsRed(Sibling(c).right)
      modifies this`nodes
      ensures Short(c.up, Fill(Case3Ctx(c), pruned)) && CtxSize(c.up) < CtxSize(c)
      ensures Represents(nodes, root, Plug(Case3Ctx(c), sub))
      ensures Entries(Plug(Case3Ctx(c), sub)) == Entries(Plug(c, sub))
      ensures Ids(Plug(Case3Ctx(c), sub)) == Ids(Plug(c, sub))
      ensures SameLabels(old(nodes), nodes, NIL)
    {
      Case3(c, pruned);
      SameIds(c, Case3Ctx(c), sub);
      PaintRepresents(nodes, root, SiblingCtx(c, sub), Sibling(c), Red);
      KeepLabel(nodes, nodes, sibling, nodes[sibling].(color := Red));
      nodes := nodes[sibling := nodes[sibling].(color := Red)];
      assert Plug(SiblingCtx(c, sub), Paint(Sibling(c), Red)) == Plug(Case3Ctx(c), sub);
    }

    /** Case 4, red parent, black sibling and nephews: parent and sibling swap colours. */
    method SwapColours(parent: int, sibling: int, ghost c: Ctx<V>, ghost sub: Tree<V>)
      requires Represents(nodes, root, Plug(c, sub)) && !c.Top? && c.color == Red && parent == c.id
      requires Sibling(c).Branch? && Sibling(c).color == Black && sibling == Sibling(c).id
      modifies this`nodes
      ensures Represents(nodes, root, Plug(Case4Ctx(c), sub))
      ensures Entries(Plug(Case4Ctx(c), sub)) == Entries(Plug(c, sub))
      ensures SameLabels(old(nodes), nodes, NIL)
    {
      ghost var n0 := nodes;
      PlugFill(c, sub);
      LinkedRoot(nodes, c.up, Fill(c, sub));
      LinkedRoot(nodes, SiblingCtx(c, sub), Sibling(c));
      var parentColour, siblingColour := nodes[parent].color, nodes[sibling].color;
      PaintRepresents(nodes, root, c.up, Fill(c, sub), siblingColour);
      KeepLabel(n0, nodes, parent, nodes[parent].(color := siblingColour));
      nodes := nodes[parent := nodes[parent].(color := siblingColour)];
      ghost var c1 := c.(color := Black);
      assert Plug(c.up, Paint(Fill(c, sub), Black)) == Plug(c1, sub);
      PaintRepresents(nodes, root, SiblingCtx(c1, sub), Sibling(c1), parentColour);
      KeepLabel(n0, nodes, sibling, nodes[sibling].(color := parentColour));
      nodes := nodes[sibling := nodes[sibling].(color := parentColour)];
      assert Plug(SiblingCtx(c1, sub), Paint(Sibling(c1), Red)) == Plug(Case4Ctx(c), sub);
    }

    /**
     * Case 5, red near nephew and non-red far nephew: a rotation at the
     * sibling raises the near nephew, which turns black; the old sibling
     * turns red.
     */
    method RotateNearNephew(sibling: int, closer: int, direction: Direction, ghost c: Ctx<V>, ghost sub: Tree<V>)
      requires Represents(nodes, root, Plug(c, sub)) && !c.Top? && Sibling(c).Branch? && Closer(c).Branch?
      requires sibling == Sibling(c).id && closer == Closer(c).id && (direction == L <==> c.InRight?)
      modifies this`nodes, this`root
      ensures Represents(nodes, root, Plug(Case5Ctx(c), sub))
      ensures Entries(Plug(Case5Ctx(c), sub)) == Entries(Plug(c, sub))
      ensures SameLabels(old(nodes), nodes, NIL)
    {
      ghost var n0 := nodes;
      ghost var sc, sib := SiblingCtx(c, sub), Sibling(c);
      if direction == L {
        LeftRotation(NIL, closer, sibling, false, sc, sib);
        LeftRotatedLabels(n0, NIL, closer, sibling, false);
        ghost var r := RotL(sib, false);
        PaintRepresents(nodes, root, sc, r, Black);
        KeepLabel(n0, nodes, closer, nodes[closer].(color := Black));
        nodes := nodes[closer := nodes[closer].(color := Black)];
        ghost var r1 := Paint(r, Black);
        PaintRepresents(nodes, root, LeftOf(sc, r1), r1.left, Red);
        KeepLabel(n0, nodes, sibling, nodes[sibling].(color := Red));
        nodes := nodes[sibling := nodes[sibling].(color := Red)];
        assert Plug(LeftOf(sc, r1), Paint(r1.left, Red)) == Plug(Case5Ctx(c), sub);
      } else {
        RightRotation(NIL, closer, sibling, false, sc, sib);
        RightRotatedLabels(n0, NIL, closer, sibling, false);
        ghost var r := RotR(sib, false);
        PaintRepresents(nodes, root, sc, r, Black);
        KeepLabel(n0, nodes, closer, nodes[closer].(color := Black));
        nodes := nodes[closer := nodes[closer].(color := Black)];
        ghost var r1 := Paint(r, Black);
        PaintRepresents(nodes, root, RightOf(sc, r1), r1.right, Red);
        KeepLabel(n0, nodes, sibling, nodes[sibling].(color := Red));
        nodes := nodes[sibling := nodes[sibling].(color := Red)];
        assert Plug(RightOf(sc, r1), Paint(r1.right, Red)) == Plug(Case5Ctx(c), sub);
      }
    }

    /**
     * Case 6, black sibling and red far nephew: a rotation at the parent
     * raises the sibling, which takes the parent's colour, and both its
     * children turn black. The exception the source raises when the
     * condition fails is unreachable.
     */
    method RotateFarNephew(node: int, ghost c: Ctx<V>, ghost sub: Tree<V>)
      requires Represents(nodes, root, Plug(c, sub)) && sub.Branch? && sub.id == node && !c.Top?
      requires Sibling(c).Branch? && Sibling(c).color == Black && IsRed(Outer(c))
      modifies this`nodes, this`root
      ensures Represents(nodes, root, Plug(Case6Ctx(c), sub))
      ensures Entries(Plug(Case6Ctx(c), sub)) == Entries(Plug(c, sub))
      ensures SameLabels(old(nodes), nodes, NIL)
    {
      ghost var n0 := nodes;
      var sibling, direction := GetSibling(node, c, sub);
      FixView(nodes, root, c, sub);
      ColourAt(nodes, Sibling(c), c.id);
      var outer := if direction == L then nodes[sibling].left else nodes[sibling].right;
      if !(BlackAt(nodes, sibling) && RedAt(nodes, outer)) {
        assert false;
      }
      var parent := nodes[sibling].parent;
      var parentColour := nodes[parent].color;
      PlugFill(c, sub);
      ghost var f := Fill(c, sub);
      if direction == L {
        RightRotation(NIL, sibling, parent, false, c.up, f);
        RightRotatedLabels(n0, NIL, sibling, parent, false);
        ghost var n1 := nodes;
        RecolourRaised(sibling, parentColour, c.up, RotR(f, false));
        SameLabelsTrans(n0, n1, nodes, NIL);
      } else {
        LeftRotation(NIL, sibling, parent, false, c.up, f);
        LeftRotatedLabels(n0, NIL, sibling, parent, false);
        ghost var n1 := nodes;
        RecolourRaised(sibling, parentColour, c.up, RotL(f, false));
        SameLabelsTrans(n0, n1, nodes, NIL);
      }
    }

    /** The end of case 6: the raised sibling takes colour `col`, and its right, then its left child turn black. */
    method RecolourRaised(sibling: int, col: Color, ghost c: Ctx<V>, ghost r: Tree<V>)
      requires Represents(nodes, root, Plug(c, r)) && r.Branch? && r.left.Branch? && r.right.Branch? && sibling == r.id
      modifies this`nodes
      ensures Represents(nodes, root, Plug(c, Branch(Paint(r.left, Black), r.id, r.key, r.item, col, Paint(r.right, Black))))
      ensures Entries(Plug(c, Branch(Paint(r.left, Black), r.id, r.key, r.item, col, Paint(r.right, Black)))) == Entries(Plug(c, r))
      ensures SameLabels(old(nodes), nodes, NIL)
    {
      ghost var n0 := nodes;
      PaintRepresents(nodes, root, c, r, col);
      KeepLabel(n0, nodes, sibling, nodes[sibling].(color := col));
      nodes := nodes[sibling := nodes[sibling].(color := col)];
      ghost var r1 := Paint(r, col);
      LinkedRoot(nodes, c, r1);
      var right := nodes[sibling].right;
      PaintRepresents(nodes, root, RightOf(c, r1), r1.right, Black);
      KeepLabel(n0, nodes, right, nodes[right].(color := Black));
      nodes := nodes[right := nodes[right].(color := Black)];
      ghost var r2 := r1.(right := Paint(r1.right, Black));
      assert Plug(RightOf(c, r1), Paint(r1.right, Black)) == Plug(c, r2);
      LinkedRoot(nodes, c, r2);
      var left := nodes[sibling].left;
      PaintRepresents(nodes, root, LeftOf(c, r2), r2.left, Black);
      KeepLabel(n0, nodes, left, nodes[left].(color := Black));
      nodes := nodes[left := nodes[left].(color := Black)];
      assert Plug(LeftOf(c, r2), Paint(r2.left, Black)) == Plug(c, r2.(left := Paint(r2.left, Black)));
    }

    /**
     * Cases 4, 5 and 6 of `remove`'s fix-up, reached when the sibling is
     * black and cases 2 and 3 do not apply; each ends the fix-up.
     */
    method FixTail(node: int, parent: int, sibling: int, direction: Direction,
                   ghost c: Ctx<V>, ghost sub: Tree<V>, ghost pruned: Tree<V>) returns (ghost k: Ctx<V>)
      requires Represents(nodes, root, Plug(c, sub)) && sub.Branch? && sub.id == node && !c.Top?
      requires Short(c, pruned) && !IsRed(Sibling(c))
      requires parent == c.id && sibling == RootId(Sibling(c)) && (direction == L <==> c.InRight?)
      requires !(c.color == Black && Sibling(c).Branch? && !IsRed(Sibling(c).left) && !IsRed(Sibling(c).right))
      modifies this`nodes, this`root
      ensures !k.Top? && CtxIds(k) == CtxIds(c)
      ensures Represents(nodes, root, Plug(k, sub)) && RedBlack(Plug(k, pruned))
      ensures Entries(Plug(k, sub)) == Entries(Plug(c, sub))
      ensures SameLabels(old(nodes), nodes, NIL)
    {
      ghost var n0 := nodes;
      FixView(nodes, root, c, sub);
      ShortSibling(c, pruned);
      ColourAt(nodes, Sibling(c), c.id);
      if RedAt(nodes, parent) && BlackAt(nodes, sibling) &&
         !RedAt(nodes, nodes[sibling].left) && !RedAt(nodes, nodes[sibling].right) {
        Case4(c, pruned);
        SwapColours(parent, sibling, c, sub);
        return Case4Ctx(c);
      }
      var closer := if direction == L then nodes[sibling].right else nodes[sibling].left;
      var outer := if direction == L then nodes[sibling].left else nodes[sibling].right;
      ghost var c5 := c;
      if RedAt(nodes, closer) && !RedAt(nodes, outer) && BlackAt(nodes, sibling) {
        Case5(c, pruned);
        RotateNearNephew(sibling, closer, direction, c, sub);
        c5 := Case5Ctx(c);
      }
      ghost var n1 := nodes;
      Case6(c5, pruned);
      RotateFarNephew(node, c5, sub);
      SameLabelsTrans(n0, n1, nodes, NIL);
      return Case6Ctx(c5);
    }

    /** Case 1 of `remove`'s fix-up: the root turns black. */
    method PaintRootBlack(node: int, ghost t: Tree<V>)
      requires Represents(nodes, root, t) && t.Branch? && node == root
      modifies this`nodes
      ensures Represents(nodes, root, Paint(t, Black)) && Entries(Paint(t, Black)) == Entries(t)
      ensures SameLabels(old(nodes), nodes, NIL)
    {
      PaintRepresents(nodes, root, Top, t, Black);
      KeepLabel(nodes, nodes, node, nodes[node].(color := Black));
      nodes := nodes[node := nodes[node].(color := Black)];
    }

    /**
     * One round of `cases(node)` at `y`, the node above the cut-off black
     * leaf `xs` (or the leaf itself): case 1 at the root, case 2 (red
     * sibling, repeat at `y`), case 3 (move up to the parent), or cases 4 to
     * 6, which finish. While it goes on, the tree with the leaf cut off stays
     * one black short at `y`; once finished it is red-black.
     */
    method FixStep(y: int, ghost cy: Ctx<V>, ghost cx: Ctx<V>, ghost sub: Tree<V>, ghost xs: Tree<V>)
      returns (y2: int, finished: bool, ghost cy2: Ctx<V>, ghost cx2: Ctx<V>, ghost sub2: Tree<V>)
      requires Represents(nodes, root, Plug(cy, sub)) && sub.Branch? && sub.id == y
      requires sub == Plug(cx, xs) && !(cy.Top? && cx.Top?) && Short(cy, Plug(cx, Leaf))
      modifies this`nodes, this`root
      ensures Represents(nodes, root, Plug(cy2, sub2)) && sub2.Branch? && sub2.id == y2
      ensures sub2 == Plug(cx2, xs) && !(cy2.Top? && cx2.Top?)
      ensures if finished then RedBlack(Plug(cy2, Plug(cx2, Leaf))) else Short(cy2, Plug(cx2, Leaf))
      ensures Entries(Plug(cy2, sub2)) == Entries(Plug(cy, sub)) && Ids(Plug(cy2, sub2)) == Ids(Plug(cy, sub))
      ensures SameLabels(old(nodes), nodes, NIL)
      ensures !finished ==>
        CtxSize(cy2) < CtxSize(cy) ||
        (CtxSize(cy2) == CtxSize(cy) && !cy.Top? && IsRed(Sibling(cy)) && !cy2.Top? && !IsRed(Sibling(cy2)))
    {
      ghost var pruned := Plug(cx, Leaf);
      y2, finished, cy2, cx2, sub2 := y, false, cy, cx, sub;
      AtRoot(nodes, root, cy, sub);
      if y == root {
        PlugRoot(cx, xs, Leaf);
        PaintRootBlack(y, sub);
        assert Paint(sub, Black) == sub;
        finished := true;
      } else {
        FixView(nodes, root, cy, sub);
        ShortSibling(cy, pruned);
        ColourAt(nodes, Sibling(cy), cy.id);
        var parent := nodes[y].parent;
        var sibling, direction := GetSibling(y, cy, sub);
        if RedAt(nodes, sibling) && BlackAt(nodes, parent) &&
           !RedAt(nodes, nodes[sibling].left) && !RedAt(nodes, nodes[sibling].right) {
          RotateRedSibling(parent, sibling, direction, cy, sub, pruned);
          cy2 := Case2Ctx(cy);
        } else if BlackAt(nodes, sibling) && BlackAt(nodes, parent) &&
                  !RedAt(nodes, nodes[sibling].left) && !RedAt(nodes, nodes[sibling].right) {
          PaintSiblingRed(sibling, cy, sub, pruned);
          Case3Step(cy, cx, xs);
          cx2, sub2, cy2 := Compose(cx, Frame(Case3Ctx(cy))), Fill(Case3Ctx(cy), sub), cy.up;
          y2 := parent;
        } else {
          cy2 := FixTail(y, parent, sibling, direction, cy, sub, pruned);
          SameIds(cy, cy2, sub);
          finished := true;
        }
      }
    }

    /**
     * `cases(node)` then `_remove_leaf(node)` for a black leaf `x` below the
     * root: the fix-up rounds walk up from `x` until one finishes, and then
     * the leaf is unlinked.
     */
    method FixUp(x: int, ghost c: Ctx<V>, ghost xs: Tree<V>) returns (ghost t: Tree<V>)
      requires Represents(nodes, root, Plug(c, xs)) && RedBlack(Plug(c, xs)) && !c.Top?
      requires xs.Branch? && xs.left.Leaf? && xs.right.Leaf? && xs.color == Black && xs.id == x
      modifies this`nodes, this`root
      ensures Represents(nodes, root, t) && RedBlack(t)
      ensures Entries(t) == Delete(Entries(Plug(c, xs)), xs.key)
      ensures Ids(t) == Ids(Plug(c, xs)) - {x}
      ensures SameLabels(old(nodes), nodes, NIL)
    {
      ghost var n0 := nodes;
      ShortAtLeaf(c, xs);
      ghost var e0, i0 := Entries(Plug(c, xs)), Ids(Plug(c, xs));
      var y, finished := x, false;
      ghost var cy, cx, sub := c, Top, xs;
      while !finished
        invariant Represents(nodes, root, Plug(cy, sub)) && sub.Branch? && sub.id == y
        invariant sub == Plug(cx, xs) && !(cy.Top? && cx.Top?)
        invariant if finished then RedBlack(Plug(cy, Plug(cx, Leaf))) else Short(cy, Plug(cx, Leaf))
        invariant Entries(Plug(cy, sub)) == e0 && Ids(Plug(cy, sub)) == i0
        invariant SameLabels(n0, nodes, NIL)
        decreases !finished, CtxSize(cy), if !cy.Top? && IsRed(Sibling(cy)) then 1 else 0
      {
        ghost var n1 := nodes;
        y, finished, cy, cx, sub := FixStep(y, cy, cx, sub, xs);
        SameLabelsTrans(n0, n1, nodes, NIL);
      }
      ghost var cf := Compose(cx, cy);
      PlugCompose(cx, cy, xs);
      PlugCompose(cx, cy, Leaf);
      ghost var n1 := nodes;
      RemoveLeaf(x, cf, xs);
      SameLabelsTrans(n0, n1, nodes, NIL);
      t := Plug(cf, Leaf);
    }

    /**
     * The tail of `remove`, once the node to delete, `target`, has at most
     * one child: at the root its child (if any) becomes the black root; a red
     * node is a leaf and is cut off; a black node whose child is red takes
     * over the child's entry; a black leaf goes through the fix-up.
     */
    method Unlink(target: int, ghost c: Ctx<V>, ghost s: Tree<V>) returns (ghost t: Tree<V>)
      requires Represents(nodes, root, Plug(c, s)) && RedBlack(Plug(c, s))
      requires s.Branch? && s.id == target && (s.left.Leaf? || s.right.Leaf?)
      modifies this`nodes, this`root
      ensures Represents(nodes, root, t) && RedBlack(t)
      ensures Entries(t) == Delete(Entries(Plug(c, s)), s.key)
      ensures Ids(Plug(c, s)) - Ids(s) <= Ids(t)
      ensures SameLabels(old(nodes), nodes, target)
    {
      LinkedRoot(nodes, c, s);
      AtRoot(nodes, root, c, s);
      OneChildShape(c, s);
      ColourAt(nodes, s, HoleParent(c));
      ChildrenCountShape(nodes, s, HoleParent(c));
      var leftChild, rightChild := nodes[target].left, nodes[target].right;
      var notNilChild := if leftChild != NIL then leftChild else rightChild;
      ghost var child := if s.left.Branch? then s.left else s.right;
      if target == root {
        if notNilChild != NIL {
          RootChild(nodes, s, child);
          KeepLabel(nodes, nodes, notNilChild, nodes[notNilChild].(parent := NIL, color := Black));
          root := notNilChild;
          nodes := nodes[notNilChild := nodes[notNilChild].(parent := NIL, color := Black)];
          t := Paint(child, Black);
        } else {
          root := NIL;
          t := Leaf;
          assert Entries(s) == [] + [(s.key, s.item)] + [];
          DeleteSorted([], (s.key, s.item), []);
        }
      } else if nodes[target].color == Red {
        if HasChildren(nodes[target]) {
          assert false;
        }
        RedLeafCut(c, s);
        RemoveLeaf(target, c, s);
        t := Plug(c, Leaf);
      } else {
        if child.Branch? {
          LinkedRoot(nodes, if s.left.Branch? then LeftOf(c, s) else RightOf(c, s), child);
        }
        if (rightChild != NIL && HasChildren(nodes[rightChild])) || (leftChild != NIL && HasChildren(nodes[leftChild])) {
          assert false;
        }
        if RedAt(nodes, notNilChild) {
          Absorb(nodes, root, c, s, child);
          nodes := nodes[target := nodes[target].(key := nodes[notNilChild].key, item := nodes[notNilChild].item,
                                                  left := nodes[notNilChild].left, right := nodes[notNilChild].right)];
          t := Plug(c, Branch(Leaf, s.id, child.key, child.item, Black, Leaf));
        } else {
          t := FixUp(target, c, s);
        }
      }
    }

    /**
     * `_find_in_order_successor` for a node with two children: the leftmost
     * node of its right subtree, whose entry comes right after the node's own.
     */
    method FindInOrderSuccessor(node: int, ghost c: Ctx<V>, ghost s: Tree<V>) returns (succ: int, ghost cs: Ctx<V>, ghost ss: Tree<V>)
      requires Represents(nodes, root, Plug(c, s)) && s.Branch? && s.id == node && s.right.Branch?
      ensures Plug(cs, ss) == Plug(c, s) && ss.Branch? && ss.id == succ && ss.left.Leaf?
      ensures Before(cs) == Before(c) + Entries(s.left) + [(s.key, s.item)]
      ensures node in CtxIds(cs)
      ensures 0 <= node < |nodes| && 0 <= succ < |nodes| && nodes[succ].left == NIL
      ensures Less(nodes[node].key, nodes[succ].key)
      ensures forall k :: k in KeysOf(Entries(Plug(c, s))) && Less(nodes[node].key, k) ==> !Less(k, nodes[succ].key)
    {
      LinkedRoot(nodes, c, s);
      succ := nodes[node].right;
      cs, ss := RightOf(c, s), s.right;
      LinkedRoot(nodes, cs, ss);
      while nodes[succ].left != NIL
        invariant Plug(cs, ss) == Plug(c, s) && ss.Branch? && ss.id == succ
        invariant succ < |nodes| && nodes[succ].left == RootId(ss.left)
        invariant Before(cs) == Before(c) + Entries(s.left) + [(s.key, s.item)]
        invariant node in CtxIds(cs)
        decreases ss
      {
        cs, ss := LeftOf(cs, ss), ss.left;
        succ := nodes[succ].left;
        LinkedRoot(nodes, cs, ss);
      }
      LinkedRoot(nodes, c, s);
      LinkedRoot(nodes, cs, ss);
      NextKey(c, s, cs, ss);
    }

    /**
     * `remove`: deletes the entry of `key` if there is one. A node with two
     * children first takes over the key and payload of its in-order
     * successor, whose own node is unlinked instead.
     */
    method Remove(key: Key)
      requires Valid()
      modifies this`nodes, this`root, this`count, this`tree
      ensures Valid()
      ensures Contents() == Delete(old(Contents()), key)
      ensures key !in KeysOf(Contents())
      ensures count == old(count) - (if key in KeysOf(old(Contents())) then 1 else 0)
      ensures key !in KeysOf(old(Contents())) ==> nodes == old(nodes) && root == old(root) && tree == old(tree)
    {
      var n := FindNode(key);
      if n == NIL {
        DeleteAbsent(Contents(), key);
        return;
      }
      ghost var e0 := Contents();
      ghost var c, s := Locate(Top, tree, n);
      LinkedRoot(nodes, c, s);
      ChildrenCountShape(nodes, s, HoleParent(c));
      AroundNode(c, s);
      DeleteSorted(Before(c) + Entries(s.left), (s.key, s.item), Entries(s.right) + After(c));
      ghost var t;
      if ChildrenCount(nodes[n]) == 2 {
        var succ, cs, ss := FindInOrderSuccessor(n, c, s);
        LinkedRoot(nodes, cs, ss);
        var k, it := nodes[succ].key, nodes[succ].item;
        t := RemoveTwoChildren(n, succ, k, it, c, s, cs, ss);
      } else {
        t := Unlink(n, c, s);
      }
      tree := t;
      SizeEntries(old(tree));
      SizeEntries(t);
      count := count - 1;
      LookupDelete(e0, key, key);
    }

    /** The two-children case of `remove`: unlink the successor, then copy its entry over the node's. */
    method RemoveTwoChildren(n: int, succ: int, k: Key, it: Item<V>, ghost c: Ctx<V>, ghost s: Tree<V>, ghost cs: Ctx<V>, ghost ss: Tree<V>)
      returns (ghost t: Tree<V>)
      requires Represents(nodes, root, Plug(c, s)) && RedBlack(Plug(c, s)) && s.Branch? && s.id == n
      requires Plug(cs, ss) == Plug(c, s) && ss.Branch? && ss.id == succ && ss.left.Leaf? && ss.key == k && ss.item == it
      requires Before(cs) == Before(c) + Entries(s.left) + [(s.key, s.item)] && n in CtxIds(cs)
      modifies this`nodes, this`root
      ensures Represents(nodes, root, t) && RedBlack(t)
      ensures Entries(t) == Delete(Entries(Plug(c, s)), s.key)
    {
      ghost var x, y := Before(c) + Entries(s.left), Entries(ss.right) + After(cs);
      EntriesAroundNode(cs, ss);
      assert Entries(Plug(c, s)) == x + [(s.key, s.item)] + [(k, it)] + y;
      LinkedRoot(nodes, c, s);
      PlugIds(cs, ss);
      PlugUnique(cs, ss);
      ghost var n0 := nodes;
      ghost var t1 := Unlink(succ, cs, ss);
      assert n != succ && n in Ids(t1);
      assert nodes[n].key == s.key && nodes[n].item == s.item;
      t := CopySuccessor(n, k, it, t1, x, y);
    }

    /** The copy of the successor's key and payload over node `n`'s, once the successor is unlinked. */
    method CopySuccessor(n: int, k: Key, it: Item<V>, ghost t1: Tree<V>, ghost x: seq<Entry<Item<V>>>, ghost y: seq<Entry<Item<V>>>)
      returns (ghost t: Tree<V>)
      requires Represents(nodes, root, t1) && RedBlack(t1) && n in Ids(t1) && 0 <= n < |nodes|
      requires Sorted(x + [(nodes[n].key, nodes[n].item)] + [(k, it)] + y)
      requires Entries(t1) == Delete(x + [(nodes[n].key, nodes[n].item)] + [(k, it)] + y, k)
      modifies this`nodes
      ensures Represents(nodes, root, t) && RedBlack(t)
      ensures Entries(t) == Delete(x + [(old(nodes[n].key), old(nodes[n].item))] + [(k, it)] + y, old(nodes[n].key))
    {
      ghost var cn, sn := Locate(Top, t1, n);
      LinkedRoot(nodes, cn, sn);
      CopySuccessorKeeps(nodes, root, cn, sn, x, (k, it), y);
      nodes := nodes[n := nodes[n].(key := k, item := it)];
      t := Plug(cn, sn.(key := k, item := it));
    }

    /** `Node.in_order_traversal`: appends the subtree's node indices in order. */
    method NodeInOrder(n: int, ghost t: Tree<V>, ghost p: int, traversal: seq<int>) returns (r: seq<int>)
      requires Linked(nodes, t, p) && t.Branch? && n == t.id
      ensures r == traversal + InOrderIds(t)
      decreases t
    {
      r := traversal;
      if nodes[n].left != NIL {
        r := NodeInOrder(nodes[n].left, t.left, n, r);
      }
      r := r + [n];
      if nodes[n].right != NIL {
        r := NodeInOrder(nodes[n].right, t.right, n, r);
      }
    }

    /** `in_order_traversal`: every node once, in ascending key order. */
    method InOrderTraversal() returns (traversal: seq<int>)
      requires Valid()
      ensures |traversal| == |Contents()| == count
      ensures forall i :: 0 <= i < |traversal| ==>
        0 <= traversal[i] < |nodes| && (nodes[traversal[i]].key, nodes[traversal[i]].item) == Contents()[i]
      ensures forall i, j :: 0 <= i < j < |traversal| ==> Less(nodes[traversal[i]].key, nodes[traversal[j]].key)
    {
      traversal := [];
      if root != NIL {
        traversal := NodeInOrder(root, tree, NIL, traversal);
      }
      InOrderMatches(nodes, tree, NIL);
      SizeEntries(tree);
    }

    /** `Node.__iter__`: the subtree's keys in order. */
    method NodeKeys(n: int, ghost t: Tree<V>, ghost p: int) returns (ks: seq<Key>)
      requires Linked(nodes, t, p) && t.Branch? && n == t.id
      ensures ks == KeySeq(Entries(t))
      decreases t
    {
      BranchKeys(t);
      ks := [];
      if nodes[n].left != NIL {
        ks := NodeKeys(nodes[n].left, t.left, n);
      } else {
        assert KeySeq(Entries(t.left)) == [];
      }
      ks := ks + [nodes[n].key];
      if nodes[n].right != NIL {
        var rest := NodeKeys(nodes[n].right, t.right, n);
        ks := ks + rest;
      } else {
        assert KeySeq(Entries(t.right)) == [];
      }
    }

    /** `__iter__`: the stored keys, strictly ascending, `count` of them. */
    method Keys() returns (ks: seq<Key>)
      requires Valid()
      ensures ks == KeySeq(Contents())
      ensures |ks| == count && forall i, j :: 0 <= i < j < |ks| ==> Less(ks[i], ks[j])
    {
      ks := [];
      if root != NIL {
        ks := NodeKeys(root, tree, NIL);
      }
      SizeEntries(tree);
    }
  }

  /** The keys of a subtree: those of its left subtree, its own, then those of its right subtree. */
  lemma BranchKeys<V>(t: Tree<V>)
    requires t.Branch?
    ensures KeySeq(Entries(t)) == KeySeq(Entries(t.left)) + [t.key] + KeySeq(Entries(t.right))
  {
    KeySeqAppend(Entries(t.left), [(t.key, t.item)]);
    KeySeqAppend(Entries(t.left) + [(t.key, t.item)], Entries(t.right));
  }

  /** Two arenas that differ in stored values only: same keys, colours, links, offsets and segments. */
  ghost predicate OnlyValuesDiffer<V>(a: seq<Node<V>>, b: seq<Node<V>>) {
    |a| == |b| && forall i :: 0 <= i < |a| ==> b[i] == a[i].(item := a[i].item.(value := b[i].item.value))
  }

  lemma ValueWrite<V>(a: seq<Node<V>>, i: nat, value: V)
    requires i < |a|
    ensures OnlyValuesDiffer(a, a[i := a[i].(item := a[i].item.(value := value))])
  {
  }

  /** Replacing a key and payload changes neither the shape nor the colours. */
  lemma KeepShape<V>(c: Ctx<V>, s: Tree<V>, k: Key, it: Item<V>)
    requires s.Branch?
    ensures RedBlack(Plug(c, s.(key := k, item := it))) == RedBlack(Plug(c, s))
    ensures Size(Plug(c, s.(key := k, item := it))) == Size(Plug(c, s))
    ensures RootId(Plug(c, s.(key := k, item := it))) == RootId(Plug(c, s))
  {
    var s2 := s.(key := k, item := it);
    PlugBalanced(c, s);
    PlugBalanced(c, s2);
    PlugRedOk(c, s);
    PlugRedOk(c, s2);
    if !c.Top? {
      PlugRoot(c, s, s2);
    }
    PlugEntries(c, s);
    PlugEntries(c, s2);
    SizeEntries(Plug(c, s));
    SizeEntries(Plug(c, s2));
  }

  /**
   * Writing the successor's entry `f` over the node whose entry `e` it
   * follows, once the successor's own node is gone: the arena spells out the
   * same red-black tree with `e` deleted instead of `f`.
   */
  lemma CopySuccessorKeeps<V>(nodes: seq<Node<V>>, root: int, c: Ctx<V>, s: Tree<V>,
                              x: seq<Entry<Item<V>>>, f: Entry<Item<V>>, y: seq<Entry<Item<V>>>)
    requires Represents(nodes, root, Plug(c, s)) && RedBlack(Plug(c, s)) && s.Branch?
    requires Sorted(x + [(s.key, s.item)] + [f] + y)
    requires Entries(Plug(c, s)) == Delete(x + [(s.key, s.item)] + [f] + y, f.0)
    ensures s.id < |nodes|
    ensures Represents(nodes[s.id := nodes[s.id].(key := f.0, item := f.1)], root, Plug(c, s.(key := f.0, item := f.1)))
    ensures RedBlack(Plug(c, s.(key := f.0, item := f.1)))
    ensures Entries(Plug(c, s.(key := f.0, item := f.1))) == Delete(x + [(s.key, s.item)] + [f] + y, s.key)
  {
    var s2 := s.(key := f.0, item := f.1);
    EntriesAroundNode(c, s);
    EntriesAroundNode(c, s2);
    CopySuccessor(x, (s.key, s.item), f, y, Before(c) + Entries(s.left), Entries(s.right) + After(c));
    LabelLinked(nodes, c, s, f.0, f.1);
    KeepShape(c, s, f.0, f.1);
  }

  /** Overwriting the payload of a present key: the arena still spells out a red-black search tree. */
  lemma OverwriteKeeps<V>(nodes: seq<Node<V>>, root: int, c: Ctx<V>, s: Tree<V>, it: Item<V>)
    requires Represents(nodes, root, Plug(c, s)) && RedBlack(Plug(c, s)) && s.Branch?
    ensures s.id < |nodes| && nodes[s.id].item == s.item
    ensures Represents(nodes[s.id := nodes[s.id].(item := it)], root, Plug(c, s.(item := it)))
    ensures RedBlack(Plug(c, s.(item := it))) && Size(Plug(c, s.(item := it))) == Size(Plug(c, s))
    ensures Lookup(Entries(Plug(c, s)), s.key) == Some(s.item) && s.key in KeysOf(Entries(Plug(c, s)))
    ensures Entries(Plug(c, s.(item := it))) == Insert(Entries(Plug(c, s)), s.key, it)
  {
    LinkedRoot(nodes, c, s);
    HitAtNode(c, s);
    AroundNode(c, s);
    LabelLinked(nodes, c, s, s.key, it);
    assert s.(key := s.key, item := it) == s.(item := it);
    InsertPresent(Before(c) + Entries(s.left), s.item, Entries(s.right) + After(c), s.key, it);
    KeysAround(Before(c) + Entries(s.left), (s.key, s.item), Entries(s.right) + After(c));
    SortedReplace(Before(c) + Entries(s.left), (s.key, s.item), (s.key, it), Entries(s.right) + After(c));
    KeepShape(c, s, s.key, it);
    EntriesAroundNode(c, s.(item := it));
  }

  /** Adding to an empty tree: a single black node, which is the root. */
  lemma PlantKeeps<V>(nodes: seq<Node<V>>, t: Tree<V>, key: Key, it: Item<V>)
    requires Represents(nodes, NIL, t)
    ensures t == Leaf
    ensures Represents(nodes + [Node(key, it, Black, NIL, NIL, NIL)], |nodes|, Branch(Leaf, |nodes|, key, it, Black, Leaf))
    ensures RedBlack(Branch(Leaf, |nodes|, key, it, Black, Leaf))
    ensures Size(Branch(Leaf, |nodes|, key, it, Black, Leaf)) == 1
    ensures Entries(Branch(Leaf, |nodes|, key, it, Black, Leaf)) == Insert(Entries(t), key, it)
  {
    var n1 := nodes + [Node(key, it, Black, NIL, NIL, NIL)];
    assert n1[|nodes|] == Node(key, it, Black, NIL, NIL, NIL);
  }

  /** Hanging a key into the empty slot its search ended at inserts it in key order. */
  lemma AttachEntries<V>(c: Ctx<V>, s: Tree<V>)
    requires s.Branch? && s.left.Leaf? && s.right.Leaf? && Sorted(Entries(Plug(c, Leaf))) && Brackets(c, s.key)
    ensures s.key !in KeysOf(Entries(Plug(c, Leaf)))
    ensures Entries(Plug(c, s)) == Insert(Entries(Plug(c, Leaf)), s.key, s.item)
    ensures Sorted(Entries(Plug(c, s))) && |Entries(Plug(c, s))| == |Entries(Plug(c, Leaf))| + 1
  {
    PlugLeafEntries(c);
    PlugSingleEntries(c, s);
    InsertGap(Entries(Plug(c, Leaf)), Before(c), After(c), s.key, s.item);
  }

  /** A red leaf hung below a node of a red-black tree meets the insertion invariant. */
  lemma AttachShape<V>(c: Ctx<V>, s: Tree<V>)
    requires s.Branch? && s.left.Leaf? && s.right.Leaf? && s.color == Red
    requires RedBlack(Plug(c, Leaf)) && !c.Top?
    ensures InsInv(c, s) && RootId(Plug(c, s)) == RootId(Plug(c, Leaf))
  {
    PlugRoot(c, Leaf, s);
    PlugBalanced(c, Leaf);
    PlugRedOk(c, Leaf);
    CtxRedOkWeaken(c, false);
  }

  /** A fresh red node hung into an empty slot bracketed by its key: ready for `_try_rebalance`. */
  lemma AttachKeeps<V>(n0: seq<Node<V>>, n1: seq<Node<V>>, root: int, c: Ctx<V>, s: Tree<V>)
    requires s.Branch? && s == Branch(Leaf, |n0|, s.key, s.item, Red, Leaf)
    requires Represents(n0, root, Plug(c, Leaf)) && RedBlack(Plug(c, Leaf)) && !c.Top? && Brackets(c, s.key)
    requires |n1| == |n0| + 1 && n1[|n0|] == Node(s.key, s.item, Red, c.id, NIL, NIL)
    requires c.id < |n0| && n1[c.id] == SetChild(n0[c.id], c, |n0|)
    requires forall i :: 0 <= i < |n0| && i != c.id ==> n1[i] == n0[i]
    ensures Represents(n1, root, Plug(c, s)) && InsInv(c, s)
    ensures s.key !in KeysOf(Entries(Plug(c, Leaf)))
    ensures Entries(Plug(c, s)) == Insert(Entries(Plug(c, Leaf)), s.key, s.item)
    ensures |Entries(Plug(c, s))| == |Entries(Plug(c, Leaf))| + 1
  {
    AttachLinked(n0, n1, c, s);
    AttachEntries(c, s);
    AttachShape(c, s);
  }
}
