/**
 * Why the downward searches of the tree (`find_node`, `_find_parent`,
 * `floor`, `ceil`) are right: on a tree whose in-order keys increase, the
 * path a search has taken brackets the key it looks for.
 */
module RbSearch {
  import opened Wrappers
  import opened ByteKeys
  import opened Assoc
  import opened RbShape

  /** Every entry left of the hole is below `key` and every entry right of it above. */
  ghost predicate Brackets<V>(c: Ctx<V>, key: Key) {
    AllBelow(Before(c), key) && AllAbove(After(c), key)
  }

  /** The path one step further down, into the left subtree of `s`. */
  function LeftOf<V>(c: Ctx<V>, s: Tree<V>): Ctx<V>
    requires s.Branch?
  {
    InLeft(c, s.id, s.key, s.item, s.color, s.right)
  }

  /** The path one step further down, into the right subtree of `s`. */
  function RightOf<V>(c: Ctx<V>, s: Tree<V>): Ctx<V>
    requires s.Branch?
  {
    InRight(s.left, s.id, s.key, s.item, s.color, c)
  }

  /** The entries of the whole tree, split around a node. */
  lemma EntriesAroundNode<V>(c: Ctx<V>, s: Tree<V>)
    requires s.Branch?
    ensures Entries(Plug(c, s)) ==
      (Before(c) + Entries(s.left)) + [(s.key, s.item)] + (Entries(s.right) + After(c))
  {
    PlugEntries(c, s);
    Regroup(Before(c), Entries(s.left), [(s.key, s.item)], Entries(s.right), After(c));
  }

  /**
   * A node reached from `s` whose left subtree is empty and whose entries
   * to the left are those up to and including `s`'s holds the least key
   * of the tree above `s.key`.
   */
  lemma {:induction false} NextKey<V>(c: Ctx<V>, s: Tree<V>, cs: Ctx<V>, ss: Tree<V>)
    requires Sorted(Entries(Plug(c, s))) && s.Branch? && ss.Branch? && ss.left.Leaf?
    requires Plug(cs, ss) == Plug(c, s) && Before(cs) == Before(c) + Entries(s.left) + [(s.key, s.item)]
    ensures Less(s.key, ss.key)
    ensures forall k :: k in KeysOf(Entries(Plug(c, s))) && Less(s.key, k) ==> !Less(k, ss.key)
  {
    var low, e, f, high := Before(c) + Entries(s.left), (s.key, s.item), (ss.key, ss.item), Entries(ss.right) + After(cs);
    assert Entries(Plug(c, s)) == low + [e] + [f] + high by {
      EntriesAroundNode(cs, ss);
      assert Entries(ss.left) == [];
      assert Before(cs) + Entries(ss.left) == low + [e];
    }
    SortedNext(Entries(Plug(c, s)), low, e, f, high);
  }

  lemma Regroup<T>(a: seq<T>, b: seq<T>, c: seq<T>, d: seq<T>, e: seq<T>)
    ensures a + (b + c + d) + e == (a + b) + c + (d + e)
  {
  }

  /** A node splits the sorted entries of the whole tree around its own entry. */
  lemma AroundNode<V>(c: Ctx<V>, s: Tree<V>)
    requires Sorted(Entries(Plug(c, s))) && s.Branch?
    ensures Entries(Plug(c, s)) ==
      (Before(c) + Entries(s.left)) + [(s.key, s.item)] + (Entries(s.right) + After(c))
    ensures AllBelow(Before(c) + Entries(s.left), s.key) && AllAbove(Entries(s.right) + After(c), s.key)
    ensures Sorted(Before(c) + Entries(s.left)) && Sorted(Entries(s.right) + After(c))
  {
    EntriesAroundNode(c, s);
    SortedAround(Before(c) + Entries(s.left), (s.key, s.item), Entries(s.right) + After(c));
  }

  /** Going right past a key below the one sought keeps the bracket. */
  lemma StepRight<V>(c: Ctx<V>, s: Tree<V>, key: Key)
    requires Sorted(Entries(Plug(c, s))) && s.Branch? && Brackets(c, key) && Less(s.key, key)
    ensures Brackets(RightOf(c, s), key)
  {
    AroundNode(c, s);
    forall e | e in Before(RightOf(c, s)) ensures Less(e.0, key) {
      if e in Before(c) + Entries(s.left) {
        LessTransitive(e.0, s.key, key);
      }
    }
  }

  /** Going left past a key above the one sought keeps the bracket. */
  lemma StepLeft<V>(c: Ctx<V>, s: Tree<V>, key: Key)
    requires Sorted(Entries(Plug(c, s))) && s.Branch? && Brackets(c, key) && Less(key, s.key)
    ensures Brackets(LeftOf(c, s), key)
  {
    AroundNode(c, s);
    forall e | e in After(LeftOf(c, s)) ensures Less(key, e.0) {
      if e in Entries(s.right) + After(c) {
        LessTransitive(key, s.key, e.0);
      }
    }
  }

  /** One step of `floor`/`ceil` to the right: the node passed becomes the last key on the left. */
  lemma DescendRight<V>(t: Tree<V>, c: Ctx<V>, s: Tree<V>, key: Key)
    requires Sorted(Entries(t)) && Plug(c, s) == t && s.Branch? && Brackets(c, key) && Less(s.key, key)
    ensures Plug(RightOf(c, s), s.right) == t && Brackets(RightOf(c, s), key)
    ensures LastKey(Before(RightOf(c, s))) == Some(s.key)
    ensures After(RightOf(c, s)) == After(c)
  {
    StepRight(c, s, key);
  }

  /** One step of `floor`/`ceil` to the left: the node passed becomes the first key on the right. */
  lemma DescendLeft<V>(t: Tree<V>, c: Ctx<V>, s: Tree<V>, key: Key)
    requires Sorted(Entries(t)) && Plug(c, s) == t && s.Branch? && Brackets(c, key) && Less(key, s.key)
    ensures Plug(LeftOf(c, s), s.left) == t && Brackets(LeftOf(c, s), key)
    ensures FirstKey(After(LeftOf(c, s))) == Some(s.key)
    ensures Before(LeftOf(c, s)) == Before(c)
  {
    StepLeft(c, s, key);
  }

  /** A search that stops at a node holding `key` has found both its floor and its ceil. */
  lemma BoundAtNode<V>(t: Tree<V>, c: Ctx<V>, s: Tree<V>)
    requires Sorted(Entries(t)) && Plug(c, s) == t && s.Branch?
    ensures IsFloor(Entries(t), s.key, Some(s.key)) && IsCeil(Entries(t), s.key, Some(s.key))
  {
    HitAtNode(c, s);
    ExactBound(Entries(t), s.key);
  }

  /** A search that reaches a leaf proves the key absent. */
  lemma MissAtLeaf<V>(c: Ctx<V>, key: Key)
    requires Brackets(c, key)
    ensures key !in KeysOf(Entries(Plug(c, Leaf)))
  {
    PlugLeafEntries(c);
    LessIrreflexive(key);
    forall e | e in Before(c) + After(c) ensures e.0 != key {
    }
  }

  /** A search that stops at a node holding the key has found its entry. */
  lemma HitAtNode<V>(c: Ctx<V>, s: Tree<V>)
    requires Sorted(Entries(Plug(c, s))) && s.Branch?
    ensures Lookup(Entries(Plug(c, s)), s.key) == Some(s.item)
  {
    AroundNode(c, s);
    var a, e, b := Before(c) + Entries(s.left), (s.key, s.item), Entries(s.right) + After(c);
    LookupAppend(a + [e], b, s.key);
    LookupAppend(a, [e], s.key);
    KeysAppend(a, [e]);
    assert e in [e];
    assert s.key in KeysOf([e]);
    LessIrreflexive(s.key);
    assert s.key !in KeysOf(a);
  }

  /** Under a search that has bracketed the key, a node whose key is neither below nor above it holds the key. */
  lemma NeitherLess(a: Key, b: Key)
    requires !Less(a, b) && !Less(b, a)
    ensures a == b
  {
    if a != b {
      LessTotal(a, b);
    }
  }

  /** The side of the hole agrees with the key order. */
  lemma HoleSide<V>(c: Ctx<V>, s: Tree<V>)
    requires Sorted(Entries(Plug(c, s))) && !c.Top? && s.Branch?
    ensures c.InLeft? <==> Less(s.key, c.key)
  {
    PlugFill(c, s);
    var f := Fill(c, s);
    AroundNode(c.up, f);
    PlugEntries(c.up, f);
    if c.InLeft? {
      assert (s.key, s.item) in Entries(s);
    } else {
      assert (s.key, s.item) in Entries(s);
      LessAsymmetric(c.key, s.key);
    }
  }

  /** The last key left of the hole, if any. */
  function LastKey<T>(es: seq<Entry<T>>): Option<Key> {
    if es == [] then None else Some(es[|es| - 1].0)
  }

  /** The first key right of the hole, if any. */
  function FirstKey<T>(es: seq<Entry<T>>): Option<Key> {
    if es == [] then None else Some(es[0].0)
  }

  /** Between the entries below `key` and those above it, the last one below is the floor. */
  lemma FloorOfSplit<T>(es: seq<Entry<T>>, a: seq<Entry<T>>, b: seq<Entry<T>>, key: Key)
    requires es == a + b && Sorted(es) && AllBelow(a, key) && AllAbove(b, key)
    ensures IsFloor(es, key, LastKey(a))
  {
    if a != [] {
      var f := a[|a| - 1];
      assert f in a;
      LessAsymmetric(f.0, key);
      forall e | e in a + b && !Less(key, e.0) ensures !Less(f.0, e.0) {
        assert e !in b;
        var i :| 0 <= i < |a| && a[i] == e;
        if i < |a| - 1 {
          assert es[i] == e && es[|a| - 1] == f;
          LessAsymmetric(e.0, f.0);
        } else {
          LessIrreflexive(e.0);
        }
      }
    }
  }

  /** Between the entries below `key` and those above it, the first one above is the ceil. */
  lemma CeilOfSplit<T>(es: seq<Entry<T>>, a: seq<Entry<T>>, b: seq<Entry<T>>, key: Key)
    requires es == a + b && Sorted(es) && AllBelow(a, key) && AllAbove(b, key)
    ensures IsCeil(es, key, FirstKey(b))
  {
    if b != [] {
      var f := b[0];
      assert f in b;
      LessAsymmetric(key, f.0);
      forall e | e in a + b && !Less(e.0, key) ensures !Less(e.0, f.0) {
        assert e !in a;
        var i :| 0 <= i < |b| && b[i] == e;
        if i > 0 {
          assert es[|a| + i] == e && es[|a|] == f;
          LessAsymmetric(f.0, e.0);
        } else {
          LessIrreflexive(e.0);
        }
      }
    }
  }

  /** When a floor search reaches a leaf, the last key it passed on the left is the floor. */
  lemma FloorAtLeaf<V>(t: Tree<V>, c: Ctx<V>, key: Key)
    requires Sorted(Entries(t)) && Plug(c, Leaf) == t && Brackets(c, key)
    ensures IsFloor(Entries(t), key, LastKey(Before(c)))
  {
    PlugLeafEntries(c);
    FloorOfSplit(Entries(t), Before(c), After(c), key);
  }

  /** When a ceil search reaches a leaf, the first key it passed on the right is the ceil. */
  lemma CeilAtLeaf<V>(t: Tree<V>, c: Ctx<V>, key: Key)
    requires Sorted(Entries(t)) && Plug(c, Leaf) == t && Brackets(c, key)
    ensures IsCeil(Entries(t), key, FirstKey(After(c)))
  {
    PlugLeafEntries(c);
    CeilOfSplit(Entries(t), Before(c), After(c), key);
  }

  /** A stored key is its own floor and its own ceil. */
  lemma ExactBound<T>(es: seq<Entry<T>>, key: Key)
    requires key in KeysOf(es)
    ensures IsFloor(es, key, Some(key)) && IsCeil(es, key, Some(key))
  {
    LessIrreflexive(key);
  }
}
