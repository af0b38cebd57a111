/**
 * Sorted association lists: the abstract contents of a red-black tree, read
 * in key order. `Insert`, `Delete` and `Lookup` are reference definitions
 * that the tree operations are proved against.
 */
module Assoc {
  import opened Wrappers
  import opened ByteKeys

  type Entry<T> = (Key, T)

  ghost function KeysOf<T>(es: seq<Entry<T>>): set<Key> {
    set e | e in es :: e.0
  }

  /** Keys strictly increase from left to right. */
  predicate Sorted<T>(es: seq<Entry<T>>) {
    forall i, j :: 0 <= i < j < |es| ==> Less(es[i].0, es[j].0)
  }

  ghost predicate AllBelow<T>(es: seq<Entry<T>>, k: Key) {
    forall e :: e in es ==> Less(e.0, k)
  }

  ghost predicate AllAbove<T>(es: seq<Entry<T>>, k: Key) {
    forall e :: e in es ==> Less(k, e.0)
  }

  function Lookup<T>(es: seq<Entry<T>>, k: Key): (r: Option<T>)
    ensures r.Some? <==> k in KeysOf(es)
    ensures r.Some? ==> (k, r.value) in es
  {
    if es == [] then None
    else if es[0].0 == k then Some(es[0].1)
    else
      assert forall e :: e in es ==> e == es[0] || e in es[1..];
      Lookup(es[1..], k)
  }

  /** The list with `k` bound to `x`: replaced in place, or inserted at its ordered position. */
  function Insert<T>(es: seq<Entry<T>>, k: Key, x: T): seq<Entry<T>> {
    if es == [] then [(k, x)]
    else if es[0].0 == k then [(k, x)] + es[1..]
    else if Less(k, es[0].0) then [(k, x)] + es
    else [es[0]] + Insert(es[1..], k, x)
  }

  /** The list without its entry for `k`, if any. */
  function Delete<T>(es: seq<Entry<T>>, k: Key): seq<Entry<T>> {
    if es == [] then []
    else if es[0].0 == k then es[1..]
    else [es[0]] + Delete(es[1..], k)
  }

  /** `r` is the greatest key <= `k`, or None when every key is above `k`. */
  ghost predicate IsFloor<T>(es: seq<Entry<T>>, k: Key, r: Option<Key>) {
    match r
    case None => forall e :: e in es ==> Less(k, e.0)
    case Some(f) =>
      f in KeysOf(es) && !Less(k, f) &&
      forall e :: e in es && !Less(k, e.0) ==> !Less(f, e.0)
  }

  /** `r` is the least key >= `k`, or None when every key is below `k`. */
  ghost predicate IsCeil<T>(es: seq<Entry<T>>, k: Key, r: Option<Key>) {
    match r
    case None => forall e :: e in es ==> Less(e.0, k)
    case Some(f) =>
      f in KeysOf(es) && !Less(f, k) &&
      forall e :: e in es && !Less(e.0, k) ==> !Less(e.0, f)
  }

  lemma SortedParts<T>(a: seq<Entry<T>>, b: seq<Entry<T>>)
    requires Sorted(a + b)
    ensures Sorted(a) && Sorted(b)
    ensures forall x, y :: x in a && y in b ==> Less(x.0, y.0)
  {
    var ab := a + b;
    forall i, j | 0 <= i < j < |b| ensures Less(b[i].0, b[j].0) {
      assert b[i] == ab[|a| + i] && b[j] == ab[|a| + j];
    }
    forall x, y | x in a && y in b ensures Less(x.0, y.0) {
      var i :| 0 <= i < |a| && a[i] == x;
      var j :| 0 <= j < |b| && b[j] == y;
      assert ab[i] == x && ab[|a| + j] == y;
    }
    forall i, j | 0 <= i < j < |a| ensures Less(a[i].0, a[j].0) {
      assert a[i] == ab[i] && a[j] == ab[j];
    }
  }

  lemma SortedJoin<T>(a: seq<Entry<T>>, b: seq<Entry<T>>)
    requires Sorted(a) && Sorted(b)
    requires forall x, y :: x in a && y in b ==> Less(x.0, y.0)
    ensures Sorted(a + b)
  {
    var ab := a + b;
    forall i, j | 0 <= i < j < |ab| ensures Less(ab[i].0, ab[j].0) {
      if j < |a| {
        assert ab[i] == a[i] && ab[j] == a[j];
      } else if i >= |a| {
        assert ab[i] == b[i - |a|] && ab[j] == b[j - |a|];
      } else {
        assert ab[i] in a && ab[j] in b;
      }
    }
  }

  /** A sorted list split around one entry: everything left is below its key, everything right above. */
  lemma SortedAround<T>(a: seq<Entry<T>>, e: Entry<T>, b: seq<Entry<T>>)
    requires Sorted(a + [e] + b)
    ensures Sorted(a) && Sorted(b) && AllBelow(a, e.0) && AllAbove(b, e.0)
    ensures e.0 !in KeysOf(a) && e.0 !in KeysOf(b)
  {
    SortedParts(a + [e], b);
    SortedParts(a, [e]);
    forall x | x in a ensures x.0 != e.0 {
      LessIrreflexive(x.0);
    }
    forall x | x in b ensures x.0 != e.0 {
      LessIrreflexive(x.0);
    }
  }

  /** In a sorted list, the entry after `e` holds the least key above `e`'s. */
  lemma SortedNext<T>(es: seq<Entry<T>>, a: seq<Entry<T>>, e: Entry<T>, f: Entry<T>, b: seq<Entry<T>>)
    requires es == a + [e] + [f] + b && Sorted(es)
    ensures Less(e.0, f.0)
    ensures forall k :: k in KeysOf(es) && Less(e.0, k) ==> !Less(k, f.0)
  {
    assert a + [e] + [f] + b == a + [e] + ([f] + b);
    SortedAround(a, e, [f] + b);
    SortedAround(a + [e], f, b);
    assert f in [f] + b;
    forall k | k in KeysOf(es) && Less(e.0, k) ensures !Less(k, f.0) {
      var x :| x in es && x.0 == k;
      if x in a {
        LessAsymmetric(k, e.0);
      } else if x == e || x == f {
        LessIrreflexive(k);
      } else {
        assert x in b;
        LessAsymmetric(f.0, k);
      }
    }
  }

  /** Inserting a key that falls strictly between two halves puts it between them. */
  lemma {:induction false} InsertBetween<T>(a: seq<Entry<T>>, b: seq<Entry<T>>, k: Key, x: T)
    requires AllBelow(a, k) && AllAbove(b, k)
    ensures Insert(a + b, k, x) == a + [(k, x)] + b
  {
    if a == [] {
      assert a + b == b;
      if b != [] {
        assert b[0] in b;
        LessIrreflexive(k);
      }
    } else {
      assert a[0] in a;
      LessIrreflexive(k);
      LessAsymmetric(a[0].0, k);
      assert (a + b)[1..] == a[1..] + b;
      InsertBetween(a[1..], b, k, x);
    }
  }

  /** Binding a key that is present replaces its entry where it stands. */
  lemma {:induction false} InsertPresent<T>(a: seq<Entry<T>>, old_x: T, b: seq<Entry<T>>, k: Key, x: T)
    requires AllBelow(a, k)
    ensures Insert(a + [(k, old_x)] + b, k, x) == a + [(k, x)] + b
  {
    if a == [] {
      assert a + [(k, old_x)] + b == [(k, old_x)] + b;
    } else {
      assert a[0] in a;
      LessIrreflexive(k);
      LessAsymmetric(a[0].0, k);
      assert (a + [(k, old_x)] + b)[1..] == a[1..] + [(k, old_x)] + b;
      InsertPresent(a[1..], old_x, b, k, x);
    }
  }

  /** Deleting a present key drops exactly its entry. */
  lemma {:induction false} DeletePresent<T>(a: seq<Entry<T>>, e: Entry<T>, b: seq<Entry<T>>)
    requires e.0 !in KeysOf(a)
    ensures Delete(a + [e] + b, e.0) == a + b
  {
    if a == [] {
      assert a + [e] + b == [e] + b;
    } else {
      assert a[0] in a;
      assert (a + [e] + b)[1..] == a[1..] + [e] + b;
      assert KeysOf(a[1..]) <= KeysOf(a) by {
        forall y | y in a[1..] ensures y in a { }
      }
      DeletePresent(a[1..], e, b);
    }
  }

  /** Deleting an absent key changes nothing. */
  lemma {:induction false} DeleteAbsent<T>(es: seq<Entry<T>>, k: Key)
    requires k !in KeysOf(es)
    ensures Delete(es, k) == es
  {
    if es != [] {
      assert es[0] in es;
      assert KeysOf(es[1..]) <= KeysOf(es) by {
        forall y | y in es[1..] ensures y in es { }
      }
      DeleteAbsent(es[1..], k);
    }
  }

  /** Deleting the key of an entry of a sorted sequence drops just that entry; the rest stays sorted. */
  lemma DeleteSorted<T>(a: seq<Entry<T>>, e: Entry<T>, b: seq<Entry<T>>)
    requires Sorted(a + [e] + b)
    ensures Delete(a + [e] + b, e.0) == a + b && Sorted(a + b)
  {
    SortedAround(a, e, b);
    DeletePresent(a, e, b);
    SortedParts(a + [e], b);
    SortedJoin(a, b);
  }

  /** In a sorted sequence an entry has one place: what comes before and after it is determined. */
  lemma SplitUnique<T>(a: seq<Entry<T>>, x: seq<Entry<T>>, e: Entry<T>, b: seq<Entry<T>>, y: seq<Entry<T>>)
    requires a + [e] + b == x + [e] + y && Sorted(x + [e] + y)
    ensures a == x && b == y
  {
    var es := x + [e] + y;
    assert es[|x|] == e;
    assert es == a + [e] + b && es[|a|] == e;
    if |a| != |x| {
      LessIrreflexive(e.0);
      assert false;
    }
    assert a == es[..|a|] == x;
    assert b == es[|a| + 1..] == y;
  }

  /** Lookup in a concatenation: the left part first. */
  lemma {:induction false} LookupAppend<T>(a: seq<Entry<T>>, b: seq<Entry<T>>, k: Key)
    ensures Lookup(a + b, k) == if k in KeysOf(a) then Lookup(a, k) else Lookup(b, k)
  {
    if a == [] {
      assert a + b == b;
    } else {
      assert (a + b)[1..] == a[1..] + b;
      assert a[0] in a;
      assert KeysOf(a) == {a[0].0} + KeysOf(a[1..]) by {
        forall y | y in a ensures y == a[0] || y in a[1..] { }
        forall y | y in a[1..] ensures y in a { }
      }
      LookupAppend(a[1..], b, k);
    }
  }

  /** Inserting keeps the list sorted. */
  lemma {:induction false} InsertSorted<T>(es: seq<Entry<T>>, k: Key, x: T)
    requires Sorted(es)
    ensures Sorted(Insert(es, k, x))
    ensures KeysOf(Insert(es, k, x)) == KeysOf(es) + {k}
    ensures |Insert(es, k, x)| == |es| + (if k in KeysOf(es) then 0 else 1)
  {
    var a, b := SplitAt(es, k);
    if k in KeysOf(es) {
      var i :| 0 <= i < |es| && es[i].0 == k;
      assert es == es[..i] + [es[i]] + es[i + 1..];
      SortedAround(es[..i], es[i], es[i + 1..]);
      InsertPresent(es[..i], es[i].1, es[i + 1..], k, x);
      SortedReplace(es[..i], es[i], (k, x), es[i + 1..]);
      KeysAround(es[..i], es[i], es[i + 1..]);
      KeysAround(es[..i], (k, x), es[i + 1..]);
    } else {
      InsertBetween(a, b, k, x);
      SortedParts(a, b);
      SortedJoin(a, [(k, x)]);
      assert forall y, z :: y in a + [(k, x)] && z in b ==> Less(y.0, z.0) by {
        forall y, z | y in a + [(k, x)] && z in b ensures Less(y.0, z.0) {
          if y !in a { assert y == (k, x); }
        }
      }
      SortedJoin(a + [(k, x)], b);
      KeysAround(a, (k, x), b);
      KeysAppend(a, b);
    }
  }

  /** A key that falls strictly between the two halves of a sorted list is absent, and goes in between. */
  lemma InsertGap<T>(es: seq<Entry<T>>, a: seq<Entry<T>>, b: seq<Entry<T>>, k: Key, x: T)
    requires es == a + b && Sorted(es) && AllBelow(a, k) && AllAbove(b, k)
    ensures k !in KeysOf(es)
    ensures Insert(es, k, x) == a + [(k, x)] + b
    ensures Sorted(Insert(es, k, x)) && |Insert(es, k, x)| == |es| + 1
  {
    forall e | e in es ensures e.0 != k {
      LessIrreflexive(k);
      if e in a {
        assert Less(e.0, k);
      } else {
        assert Less(k, e.0);
      }
    }
    InsertBetween(a, b, k, x);
    InsertSorted(es, k, x);
  }

  lemma KeysAround<T>(a: seq<Entry<T>>, e: Entry<T>, b: seq<Entry<T>>)
    ensures KeysOf(a + [e] + b) == KeysOf(a) + {e.0} + KeysOf(b)
  {
    assert forall y :: y in a + [e] + b <==> y in a || y == e || y in b;
  }

  lemma KeysAppend<T>(a: seq<Entry<T>>, b: seq<Entry<T>>)
    ensures KeysOf(a + b) == KeysOf(a) + KeysOf(b)
  {
    assert forall y :: y in a + b <==> y in a || y in b;
  }

  lemma SortedReplace<T>(a: seq<Entry<T>>, e: Entry<T>, e2: Entry<T>, b: seq<Entry<T>>)
    requires Sorted(a + [e] + b) && e2.0 == e.0
    ensures Sorted(a + [e2] + b)
  {
    var s, s2 := a + [e] + b, a + [e2] + b;
    forall i, j | 0 <= i < j < |s2| ensures Less(s2[i].0, s2[j].0) {
      assert s2[i].0 == s[i].0 && s2[j].0 == s[j].0;
    }
  }

  /** A sorted list splits into the entries below `k` and those not below it. */
  lemma SplitAt<T>(es: seq<Entry<T>>, k: Key) returns (a: seq<Entry<T>>, b: seq<Entry<T>>)
    requires Sorted(es)
    ensures es == a + b && AllBelow(a, k)
    ensures k !in KeysOf(es) ==> AllAbove(b, k)
  {
    var n := 0;
    while n < |es| && Less(es[n].0, k)
      invariant 0 <= n <= |es|
      invariant forall i :: 0 <= i < n ==> Less(es[i].0, k)
    {
      n := n + 1;
    }
    a, b := es[..n], es[n..];
    assert es == a + b;
    if k !in KeysOf(es) && b != [] {
      forall e | e in b ensures Less(k, e.0) {
        var j :| 0 <= j < |b| && b[j] == e;
        assert es[n] == b[0] && es[n + j] == e;
        assert es[n] in es;
        LessTotal(es[n].0, k);
        if j > 0 {
          LessTransitive(k, es[n].0, e.0);
        }
      }
    }
  }

  /** After binding `k` to `x`, looking up `k` finds `x`, and every other key is found as before. */
  lemma {:induction false} LookupInsert<T>(es: seq<Entry<T>>, k: Key, x: T, k2: Key)
    ensures Lookup(Insert(es, k, x), k2) == if k2 == k then Some(x) else Lookup(es, k2)
  {
    if es == [] {
    } else if es[0].0 == k {
      assert ([(k, x)] + es[1..])[1..] == es[1..];
    } else if Less(k, es[0].0) {
      assert ([(k, x)] + es)[1..] == es;
    } else {
      assert ([es[0]] + Insert(es[1..], k, x))[1..] == Insert(es[1..], k, x);
      LookupInsert(es[1..], k, x, k2);
    }
  }

  lemma SortedTail<T>(es: seq<Entry<T>>)
    requires Sorted(es) && es != []
    ensures Sorted(es[1..]) && es[0].0 !in KeysOf(es[1..])
  {
    forall e | e in es[1..] ensures e.0 != es[0].0 {
      var j :| 0 <= j < |es[1..]| && es[1..][j] == e;
      assert es[j + 1] == e;
      LessIrreflexive(e.0);
    }
  }

  /** After deleting `k` from a sorted list, `k` is not found, and every other key is found as before. */
  lemma {:induction false} LookupDelete<T>(es: seq<Entry<T>>, k: Key, k2: Key)
    requires Sorted(es)
    ensures Lookup(Delete(es, k), k2) == if k2 == k then None else Lookup(es, k2)
  {
    if es != [] {
      SortedTail(es);
      if es[0].0 != k {
        assert ([es[0]] + Delete(es[1..], k))[1..] == Delete(es[1..], k);
        LookupDelete(es[1..], k, k2);
      }
    }
  }

  /** The keys of the entries, in order. */
  function KeySeq<T>(es: seq<Entry<T>>): (ks: seq<Key>)
    ensures |ks| == |es| && forall i :: 0 <= i < |es| ==> ks[i] == es[i].0
  {
    if es == [] then [] else [es[0].0] + KeySeq(es[1..])
  }

  lemma KeySeqAppend<T>(a: seq<Entry<T>>, b: seq<Entry<T>>)
    ensures KeySeq(a + b) == KeySeq(a) + KeySeq(b)
  {
    var l, r := KeySeq(a + b), KeySeq(a) + KeySeq(b);
    assert |l| == |r|;
    forall i | 0 <= i < |l| ensures l[i] == r[i] {
      if i < |a| {
        assert (a + b)[i] == a[i];
      } else {
        assert (a + b)[i] == b[i - |a|];
      }
    }
  }
}
