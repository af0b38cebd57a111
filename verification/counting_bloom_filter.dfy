/**
 * The counting bloom filter of the storage engine: a fixed array of one-byte
 * counters and `k` seeded hash positions per item.
 *
 * The hash (`mmh3.hash(item, seed)`) is a parameter of the filter, and so are
 * the array size `m` and the number of hash functions `k`: the engine derives
 * them from an expected item count and a false-positive rate with floating
 * point logarithms, which this model leaves out.
 */
module CountingBloom {
  import opened ByteKeys

  /** A NumPy `uint8` counter. */
  type UInt8 = x: int | 0 <= x < 256

  /** `mmh3.hash(item, seed)`: a signed 32-bit digest, here any integer. */
  type HashFn = (Key, nat) -> int

  /**
   * The sizes the filter is built with. The source computes the number of
   * hash functions from the array size, so an empty array comes with no hash
   * function at all, and then no position is ever reduced modulo zero.
   */
  predicate Sized(m: nat, k: nat) {
    m > 0 || k == 0
  }

  /**
   * `hash(item, seed) % m`. Python's `%` rounds the quotient down, which for
   * a positive modulus agrees with Dafny's Euclidean `%`.
   */
  function Digest(hash: HashFn, m: nat, item: Key, seed: nat): (d: nat)
    requires m > 0
    ensures d < m
  {
    hash(item, seed) % m
  }

  /** How many of the seeds 0 .. k-1 send `item` to counter `i`. */
  function Hits(hash: HashFn, m: nat, item: Key, k: nat, i: nat): nat
    requires Sized(m, k)
  {
    if k == 0 then 0
    else Hits(hash, m, item, k - 1, i) + (if Digest(hash, m, item, k - 1) == i then 1 else 0)
  }

  /** One `uint8` increment, which wraps from 255 to 0. */
  function Bump(cs: seq<UInt8>, d: nat): (r: seq<UInt8>)
    requires d < |cs|
  {
    cs[d := Inc(cs[d])]
  }

  /** A `uint8` counter plus one: 255 wraps to 0. */
  function Inc(c: UInt8): (r: UInt8)
    ensures r == (c + 1) % 256
  {
    if c == 255 then 0 else c + 1
  }

  /** The counters after the first `k` rounds of `add(item)`'s loop. */
  function Added(cs: seq<UInt8>, hash: HashFn, k: nat, item: Key): (r: seq<UInt8>)
    requires Sized(|cs|, k)
    ensures |r| == |cs|
  {
    if k == 0 then cs
    else Bump(Added(cs, hash, k - 1, item), Digest(hash, |cs|, item, k - 1))
  }

  /**
   * `check(item)`'s answer: no counter that one of the `k` seeds selects is
   * zero ("possibly present"); False means "definitely absent".
   */
  predicate MayContain(cs: seq<UInt8>, hash: HashFn, k: nat, item: Key)
    requires Sized(|cs|, k)
  {
    forall s :: 0 <= s < k ==> cs[Digest(hash, |cs|, item, s)] != 0
  }

  /** No counter passes 255 while `item` is added to `cs`. */
  predicate NoWrap(cs: seq<UInt8>, hash: HashFn, k: nat, item: Key)
    requires Sized(|cs|, k)
  {
    forall i :: 0 <= i < |cs| ==> cs[i] + Hits(hash, |cs|, item, k, i) < 256
  }

  /** The counters after adding every item of `items`, first to last. */
  function AddedAll(cs: seq<UInt8>, hash: HashFn, k: nat, items: seq<Key>): (r: seq<UInt8>)
    requires Sized(|cs|, k)
    ensures |r| == |cs|
    decreases |items|
  {
    if items == [] then cs
    else AddedAll(Added(cs, hash, k, items[0]), hash, k, items[1..])
  }

  /** A new filter's counters: `np.zeros(m, dtype=np.uint8)`. */
  function Zeros(m: nat): (cs: seq<UInt8>)
    ensures |cs| == m && forall i :: 0 <= i < m ==> cs[i] == 0
  {
    seq(m, _ => 0)
  }

  /** Adding one more item applies its increments after all the others. */
  lemma {:induction false} AddedAllSnoc(cs: seq<UInt8>, hash: HashFn, k: nat, items: seq<Key>, item: Key)
    requires Sized(|cs|, k)
    ensures AddedAll(cs, hash, k, items + [item]) == Added(AddedAll(cs, hash, k, items), hash, k, item)
    decreases |items|
  {
    if items == [] {
      assert ([] + [item])[1..] == [];
    } else {
      assert (items + [item])[1..] == items[1..] + [item];
      AddedAllSnoc(Added(cs, hash, k, items[0]), hash, k, items[1..], item);
    }
  }

  /** No counter passes 255 while the items are added one after the other. */
  predicate NoWrapAll(cs: seq<UInt8>, hash: HashFn, k: nat, items: seq<Key>)
    requires Sized(|cs|, k)
    decreases |items|
  {
    items == [] ||
    (NoWrap(cs, hash, k, items[0]) && NoWrapAll(Added(cs, hash, k, items[0]), hash, k, items[1..]))
  }

  /**
   * `add(item)` raises counter `i` once for every seed that selects it
   * (modulo 256), and leaves every other counter as it was.
   */
  lemma {:induction false} AddedCounts(cs: seq<UInt8>, hash: HashFn, k: nat, item: Key, i: nat)
    requires Sized(|cs|, k) && i < |cs|
    ensures Added(cs, hash, k, item)[i] == (cs[i] + Hits(hash, |cs|, item, k, i)) % 256
    ensures Hits(hash, |cs|, item, k, i) == 0 ==> Added(cs, hash, k, item)[i] == cs[i]
  {
    if k > 0 {
      AddedCounts(cs, hash, k - 1, item, i);
      var prev := Added(cs, hash, k - 1, item);
      var h := Hits(hash, |cs|, item, k - 1, i);
      if Digest(hash, |cs|, item, k - 1) == i {
        assert Added(cs, hash, k, item)[i] == Inc(prev[i]);
        assert Hits(hash, |cs|, item, k, i) == h + 1;
        WrapStep(cs[i], h);
      } else {
        assert Added(cs, hash, k, item)[i] == prev[i];
        assert Hits(hash, |cs|, item, k, i) == h;
      }
    }
  }

  lemma WrapStep(c: nat, h: nat)
    ensures Inc((c + h) % 256) == (c + (h + 1)) % 256
  {
  }

  /** Every seed below `k` hits the counter it selects at least once. */
  lemma {:induction false} HitsSelected(hash: HashFn, m: nat, item: Key, k: nat, s: nat)
    requires Sized(m, k) && s < k
    ensures Hits(hash, m, item, k, Digest(hash, m, item, s)) >= 1
  {
    if s < k - 1 {
      HitsSelected(hash, m, item, k - 1, s);
    }
  }

  /** A counter no seed selects is never touched by `add`. */
  lemma AddedUntouched(cs: seq<UInt8>, hash: HashFn, k: nat, item: Key, i: nat)
    requires Sized(|cs|, k) && i < |cs|
    requires forall s :: 0 <= s < k ==> Digest(hash, |cs|, item, s) != i
    ensures Added(cs, hash, k, item)[i] == cs[i]
  {
    HitsUnselected(hash, |cs|, item, k, i);
    AddedCounts(cs, hash, k, item, i);
  }

  lemma {:induction false} HitsUnselected(hash: HashFn, m: nat, item: Key, k: nat, i: nat)
    requires Sized(m, k)
    requires forall s :: 0 <= s < k ==> Digest(hash, m, item, s) != i
    ensures Hits(hash, m, item, k, i) == 0
  {
    if k > 0 {
      HitsUnselected(hash, m, item, k - 1, i);
    }
  }

  /** A fresh filter (all counters zero) answers "definitely absent" for every item once k >= 1. */
  lemma FreshFilterRejects(cs: seq<UInt8>, hash: HashFn, k: nat, item: Key)
    requires Sized(|cs|, k) && k >= 1
    requires forall i :: 0 <= i < |cs| ==> cs[i] == 0
    ensures !MayContain(cs, hash, k, item)
  {
    var d := Digest(hash, |cs|, item, 0);
    assert cs[d] == 0;
  }

  /** After `add(x)`, `check(x)` is True, unless one of x's counters wrapped past 255. */
  lemma AddThenCheck(cs: seq<UInt8>, hash: HashFn, k: nat, item: Key)
    requires Sized(|cs|, k)
    requires NoWrap(cs, hash, k, item)
    ensures MayContain(Added(cs, hash, k, item), hash, k, item)
  {
    forall s | 0 <= s < k
      ensures Added(cs, hash, k, item)[Digest(hash, |cs|, item, s)] != 0
    {
      var d := Digest(hash, |cs|, item, s);
      HitsSelected(hash, |cs|, item, k, s);
      AddedCounts(cs, hash, k, item, d);
    }
  }

  /** A further `add(y)` without wrap-around never turns a True `check(x)` into False. */
  lemma AddKeepsMembers(cs: seq<UInt8>, hash: HashFn, k: nat, x: Key, y: Key)
    requires Sized(|cs|, k)
    requires MayContain(cs, hash, k, x)
    requires NoWrap(cs, hash, k, y)
    ensures MayContain(Added(cs, hash, k, y), hash, k, x)
  {
    forall s | 0 <= s < k
      ensures Added(cs, hash, k, y)[Digest(hash, |cs|, x, s)] != 0
    {
      var d := Digest(hash, |cs|, x, s);
      AddedCounts(cs, hash, k, y, d);
    }
  }

  /**
   * No false negatives: after a run of adds in which no counter wraps,
   * `check` is True for every added item and for every item it was already
   * True for.
   */
  lemma {:induction false} NoFalseNegatives(cs: seq<UInt8>, hash: HashFn, k: nat, items: seq<Key>, x: Key)
    requires Sized(|cs|, k)
    requires NoWrapAll(cs, hash, k, items)
    requires x in items || MayContain(cs, hash, k, x)
    ensures MayContain(AddedAll(cs, hash, k, items), hash, k, x)
    decreases |items|
  {
    if items != [] {
      var next := Added(cs, hash, k, items[0]);
      if x == items[0] {
        AddThenCheck(cs, hash, k, x);
      } else if x !in items {
        AddKeepsMembers(cs, hash, k, x, items[0]);
      } else {
        assert x in items[1..];
      }
      if MayContain(cs, hash, k, x) {
        AddKeepsMembers(cs, hash, k, x, items[0]);
      }
      NoFalseNegatives(next, hash, k, items[1..], x);
    }
  }

  /** `CountingBloomFilter`: the counter array and its sizes. */
  class CountingBloomFilter {
    /** `bit_array_size` (m). */
    const size: nat
    /** `num_hash_fns` (k). */
    const hashCount: nat
    const hash: HashFn
    /** `bit_array`, a NumPy array of `uint8` counters. */
    const counters: array<UInt8>
    /** The items added since the filter was built, in order. */
    ghost var items: seq<Key>

    /** The counters are a fresh array's after the increments of every added item. */
    ghost predicate Valid()
      reads this, counters
    {
      counters.Length == size && Sized(size, hashCount) &&
      counters[..] == AddedAll(Zeros(size), hash, hashCount, items)
    }

    /** A new filter: every counter zero. */
    constructor (size: nat, hashCount: nat, hash: HashFn)
      requires Sized(size, hashCount)
      ensures Valid() && fresh(counters) && items == []
      ensures this.size == size && this.hashCount == hashCount && this.hash == hash
      ensures forall i :: 0 <= i < size ==> counters[i] == 0
    {
      this.size := size;
      this.hashCount := hashCount;
      this.hash := hash;
      counters := new UInt8[size](_ => 0);
      items := [];
      new;
      assert counters[..] == Zeros(size);
    }

    /** `add(item)`: the item's increments, and it joins the added items. */
    method Add(item: Key)
      requires Valid()
      modifies this`items, counters
      ensures Valid() && items == old(items) + [item]
      ensures counters[..] == Added(old(counters[..]), hash, hashCount, item)
    {
      AddedAllSnoc(Zeros(size), hash, hashCount, items, item);
      Increment(item);
      items := items + [item];
    }

    /** The loop of `add(item)`: one increment per seed, at that seed's digest. */
    method Increment(item: Key)
      requires counters.Length == size && Sized(size, hashCount)
      modifies counters
      ensures counters[..] == Added(old(counters[..]), hash, hashCount, item)
    {
      for seed := 0 to hashCount
        invariant counters[..] == Added(old(counters[..]), hash, seed, item)
      {
        var digest := Digest(hash, size, item, seed);
        counters[digest] := Inc(counters[digest]);
      }
    }

    /** `check(item)`: False as soon as one selected counter is zero; reads only. */
    method Check(item: Key) returns (r: bool)
      requires Valid()
      ensures r == MayContain(counters[..], hash, hashCount, item)
      ensures item in items && NoWrapAll(Zeros(size), hash, hashCount, items) ==> r
    {
      if item in items && NoWrapAll(Zeros(size), hash, hashCount, items) {
        NoFalseNegatives(Zeros(size), hash, hashCount, items, item);
      }
      for seed := 0 to hashCount
        invariant forall s :: 0 <= s < seed ==> counters[Digest(hash, size, item, s)] != 0
      {
        var digest := Digest(hash, size, item, seed);
        if counters[digest] == 0 {
          assert !MayContain(counters[..], hash, hashCount, item) by {
            assert counters[..][Digest(hash, size, item, seed)] == 0;
          }
          return false;
        }
      }
      return true;
    }
  }
}
