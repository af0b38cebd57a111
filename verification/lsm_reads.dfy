/**
 * What `db_get` answers after a run of `db_set` calls: the read as a
 * function of the engine's state, the invariant that ties the index, the
 * segment files and the bloom filter to the flushes that wrote them, and
 * the theorem that a key read back gives the value last written to it,
 * before and after any number of flushes.
 */
module LsmReads {
  import opened Wrappers
  import opened ByteKeys
  import opened Text
  import opened Assoc
  import opened LogLines
  import opened Segments
  import opened RbShape
  import opened RedBlackTrees
  import opened CountingBloom
  import opened LsmRules
  import opened LsmStore

  /**
   * `db_get(key)` on a state whose bloom filter is a fresh filter of `m`
   * counters and `k` hash functions after the adds of `st.bloom`: the
   * memtable's value, None when the filter rules the key out, otherwise
   * the read through the index entry at the key's floor.
   */
  function Get(json: Json, hash: HashFn, m: nat, k: nat, st: Store, key: Key): Outcome<Option<Value>>
    requires Sized(m, k)
  {
    match Lookup(st.memtable, key)
    case Some(it) => Ok(Some(it.value))
    case None =>
      if !MayContain(AddedAll(Zeros(m), hash, k, st.bloom), hash, k, key) then Ok(None)
      else Probe(json, st.files, st.segments, FloorEntry(st.index, key), key)
  }

  /** A new engine's state on an empty directory and an empty log. */
  function Empty(current: string): Store {
    Store([], [], 0, [], current, map[], [], [])
  }

  /** `db_set` of each write in turn, stopping at the first that raises. */
  ghost function Run(json: Json, st: Store, threshold: int, factor: int, ws: seq<(Key, Value)>): (Store, bool)
    decreases |ws|
  {
    if ws == [] then (st, true)
    else
      var (st1, ok) := Run(json, st, threshold, factor, ws[..|ws| - 1]);
      if !ok then (st1, false)
      else SetStore(json, st1, threshold, factor, ws[|ws| - 1].0, ws[|ws| - 1].1)
  }

  /** Each key's last written value. */
  function Written(ws: seq<(Key, Value)>): map<Key, Value>
    decreases |ws|
  {
    if ws == [] then map[]
    else Written(ws[..|ws| - 1])[ws[|ws| - 1].0 := ws[|ws| - 1].1]
  }

  /** The sparsity the flushes of a run use, where one is defined. */
  function RunSparsity(threshold: int, factor: int): int {
    match Sparsity(threshold, factor)
    case None => 0
    case Some(s) => s
  }

  /** The integer after the dash of a segment name `name-<n>`, where `incremented_segment_name` reads one. */
  function SegmentNumber(name: string): Option<int> {
    match SplitOnce(name, '-')
    case None => None
    case Some((_, number)) => if '-' in number then None else ParseInt(number)
  }

  /** Segment name `a` carries a smaller number than `b`. */
  predicate NumberBelow(a: string, b: string) {
    SegmentNumber(a).Some? && SegmentNumber(b).Some? && SegmentNumber(a).value < SegmentNumber(b).value
  }

  /**
   * The segment names carry increasing numbers, all below the current
   * name's where it has one: no two segments share a file.
   */
  ghost predicate Numbered(segments: seq<string>, current: string) {
    (forall i :: 0 <= i < |segments| ==> SegmentNumber(segments[i]).Some?) &&
    (forall i, j :: 0 <= i < j < |segments| ==> NumberBelow(segments[i], segments[j])) &&
    (SegmentNumber(current).Some? ==> forall i :: 0 <= i < |segments| ==> NumberBelow(segments[i], current))
  }

  /** A name without a dash, a dash and a suffix split back at the first dash. */
  lemma {:induction false} SplitNamed(name: string, suffix: string)
    requires '-' !in name
    ensures SplitOnce(name + "-" + suffix, '-') == Some((name, suffix))
  {
    var whole := name + "-" + suffix;
    FindAt(name, "-" + suffix, '-');
    assert whole == name + ("-" + suffix);
    assert whole[..|name|] == name && whole[|name| + 1..] == suffix;
  }

  /** An incremented name has the next number, where it has one. */
  lemma {:induction false} IncrementedNumber(current: string)
    requires IncrementedSegmentName(current).Some?
    ensures SegmentNumber(current).Some?
    ensures var next := IncrementedSegmentName(current).value;
      SegmentNumber(next).Some? ==> SegmentNumber(next).value == SegmentNumber(current).value + 1
  {
    var (name, number) := SplitOnce(current, '-').value;
    var n := ParseInt(number).value;
    assert SegmentNumber(current) == Some(n);
    var digits := ShowInt(n + 1);
    assert IncrementedSegmentName(current).value == name + "-" + digits;
    SplitNamed(name, digits);
    ParseShowInt(n + 1);
  }

  /** Index entry `it` for `ik` is sample `t` of the flush of segment `j`. */
  ghost predicate SampledAt(json: Json, s: int, segments: seq<string>, contents: seq<seq<Entry<Item<Value>>>>,
                            j: int, t: int, ik: Key, it: Item<Option<Value>>)
  {
    0 <= j < |segments| && j < |contents| &&
    var samples := Samples(KeySeq(contents[j]), SegmentLines(json, contents[j]), s);
    0 <= t < |samples| && samples[t].0 == ik &&
    it.segment == Some(segments[j]) && it.offset == Some(samples[t].1)
  }

  /** Every index entry is a sample of one of the flushes. */
  ghost predicate IndexSampled(json: Json, s: int, st: Store, contents: seq<seq<Entry<Item<Value>>>>) {
    forall ik :: Lookup(st.index, ik).Some? ==>
      exists j, t :: SampledAt(json, s, st.segments, contents, j, t, ik, Lookup(st.index, ik).value)
  }

  /** Every key of the memtable holds its last written value. */
  ghost predicate MemtableWritten(st: Store, written: map<Key, Value>) {
    forall key :: key in KeysOf(st.memtable) ==> key in written && ValueAt(st.memtable, key) == Some(written[key])
  }

  /** Every key of a flushed segment holds its last written value there and was added to the bloom filter. */
  ghost predicate SegmentsWritten(st: Store, contents: seq<seq<Entry<Item<Value>>>>, written: map<Key, Value>) {
    forall j, key :: 0 <= j < |contents| && key in KeysOf(contents[j]) ==>
      key in written && ValueAt(contents[j], key) == Some(written[key]) && key in st.bloom
  }

  /** Every written key is in the memtable or in a flushed segment. */
  ghost predicate Covered(st: Store, contents: seq<seq<Entry<Item<Value>>>>, written: map<Key, Value>) {
    forall key :: key in written ==>
      key in KeysOf(st.memtable) || exists j :: 0 <= j < |contents| && key in KeysOf(contents[j])
  }

  /**
   * The engine's state after writes whose last values are `written`, with
   * `contents[j]` the memtable flushed to segment `j`: the files hold the
   * flushed segments under distinct names, the trees are sorted, every
   * index entry is a sample of a flush, every key holds its last value
   * wherever it is, and every written key is somewhere.
   */
  ghost predicate Consistent(json: Json, s: int, st: Store, contents: seq<seq<Entry<Item<Value>>>>, written: map<Key, Value>) {
    Flushed(json, st.files, st.segments, contents) && Numbered(st.segments, st.current) &&
    Sorted(st.memtable) && Sorted(st.index) && IndexSampled(json, s, st, contents) &&
    MemtableWritten(st, written) && SegmentsWritten(st, contents, written) && Covered(st, contents, written)
  }

  /** The floor key found is not above the key looked for. */
  lemma {:induction false} FloorKeyNotAbove<T>(es: seq<Entry<T>>, key: Key)
    ensures FloorKey(es, key).Some? ==> !Less(key, FloorKey(es, key).value)
    decreases |es|
  {
    if es != [] {
      FloorKeyNotAbove(es[1..], key);
    }
  }

  /** Where every segment holding the key holds `v`, and one does if `v` is a value, the newest value is `v`. */
  lemma {:induction false} NewestAll(contents: seq<seq<Entry<Item<Value>>>>, key: Key, v: Option<Value>)
    requires forall j :: 0 <= j < |contents| ==> ValueAt(contents[j], key).None? || ValueAt(contents[j], key) == v
    requires v.Some? ==> exists j :: 0 <= j < |contents| && ValueAt(contents[j], key) == v
    ensures Newest(contents, key) == v
    decreases |contents|
  {
    if contents != [] {
      var last := |contents| - 1;
      if ValueAt(contents[last], key).None? {
        var init := contents[..last];
        assert forall j :: 0 <= j < |init| ==> init[j] == contents[j];
        if v.Some? {
          var j :| 0 <= j < |contents| && ValueAt(contents[j], key) == v;
          assert j < last && init[j] == contents[j];
        }
        NewestAll(init, key, v);
      }
    }
  }

  /** On a consistent state, a key outside the memtable has its last written value as its newest value on disk. */
  lemma {:induction false} ConsistentNewest(st: Store, contents: seq<seq<Entry<Item<Value>>>>, written: map<Key, Value>, key: Key)
    requires SegmentsWritten(st, contents, written) && Covered(st, contents, written) && key !in KeysOf(st.memtable)
    ensures forall j :: 0 <= j < |contents| ==>
      ValueAt(contents[j], key).None? || ValueAt(contents[j], key) == if key in written then Some(written[key]) else None
    ensures Newest(contents, key) == if key in written then Some(written[key]) else None
  {
    var w := if key in written then Some(written[key]) else None;
    forall j | 0 <= j < |contents| ensures ValueAt(contents[j], key).None? || ValueAt(contents[j], key) == w {
    }
    if w.Some? {
      var j :| 0 <= j < |contents| && key in KeysOf(contents[j]);
    }
    NewestAll(contents, key, w);
  }

  /** On a consistent state, a read through the index gives a key's last written value, or None. */
  lemma {:induction false} ConsistentProbe(json: Json, s: int, st: Store, contents: seq<seq<Entry<Item<Value>>>>,
                                           written: map<Key, Value>, key: Key)
    requires Lawful(json) && Flushed(json, st.files, st.segments, contents) && Sorted(st.index)
    requires IndexSampled(json, s, st, contents) && SegmentsWritten(st, contents, written) && Covered(st, contents, written)
    requires key !in KeysOf(st.memtable)
    ensures Probe(json, st.files, st.segments, FloorEntry(st.index, key), key) == Ok(if key in written then Some(written[key]) else None)
  {
    var w := if key in written then Some(written[key]) else None;
    ConsistentNewest(st, contents, written, key);
    assert SearchAll(json, st.files, st.segments, key) == Ok(w) by {
      SearchAllNewest(json, st.files, st.segments, contents, key);
    }
    if FloorEntry(st.index, key).Some? {
      var entry := FloorEntry(st.index, key).value;
      var f := FloorKey(st.index, key).value;
      FloorKeyNotAbove(st.index, key);
      assert Lookup(st.index, f) == Some(entry);
      var j, t :| SampledAt(json, s, st.segments, contents, j, t, f, entry);
      ProbeFlushed(json, st.files, st.segments, contents, j, s, t, entry, key);
    }
  }

  /**
   * On a consistent state whose bloom filter has not wrapped, `db_get`
   * returns the last value written to the key, and None for a key never
   * written.
   */
  lemma {:induction false} GetConsistent(json: Json, hash: HashFn, m: nat, k: nat, s: int, st: Store,
                      contents: seq<seq<Entry<Item<Value>>>>, written: map<Key, Value>, key: Key)
    requires Lawful(json) && Sized(m, k) && Consistent(json, s, st, contents, written)
    requires NoWrapAll(Zeros(m), hash, k, st.bloom)
    ensures Get(json, hash, m, k, st, key) == Ok(if key in written then Some(written[key]) else None)
  {
    if key !in KeysOf(st.memtable) {
      ConsistentProbe(json, s, st, contents, written, key);
      if key in written {
        assert key in st.bloom by {
          var j :| 0 <= j < |contents| && key in KeysOf(contents[j]);
        }
        NoFalseNegatives(Zeros(m), hash, k, st.bloom, key);
      }
    }
  }

  /** A sample offset found for `k` is that of one of the samples of `k`. */
  lemma {:induction false} SampleOffsetIndex(samples: seq<(Key, nat)>, k: Key) returns (t: nat)
    requires SampleOffset(samples, k).Some?
    ensures t < |samples| && samples[t] == (k, SampleOffset(samples, k).value)
    decreases |samples|
  {
    var init := samples[..|samples| - 1];
    if SampleOffset(init, k).Some? {
      t := SampleOffsetIndex(init, k);
    } else {
      t := |samples| - 1;
    }
  }

  /** A numbered current name is none of the segments'. */
  lemma NumberedFresh(segments: seq<string>, current: string)
    requires Numbered(segments, current) && SegmentNumber(current).Some?
    ensures forall i :: 0 <= i < |segments| ==> segments[i] != current
  {
    forall i | 0 <= i < |segments| ensures segments[i] != current {
      assert NumberBelow(segments[i], current);
    }
  }

  /** A name below the current one is below the next, whose number is one more. */
  lemma BelowNext(a: string, current: string, next: string)
    requires NumberBelow(a, current) && SegmentNumber(next).Some?
    requires SegmentNumber(next).value == SegmentNumber(current).value + 1
    ensures NumberBelow(a, next)
  {
  }

  /** Moving to the next segment name keeps the names numbered. */
  lemma NumberedStep(segments: seq<string>, current: string, next: string)
    requires Numbered(segments, current) && SegmentNumber(current).Some?
    requires SegmentNumber(next).Some? ==> SegmentNumber(next).value == SegmentNumber(current).value + 1
    ensures Numbered(segments + [current], next)
  {
    var all := segments + [current];
    forall i | 0 <= i < |all| ensures SegmentNumber(all[i]).Some? {
      if i < |segments| {
        assert all[i] == segments[i];
      }
    }
    forall i, j | 0 <= i < j < |all| ensures NumberBelow(all[i], all[j]) {
      assert all[i] == segments[i];
      if j < |segments| {
        assert all[j] == segments[j];
      }
    }
    forall i | 0 <= i < |all| && SegmentNumber(next).Some? ensures NumberBelow(all[i], next) {
      if i < |segments| {
        assert all[i] == segments[i];
        BelowNext(all[i], current, next);
      }
    }
  }

  /** Writing the memtable to a new segment name keeps every earlier segment's file. */
  lemma FlushedStep(json: Json, files: map<string, seq<string>>, segments: seq<string>, contents: seq<seq<Entry<Item<Value>>>>,
                    current: string, mem: seq<Entry<Item<Value>>>)
    requires Flushed(json, files, segments, contents) && Sorted(mem)
    requires forall i :: 0 <= i < |segments| ==> segments[i] != current
    ensures Flushed(json, files[current := SegmentLines(json, mem)], segments + [current], contents + [mem])
  {
    var segs, cs := segments + [current], contents + [mem];
    forall i | 0 <= i < |segments| ensures segs[i] == segments[i] && cs[i] == contents[i] {
    }
  }

  /** A flush's index entries are its samples; the entries kept are the earlier flushes'. */
  lemma FlushIndexSampled(json: Json, s: int, st: Store, contents: seq<seq<Entry<Item<Value>>>>, st1: Store)
    requires IndexSampled(json, s, st, contents) && |contents| == |st.segments|
    requires st1.segments == st.segments + [st.current]
    requires st1.index == Indexed(st.index, Samples(KeySeq(st.memtable), SegmentLines(json, st.memtable), s), st.current)
    ensures IndexSampled(json, s, st1, contents + [st.memtable])
  {
    var samples := Samples(KeySeq(st.memtable), SegmentLines(json, st.memtable), s);
    var segs, cs := st1.segments, contents + [st.memtable];
    forall ik | Lookup(st1.index, ik).Some?
      ensures exists j, t :: SampledAt(json, s, segs, cs, j, t, ik, Lookup(st1.index, ik).value)
    {
      LookupIndexed(st.index, samples, st.current, ik);
      var it := Lookup(st1.index, ik).value;
      if SampleOffset(samples, ik).Some? && Lookup(st.index, ik).None? {
        var t := SampleOffsetIndex(samples, ik);
        var j := |st.segments|;
        assert segs[j] == st.current && cs[j] == st.memtable;
        assert SampledAt(json, s, segs, cs, j, t, ik, it);
      } else {
        var was := Lookup(st.index, ik).value;
        var j, t :| SampledAt(json, s, st.segments, contents, j, t, ik, was);
        assert segs[j] == st.segments[j] && cs[j] == contents[j];
        assert SampledAt(json, s, segs, cs, j, t, ik, it);
      }
    }
  }

  /** The flushed memtable's keys keep their values in the new segment and join the bloom filter. */
  lemma FlushSegmentsWritten(st: Store, contents: seq<seq<Entry<Item<Value>>>>, written: map<Key, Value>, st1: Store)
    requires SegmentsWritten(st, contents, written) && MemtableWritten(st, written)
    requires st1.bloom == st.bloom + KeySeq(st.memtable)
    ensures SegmentsWritten(st1, contents + [st.memtable], written)
  {
    var cs := contents + [st.memtable];
    forall j, key | 0 <= j < |cs| && key in KeysOf(cs[j])
      ensures key in written && ValueAt(cs[j], key) == Some(written[key]) && key in st1.bloom
    {
      if j < |contents| {
        assert cs[j] == contents[j];
      } else {
        assert cs[j] == st.memtable;
        var e :| e in st.memtable && e.0 == key;
        var i :| 0 <= i < |st.memtable| && st.memtable[i] == e;
        assert KeySeq(st.memtable)[i] == key;
      }
    }
  }

  /** After a flush every written key is still somewhere: the memtable's keys are in the new segment. */
  lemma FlushCovered(st: Store, contents: seq<seq<Entry<Item<Value>>>>, written: map<Key, Value>, st1: Store)
    requires Covered(st, contents, written) && st1.memtable == []
    ensures Covered(st1, contents + [st.memtable], written)
  {
    var cs := contents + [st.memtable];
    forall key | key in written
      ensures exists j :: 0 <= j < |cs| && key in KeysOf(cs[j])
    {
      if key in KeysOf(st.memtable) {
        assert cs[|contents|] == st.memtable;
      } else {
        var j :| 0 <= j < |contents| && key in KeysOf(contents[j]);
        assert cs[j] == contents[j];
      }
    }
  }

  /** A flush keeps the store consistent with what was written, the memtable becoming the newest segment. */
  lemma FlushConsistent(json: Json, s: int, st: Store, contents: seq<seq<Entry<Item<Value>>>>, written: map<Key, Value>)
    requires Consistent(json, s, st, contents, written) && IncrementedSegmentName(st.current).Some?
    ensures Consistent(json, s, StartedSegment(FlushedStore(json, st, s)).0, contents + [st.memtable], written)
  {
    var st1 := StartedSegment(FlushedStore(json, st, s)).0;
    var cs := contents + [st.memtable];
    IncrementedNumber(st.current);
    NumberedFresh(st.segments, st.current);
    NumberedStep(st.segments, st.current, st1.current);
    FlushedStep(json, st.files, st.segments, contents, st.current, st.memtable);
    IndexedSorted(st.index, Samples(KeySeq(st.memtable), SegmentLines(json, st.memtable), s), st.current);
    FlushIndexSampled(json, s, st, contents, st1);
    FlushSegmentsWritten(st, contents, written, st1);
    FlushCovered(st, contents, written, st1);
  }

  /** Inserting a new key's item binds it to its value in the memtable and keeps the other keys'. */
  lemma LoggedMemtable(st: Store, written: map<Key, Value>, key: Key, value: Value, st1: Store)
    requires MemtableWritten(st, written) && Sorted(st.memtable)
    requires st1.memtable == Insert(st.memtable, key, Stored(Lookup(st.memtable, key), value, None, None))
    ensures MemtableWritten(st1, written[key := value]) && Sorted(st1.memtable)
    ensures KeysOf(st1.memtable) == KeysOf(st.memtable) + {key}
  {
    var w := written[key := value];
    InsertSorted(st.memtable, key, Stored(Lookup(st.memtable, key), value, None, None));
    forall k | k in KeysOf(st1.memtable) ensures k in w && ValueAt(st1.memtable, k) == Some(w[k]) {
      LookupInsert(st.memtable, key, Stored(Lookup(st.memtable, key), value, None, None), k);
    }
  }

  /** The segments hold none of a new key, so writing it keeps them written. */
  lemma GrownSegmentsWritten(st: Store, contents: seq<seq<Entry<Item<Value>>>>, written: map<Key, Value>,
                             key: Key, value: Value, st1: Store)
    requires SegmentsWritten(st, contents, written) && key !in written && st1.bloom == st.bloom
    ensures SegmentsWritten(st1, contents, written[key := value])
  {
  }

  /** Every written key stays covered when the memtable gains the new key. */
  lemma GrownCovered(st: Store, contents: seq<seq<Entry<Item<Value>>>>, written: map<Key, Value>,
                     key: Key, value: Value, st1: Store)
    requires Covered(st, contents, written) && KeysOf(st1.memtable) == KeysOf(st.memtable) + {key}
    ensures Covered(st1, contents, written[key := value])
  {
  }

  /** The index entries keep their samples while the index and the segments stay. */
  lemma SameIndexSampled(json: Json, s: int, st: Store, contents: seq<seq<Entry<Item<Value>>>>, st1: Store)
    requires IndexSampled(json, s, st, contents) && st1.index == st.index && st1.segments == st.segments
    ensures IndexSampled(json, s, st1, contents)
  {
  }

  /** A store that differs only in a memtable holding one more written key stays consistent. */
  lemma MemtableGrown(json: Json, s: int, st: Store, contents: seq<seq<Entry<Item<Value>>>>, written: map<Key, Value>,
                      key: Key, value: Value, st1: Store)
    requires Consistent(json, s, st, contents, written) && key !in written
    requires st1.files == st.files && st1.segments == st.segments && st1.current == st.current
    requires st1.index == st.index && st1.bloom == st.bloom
    requires MemtableWritten(st1, written[key := value]) && Sorted(st1.memtable)
    requires KeysOf(st1.memtable) == KeysOf(st.memtable) + {key}
    ensures Consistent(json, s, st1, contents, written[key := value])
  {
    GrownSegmentsWritten(st, contents, written, key, value, st1);
    GrownCovered(st, contents, written, key, value, st1);
    SameIndexSampled(json, s, st, contents, st1);
  }

  /** Logging a new key keeps the store consistent, the key now in the memtable. */
  lemma LoggedConsistent(json: Json, s: int, st: Store, contents: seq<seq<Entry<Item<Value>>>>, written: map<Key, Value>,
                         key: Key, value: Value, size: int)
    requires Consistent(json, s, st, contents, written) && key !in written
    ensures Consistent(json, s, Logged(json, st, key, value, size), contents, written[key := value])
  {
    var st1 := Logged(json, st, key, value, size);
    LoggedMemtable(st, written, key, value, st1);
    MemtableGrown(json, s, st, contents, written, key, value, st1);
  }

  /**
   * A write of a new key that returns keeps the store consistent with what
   * was written; the flushed segments' contents grow by the memtable when
   * it flushes.
   */
  lemma SetConsistent(json: Json, threshold: int, factor: int, st: Store, contents: seq<seq<Entry<Item<Value>>>>,
                      written: map<Key, Value>, key: Key, value: Value)
    returns (contents1: seq<seq<Entry<Item<Value>>>>)
    requires Consistent(json, RunSparsity(threshold, factor), st, contents, written) && key !in written
    requires SetStore(json, st, threshold, factor, key, value).1
    ensures Consistent(json, RunSparsity(threshold, factor), SetStore(json, st, threshold, factor, key, value).0, contents1, written[key := value])
  {
    var s := RunSparsity(threshold, factor);
    var size := AdditionalSize(json, key, value);
    assert key !in KeysOf(st.memtable);
    if st.totalBytes + size <= threshold {
      contents1 := contents;
      LoggedConsistent(json, s, st, contents, written, key, value, size);
    } else {
      contents1 := contents + [st.memtable];
      FlushConsistent(json, s, st, contents, written);
      var st1 := StartedSegment(FlushedStore(json, st, s)).0;
      LoggedConsistent(json, s, st1, contents1, written, key, value, size);
    }
  }

  /** No key is written twice. */
  predicate DistinctKeys(ws: seq<(Key, Value)>) {
    forall a, b :: 0 <= a < b < |ws| ==> ws[a].0 != ws[b].0
  }

  /** Only written keys have a last value. */
  lemma {:induction false} WrittenKeys(ws: seq<(Key, Value)>, key: Key)
    requires key in Written(ws)
    ensures exists i :: 0 <= i < |ws| && ws[i].0 == key
    decreases |ws|
  {
    var init := ws[..|ws| - 1];
    if key != ws[|ws| - 1].0 {
      WrittenKeys(init, key);
      var i :| 0 <= i < |init| && init[i].0 == key;
      assert ws[i] == init[i];
    }
  }

  /** With no key written twice, each write's value is its key's last value. */
  lemma {:induction false} WrittenAt(ws: seq<(Key, Value)>, i: int)
    requires DistinctKeys(ws) && 0 <= i < |ws|
    ensures ws[i].0 in Written(ws) && Written(ws)[ws[i].0] == ws[i].1
    decreases |ws|
  {
    var init := ws[..|ws| - 1];
    if i < |ws| - 1 {
      assert init[i] == ws[i];
      WrittenAt(init, i);
    }
  }

  /** A run of writes of distinct keys that returns leaves the store consistent with them. */
  lemma {:induction false} RunConsistent(json: Json, threshold: int, factor: int, current: string, ws: seq<(Key, Value)>)
    returns (contents: seq<seq<Entry<Item<Value>>>>)
    requires DistinctKeys(ws) && Run(json, Empty(current), threshold, factor, ws).1
    ensures Consistent(json, RunSparsity(threshold, factor), Run(json, Empty(current), threshold, factor, ws).0, contents, Written(ws))
    decreases |ws|
  {
    var s := RunSparsity(threshold, factor);
    if ws == [] {
      contents := [];
      assert Consistent(json, s, Empty(current), [], map[]);
    } else {
      var init, last := ws[..|ws| - 1], ws[|ws| - 1];
      assert DistinctKeys(init);
      var c0 := RunConsistent(json, threshold, factor, current, init);
      var st0 := Run(json, Empty(current), threshold, factor, init).0;
      assert last.0 !in Written(init) by {
        if last.0 in Written(init) {
          WrittenKeys(init, last.0);
        }
      }
      contents := SetConsistent(json, threshold, factor, st0, c0, Written(init), last.0, last.1);
    }
  }

  /**
   * After `db_set` of distinct keys from a new engine, where every call
   * returned and no bloom counter wrapped, `db_get` of a written key gives
   * its value and of any other key gives None, before and after any number
   * of flushes.
   */
  lemma GetAfterSets(json: Json, hash: HashFn, m: nat, k: nat, threshold: int, factor: int, current: string,
                     ws: seq<(Key, Value)>)
    requires Lawful(json) && Sized(m, k) && DistinctKeys(ws)
    requires Run(json, Empty(current), threshold, factor, ws).1
    requires NoWrapAll(Zeros(m), hash, k, Run(json, Empty(current), threshold, factor, ws).0.bloom)
    ensures forall i :: 0 <= i < |ws| ==> Get(json, hash, m, k, Run(json, Empty(current), threshold, factor, ws).0, ws[i].0) == Ok(Some(ws[i].1))
    ensures forall key :: (forall i :: 0 <= i < |ws| ==> ws[i].0 != key) ==>
      Get(json, hash, m, k, Run(json, Empty(current), threshold, factor, ws).0, key) == Ok(None)
  {
    var st := Run(json, Empty(current), threshold, factor, ws).0;
    var s := RunSparsity(threshold, factor);
    var contents := RunConsistent(json, threshold, factor, current, ws);
    forall i | 0 <= i < |ws| ensures Get(json, hash, m, k, st, ws[i].0) == Ok(Some(ws[i].1)) {
      WrittenAt(ws, i);
      GetConsistent(json, hash, m, k, s, st, contents, Written(ws), ws[i].0);
    }
    forall key | forall i :: 0 <= i < |ws| ==> ws[i].0 != key
      ensures Get(json, hash, m, k, st, key) == Ok(None)
    {
      if key in Written(ws) {
        WrittenKeys(ws, key);
      }
      GetConsistent(json, hash, m, k, s, st, contents, Written(ws), key);
    }
  }
}
