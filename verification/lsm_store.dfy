/**
 * The storage engine's state as a value, and what `db_set` does to it: the
 * write path as functions of the state, with the lemmas that say what a
 * write guarantees (the log still rebuilds the memtable, the key reads back,
 * a flushed memtable is found in its segment). The engine's methods are
 * proved against these functions.
 */
module LsmStore {
  import opened Wrappers
  import opened ByteKeys
  import opened Assoc
  import opened LogLines
  import opened Segments
  import opened RbShape
  import opened RedBlackTrees
  import opened LsmRules

  /**
   * The engine's state: the write-ahead log's lines, the memtable's entries
   * and byte count, the segment list and the current segment, the segment
   * files, the index's entries and the keys added to the bloom filter.
   */
  datatype Store = Store(wal: seq<string>, memtable: seq<Entry<Item<Value>>>, totalBytes: int,
                         segments: seq<string>, current: string, files: map<string, seq<string>>,
                         index: seq<Entry<Item<Option<Value>>>>, bloom: seq<Key>)

  /** The bytes a write of a new key adds to the memtable's count: the key and the JSON text of the value. */
  function AdditionalSize(json: Json, key: Key, value: Value): nat {
    |key| + |SerializeValue(json, value)|
  }

  /** The log rebuilds the memtable: every line reads, and replaying them onto an empty tree gives it. */
  ghost predicate Durable(json: Json, st: Store) {
    Replayable(json, st.wal) && st.memtable == Replayed(json, [], st.wal)
  }

  /** The write is logged, the key added to the memtable with `value`, and `size` more bytes counted. */
  function Logged(json: Json, st: Store, key: Key, value: Value, size: int): Store {
    st.(wal := st.wal + [ToLogEntry(json, key, value)],
        memtable := Insert(st.memtable, key, Stored(Lookup(st.memtable, key), value, None, None)),
        totalBytes := st.totalBytes + size)
  }

  /**
   * The memtable flushed with sparsity `s`: its lines are the current
   * segment's file, every `s`-th key an index entry, every key in the bloom
   * filter.
   */
  function FlushedStore(json: Json, st: Store, s: int): Store {
    var lines := SegmentLines(json, st.memtable);
    st.(files := st.files[st.current := lines],
        index := Indexed(st.index, Samples(KeySeq(st.memtable), lines, s), st.current),
        bloom := st.bloom + KeySeq(st.memtable))
  }

  /**
   * After a flush: an empty memtable and log, the segment appended to the
   * list, and the next segment name; false where the name does not
   * increment (it stays).
   */
  function StartedSegment(st: Store): (Store, bool) {
    var st1 := st.(wal := [], memtable := [], totalBytes := 0, segments := st.segments + [st.current]);
    match IncrementedSegmentName(st.current)
    case None => (st1, false)
    case Some(next) => (st1.(current := next), true)
  }

  /** The flush branch: nothing changes where the sparsity is undefined; otherwise flush then start a segment. */
  function Rotated(json: Json, st: Store, sparsity: Option<int>): (Store, bool) {
    match sparsity
    case None => (st, false)
    case Some(s) => StartedSegment(FlushedStore(json, st, s))
  }

  /** A write of a new key flushes first when it would take the memtable past `threshold`. */
  ghost predicate Rotates(json: Json, st: Store, threshold: int, key: Key, value: Value) {
    key !in KeysOf(st.memtable) && st.totalBytes + AdditionalSize(json, key, value) > threshold
  }

  /**
   * `db_set(key, value)`: the state after it and whether it returned. It
   * raises exactly when it has to flush and either the sparsity is
   * undefined (nothing has changed) or the segment name does not increment
   * (the flush has happened and the memtable is empty).
   */
  ghost function SetStore(json: Json, st: Store, threshold: int, factor: int, key: Key, value: Value): (r: (Store, bool))
    ensures !r.1 <==>
      Rotates(json, st, threshold, key, value) && (Sparsity(threshold, factor).None? || IncrementedSegmentName(st.current).None?)
    ensures !r.1 && Sparsity(threshold, factor).None? ==> r.0 == st
    ensures !r.1 && Sparsity(threshold, factor).Some? ==> r.0.memtable == [] && r.0.wal == [] && r.0.current == st.current
  {
    if key in KeysOf(st.memtable) then (Logged(json, st, key, value, 0), true)
    else
      var size := AdditionalSize(json, key, value);
      if st.totalBytes + size <= threshold then (Logged(json, st, key, value, size), true)
      else
        var (st1, ok) := Rotated(json, st, Sparsity(threshold, factor));
        if ok then (Logged(json, st1, key, value, size), true) else (st1, false)
  }

  /** A logged write keeps the log rebuilding the memtable. */
  lemma LoggedDurable(json: Json, st: Store, key: Key, value: Value, size: int)
    requires Lawful(json) && Durable(json, st)
    ensures Durable(json, Logged(json, st, key, value, size))
  {
    ReplayLogEntry(json, [], st.wal, key, value);
  }

  /**
   * `db_set` keeps the write-ahead log a faithful record of the memtable:
   * replaying the log after a write rebuilds the memtable after it, whether
   * or not the write flushed, and even where it raised.
   */
  lemma SetDurable(json: Json, st: Store, threshold: int, factor: int, key: Key, value: Value)
    requires Lawful(json) && Durable(json, st)
    ensures Durable(json, SetStore(json, st, threshold, factor, key, value).0)
  {
    var size := AdditionalSize(json, key, value);
    if key in KeysOf(st.memtable) || st.totalBytes + size <= threshold {
      LoggedDurable(json, st, key, value, if key in KeysOf(st.memtable) then 0 else size);
    } else {
      var (st1, ok) := Rotated(json, st, Sparsity(threshold, factor));
      if Sparsity(threshold, factor).Some? {
        assert st1.wal == [] && st1.memtable == [];
        assert Durable(json, st1);
        if ok {
          LoggedDurable(json, st1, key, value, size);
        }
      }
    }
  }

  /** After a write that returned, the memtable holds the key with the value written. */
  lemma SetReadsBack(json: Json, st: Store, threshold: int, factor: int, key: Key, value: Value)
    requires SetStore(json, st, threshold, factor, key, value).1
    ensures ValueAt(SetStore(json, st, threshold, factor, key, value).0.memtable, key) == Some(value)
  {
    var size := AdditionalSize(json, key, value);
    var (r, _) := SetStore(json, st, threshold, factor, key, value);
    var base := if key in KeysOf(st.memtable) || st.totalBytes + size <= threshold then st
                else Rotated(json, st, Sparsity(threshold, factor)).0;
    assert r.memtable == Insert(base.memtable, key, Stored(Lookup(base.memtable, key), value, None, None));
    LookupInsert(base.memtable, key, Stored(Lookup(base.memtable, key), value, None, None), key);
  }

  /**
   * A write of a key the memtable holds: one more log line, the byte count
   * unchanged, and only that key's value replaced; its offset and segment,
   * every other entry and the on-disk state stay.
   */
  lemma SetOverwrites(json: Json, st: Store, threshold: int, factor: int, key: Key, value: Value)
    requires key in KeysOf(st.memtable)
    ensures SetStore(json, st, threshold, factor, key, value).1
    ensures var r := SetStore(json, st, threshold, factor, key, value).0;
      r.wal == st.wal + [ToLogEntry(json, key, value)] && r.totalBytes == st.totalBytes &&
      r.files == st.files && r.segments == st.segments && r.current == st.current && r.index == st.index && r.bloom == st.bloom
    ensures var r := SetStore(json, st, threshold, factor, key, value).0;
      forall k :: Lookup(r.memtable, k) == if k == key then Some(Lookup(st.memtable, key).value.(value := value)) else Lookup(st.memtable, k)
  {
    var x := Stored(Lookup(st.memtable, key), value, None, None);
    forall k ensures Lookup(Insert(st.memtable, key, x), k) == if k == key then Some(x) else Lookup(st.memtable, k) {
      LookupInsert(st.memtable, key, x, k);
    }
  }

  /**
   * A write of a new key that fits under the threshold: one more log line,
   * the key's length and its value's JSON length counted, and the key
   * bound to a fresh entry with no offset or segment.
   */
  lemma SetAppends(json: Json, st: Store, threshold: int, factor: int, key: Key, value: Value)
    requires key !in KeysOf(st.memtable) && !Rotates(json, st, threshold, key, value)
    ensures SetStore(json, st, threshold, factor, key, value).1
    ensures var r := SetStore(json, st, threshold, factor, key, value).0;
      r.wal == st.wal + [ToLogEntry(json, key, value)] && r.totalBytes == st.totalBytes + AdditionalSize(json, key, value) &&
      Lookup(r.memtable, key) == Some(Item(value, None, None))
  {
    LookupInsert(st.memtable, key, Item(value, None, None), key);
  }

  /**
   * A write that flushes and moves on to the next segment name starts the
   * new segment with the written key alone: the memtable holds only it,
   * the log only its line, the byte count only its size.
   */
  lemma SetRotates(json: Json, st: Store, threshold: int, factor: int, key: Key, value: Value)
    requires Rotates(json, st, threshold, key, value)
    requires Sparsity(threshold, factor).Some? && IncrementedSegmentName(st.current).Some?
    ensures SetStore(json, st, threshold, factor, key, value).1
    ensures var r := SetStore(json, st, threshold, factor, key, value).0;
      r.memtable == [(key, Item(value, None, None))] && r.wal == [ToLogEntry(json, key, value)] &&
      r.totalBytes == AdditionalSize(json, key, value) &&
      r.current == IncrementedSegmentName(st.current).value && r.segments == st.segments + [st.current]
  {
  }

  /**
   * A write without a flush leaves every other key's value in the memtable
   * as it was, and the segments, index and bloom filter alone.
   */
  lemma SetKeepsOthers(json: Json, st: Store, threshold: int, factor: int, key: Key, value: Value, k: Key)
    requires !Rotates(json, st, threshold, key, value) && k != key
    ensures var r := SetStore(json, st, threshold, factor, key, value).0;
      ValueAt(r.memtable, k) == ValueAt(st.memtable, k) &&
      r.files == st.files && r.segments == st.segments && r.current == st.current && r.index == st.index && r.bloom == st.bloom
  {
    LookupInsert(st.memtable, key, Stored(Lookup(st.memtable, key), value, None, None), k);
  }

  /**
   * A write that flushes puts the memtable's entries in the segment that
   * was current, now the newest of the list, where `search_segment` finds
   * each of them with its value; the bloom filter gets every key of it.
   */
  lemma SetFlushes(json: Json, st: Store, threshold: int, factor: int, key: Key, value: Value, k: Key)
    requires Lawful(json) && Sorted(st.memtable)
    requires Rotates(json, st, threshold, key, value) && Sparsity(threshold, factor).Some?
    ensures var r := SetStore(json, st, threshold, factor, key, value).0;
      r.segments == st.segments + [st.current] && st.current in r.files &&
      BinarySearch(json, Stripped(r.files[st.current]), k) == Ok(ValueAt(st.memtable, k)) &&
      r.bloom == st.bloom + KeySeq(st.memtable)
  {
    SearchFlushed(json, st.memtable, k);
  }
}
