/**
 * The storage engine `LSMTree`: writes go to a write-ahead log and to the
 * memtable (a red-black tree); a memtable that would grow past the threshold
 * is first flushed, in key order, to the current segment file, every
 * `sparsity`-th key of it entering the sparse index (another red-black tree)
 * with its byte offset, and every key entering the counting bloom filter.
 * Reads try the memtable, then the bloom filter, then the segment the index
 * entry at the key's floor points into, then every segment newest first.
 *
 * The segments directory is the field `files` (a file name to its lines) and
 * the write-ahead log the field `wal` (its lines). The JSON codec and the
 * bloom filter's hash are fixed parameters of the engine.
 */
module LsmTrees {
  import opened Wrappers
  import opened ByteKeys
  import opened Text
  import opened Assoc
  import opened LogLines
  import opened Segments
  import opened RbShape
  import opened RedBlackTrees
  import opened CountingBloom
  import opened LsmRules
  import opened LsmStore
  import opened LsmMaintenance
  import opened LsmReads

  class LSMTree {
    const json: Json
    const hash: HashFn
    /** The flushed segments, oldest first. */
    var segments: seq<string>
    /** The segment the next flush writes. */
    var currentSegment: string
    /** The memtable size, in bytes, past which a write flushes it. */
    var threshold: int
    var sparsityFactor: int
    var memtable: RedBlackTree<Value>
    /** Sampled keys of the segments: their offset and segment, no value. */
    var index: RedBlackTree<Option<Value>>
    var bfNumItems: int
    var bfFalsePosProb: real
    var bloomFilter: CountingBloomFilter
    /** The lines of the write-ahead log. */
    var wal: seq<string>
    /** The segments directory: file name to lines. */
    var files: map<string, seq<string>>

    /** Both trees and the bloom filter are valid, and the codec keeps its laws. */
    ghost predicate Valid()
      reads this`memtable, this`index, this`bloomFilter, memtable, index, bloomFilter, bloomFilter.counters
    {
      Lawful(json) && memtable.Valid() && index.Valid() && bloomFilter.Valid() && bloomFilter.hash == hash
    }

    /**
     * `LSMTree(...)` on a directory without saved state: no segments, empty
     * trees, a fresh bloom filter, and the log and segment files found on
     * disk. The bloom filter's size and hash count, which the source derives
     * from `bf_num_items` and `bf_false_pos_prob`, are parameters. It ends
     * with `restore_memtable`: the memtable holds the log's records replayed
     * in order and counts their bytes; the constructor raises, with the
     * readable prefix applied, exactly when a log line does not read.
     */
    constructor (json: Json, hash: HashFn, segmentBasename: string, wal: seq<string>, files: map<string, seq<string>>,
                 threshold: int, sparsityFactor: int, bloomSize: nat, bloomHashCount: nat)
      requires Lawful(json) && Sized(bloomSize, bloomHashCount)
      ensures Valid() && fresh(memtable) && fresh(index) && fresh(bloomFilter) && fresh(bloomFilter.counters)
      ensures this.json == json && this.hash == hash
      ensures currentSegment == segmentBasename && segments == [] && this.wal == wal && this.files == files
      ensures this.threshold == threshold && this.sparsityFactor == sparsityFactor
      ensures memtable.Contents() == Replayed(json, [], wal) && index.Contents() == []
      ensures memtable.totalBytes == TotalLength(wal[..ReadablePrefix(json, wal)])
      ensures Replayable(json, wal) ==> Durable(json, State())
      ensures bfNumItems == 1000000 && bfFalsePosProb == 0.2
      ensures bloomFilter.size == bloomSize && bloomFilter.hashCount == bloomHashCount && bloomFilter.items == []
    {
      this.json := json;
      this.hash := hash;
      currentSegment := segmentBasename;
      segments := [];
      this.threshold := threshold;
      this.sparsityFactor := sparsityFactor;
      memtable := new RedBlackTree();
      index := new RedBlackTree();
      bfNumItems := 1000000;
      bfFalsePosProb := 0.2;
      bloomFilter := new CountingBloomFilter(bloomSize, bloomHashCount, hash);
      this.wal := wal;
      this.files := files;
      new;
      var restored := RestoreMemtable();
    }

    /** The engine's state as a value. */
    ghost function State(): Store
      reads this`wal, this`memtable, this`segments, this`currentSegment, this`files, this`index, this`bloomFilter
      reads memtable, index, bloomFilter
    {
      Store(wal, memtable.Contents(), memtable.totalBytes, segments, currentSegment, files, index.Contents(), bloomFilter.items)
    }

    /**
     * `db_set(key, value)`: the new state is `SetStore`'s. A write that does
     * not flush keeps the memtable object; one that flushes puts a new one
     * in its place.
     */
    method DbSet(key: Key, value: Value) returns (ok: bool)
      requires Valid()
      modifies this`wal, this`memtable, this`segments, this`currentSegment, this`files
      modifies memtable, index, bloomFilter, bloomFilter.counters
      ensures Valid() && (State(), ok) == SetStore(json, old(State()), threshold, sparsityFactor, key, value)
      ensures !Rotates(json, old(State()), threshold, key, value) ==> memtable == old(memtable)
      ensures Rotates(json, old(State()), threshold, key, value) && Sparsity(threshold, sparsityFactor).Some? ==> fresh(memtable)
    {
      var node := memtable.FindNode(key);
      if node != NIL {
        AppendWrite(key, value, 0);
        return true;
      }
      var additionalSize := AdditionalSize(json, key, value);
      if memtable.totalBytes + additionalSize > threshold {
        ok := Rotate();
        if ok {
          AppendWrite(key, value, additionalSize);
        }
      } else {
        AppendWrite(key, value, additionalSize);
        ok := true;
      }
    }

    /**
     * `memtable_wal().write(log)`, `add(key, value)` on the memtable, then
     * `size` more bytes counted (the record's size for a new key, nothing
     * for an overwrite).
     */
    method AppendWrite(key: Key, value: Value, size: int)
      requires Valid()
      modifies this`wal, memtable
      ensures Valid() && State() == Logged(json, old(State()), key, value, size)
    {
      wal := wal + [ToLogEntry(json, key, value)];
      memtable.Add(key, value, None, None);
      memtable.totalBytes := memtable.totalBytes + size;
    }

    /**
     * The flush branch of `db_set`: flush to the current segment (raises,
     * changing nothing, where the sparsity factor is zero), a new empty
     * memtable, the log cleared, the segment appended to the list, then the
     * next segment name (raises where it does not increment).
     */
    method Rotate() returns (ok: bool)
      requires Valid()
      modifies this`wal, this`memtable, this`segments, this`currentSegment, this`files, index, bloomFilter, bloomFilter.counters
      ensures Valid() && (State(), ok) == Rotated(json, old(State()), Sparsity(threshold, sparsityFactor))
      ensures Sparsity(threshold, sparsityFactor).None? ==> memtable == old(memtable)
      ensures Sparsity(threshold, sparsityFactor).Some? ==> fresh(memtable)
    {
      ok := FlushMemtableToDisk();
      if !ok {
        return;
      }
      ok := StartSegment();
    }

    /**
     * What `db_set` does after the flush: a new empty memtable, the log
     * cleared, the segment appended to the list and the next segment name.
     */
    method StartSegment() returns (ok: bool)
      requires Valid()
      modifies this`wal, this`memtable, this`segments, this`currentSegment
      ensures Valid() && fresh(memtable) && (State(), ok) == StartedSegment(old(State()))
    {
      ResetMemtable();
      ok := AdvanceSegment();
    }

    /** `self.memtable = RedBlackTree()` and `memtable_wal().clear()`. */
    method ResetMemtable()
      modifies this`memtable, this`wal
      ensures fresh(memtable) && memtable.Valid() && memtable.Contents() == [] && memtable.totalBytes == 0 && wal == []
    {
      memtable := new RedBlackTree();
      wal := [];
    }

    /**
     * `segments.append(current_segment)` then `current_segment =
     * incremented_segment_name(current_segment)`, which raises, after the
     * append, where the name does not increment.
     */
    method AdvanceSegment() returns (ok: bool)
      modifies this`segments, this`currentSegment
      ensures segments == old(segments) + [old(currentSegment)]
      ensures match IncrementedSegmentName(old(currentSegment))
        case None => !ok && currentSegment == old(currentSegment)
        case Some(next) => ok && currentSegment == next
    {
      segments := segments + [currentSegment];
      var next := IncrementedSegmentName(currentSegment);
      if next.None? {
        return false;
      }
      currentSegment := next.value;
      return true;
    }

    /**
     * `flush_memtable_to_disk(current_segment_path())`: the memtable's
     * records, in key order, become the lines of the current segment's file;
     * every `sparsity`-th key gets an index entry with the offset its line
     * starts at, and every key goes into the bloom filter. Raises, before the
     * file is opened, where the sparsity factor is zero.
     */
    method FlushMemtableToDisk() returns (ok: bool)
      requires Valid()
      modifies this`files, index, bloomFilter, bloomFilter.counters
      ensures Valid() && ok == Sparsity(threshold, sparsityFactor).Some?
      ensures State() == if ok then FlushedStore(json, old(State()), Sparsity(threshold, sparsityFactor).value) else old(State())
    {
      var sparsity := Sparsity(threshold, sparsityFactor);
      if sparsity.None? {
        return false;
      }
      var lines := WriteSegment(sparsity.value);
      files := files[currentSegment := lines];
      return true;
    }

    /**
     * The loop of `flush_memtable_to_disk` over the memtable's nodes in key
     * order, with sparsity `s`: the lines it writes, in order.
     */
    method WriteSegment(s: int) returns (lines: seq<string>)
      requires Valid()
      modifies index, bloomFilter, bloomFilter.counters
      ensures Valid()
      ensures lines == SegmentLines(json, memtable.Contents())
      ensures bloomFilter.items == old(bloomFilter.items) + KeySeq(memtable.Contents())
      ensures index.Contents() == Indexed(old(index.Contents()), Samples(KeySeq(memtable.Contents()), lines, s), currentSegment)
    {
      var counter := s;
      var offset := 0;
      lines := [];
      ghost var es := memtable.Contents();
      var traversal := MemtableInOrder();
      for i := 0 to |traversal|
        invariant Valid() && memtable.Contents() == es
        invariant FlushedUpTo(es, i, s, counter, offset, lines, old(index.Contents()), old(bloomFilter.items))
      {
        var node := traversal[i];
        counter, offset, lines := FlushNode(es, i, memtable.nodes[node].key, memtable.nodes[node].item.value,
                                            s, counter, offset, lines, old(index.Contents()), old(bloomFilter.items));
      }
      assert es[..|traversal|] == es;
    }

    /** `memtable.in_order_traversal()`: the memtable's nodes in key order. */
    method MemtableInOrder() returns (traversal: seq<int>)
      requires memtable.Valid()
      ensures |traversal| == |memtable.Contents()|
      ensures forall i :: 0 <= i < |traversal| ==>
        0 <= traversal[i] < |memtable.nodes| && (memtable.nodes[traversal[i]].key, memtable.nodes[traversal[i]].item) == memtable.Contents()[i]
    {
      traversal := memtable.InOrderTraversal();
    }

    /** `FlushState` of this engine's index, bloom filter keys and current segment. */
    ghost predicate FlushedUpTo(es: seq<Entry<Item<Value>>>, i: nat, s: int, counter: int, offset: int, lines: seq<string>,
                                idx: seq<Entry<Item<Option<Value>>>>, keys: seq<Key>)
      reads this`index, this`bloomFilter, this`currentSegment, index, bloomFilter
    {
      FlushState(json, es, i, s, counter, offset, lines, idx, index.Contents(), keys, bloomFilter.items, currentSegment)
    }

    /** One iteration of the flush loop, for record `i` of `es`. */
    method FlushNode(ghost es: seq<Entry<Item<Value>>>, i: nat, key: Key, value: Value, s: int, counter: int, offset: int, lines: seq<string>,
                     ghost idx: seq<Entry<Item<Option<Value>>>>, ghost keys: seq<Key>)
      returns (counter': int, offset': int, lines': seq<string>)
      requires Valid() && i < |es| && es[i].0 == key && es[i].1.value == value
      requires FlushedUpTo(es, i, s, counter, offset, lines, idx, keys)
      modifies index, bloomFilter, bloomFilter.counters
      ensures Valid() && FlushedUpTo(es, i + 1, s, counter', offset', lines', idx, keys)
    {
      ghost var index0, bloom0 := index.Contents(), bloomFilter.items;
      var log := ToLogEntry(json, key, value);
      counter' := counter;
      var sampled := counter' == 1;
      FlushRecord(key, offset, sampled);
      if sampled {
        counter' := s + 1;
      }
      lines' := lines + [log];
      offset' := offset + |log|;
      counter' := counter' - 1;
      FlushStateStep(json, es, i, s, counter, offset, lines, idx, index0, keys, bloom0, currentSegment,
                     counter', offset', lines', index.Contents(), bloomFilter.items);
    }

    /**
     * The index and bloom filter work of one record of the flush: when the
     * countdown is at 1, `index.add(key, None, offset=key_offset,
     * segment=current_segment)`; then `bloom_filter.add(key)`.
     */
    method FlushRecord(key: Key, offset: nat, sampled: bool)
      requires Valid()
      modifies index, bloomFilter, bloomFilter.counters
      ensures Valid() && bloomFilter.items == old(bloomFilter.items) + [key]
      ensures index.Contents() ==
        if sampled then Insert(old(index.Contents()), key, Stored(Lookup(old(index.Contents()), key), None, Some(offset), Some(currentSegment)))
        else old(index.Contents())
    {
      if sampled {
        index.Add(key, None, Some(offset), Some(currentSegment));
      }
      bloomFilter.Add(key);
    }

    /**
     * `restore_memtable`: replay the write-ahead log onto the memtable, one
     * `add(key, value)` per line, adding each line's length to the
     * memtable's byte count. Raises at the first line that does not read,
     * with the lines before it applied.
     */
    method RestoreMemtable() returns (ok: bool)
      requires Valid()
      modifies memtable
      ensures Valid()
      ensures ok == Replayable(json, wal)
      ensures memtable.Contents() == Replayed(json, old(memtable.Contents()), wal)
      ensures memtable.totalBytes == old(memtable.totalBytes) + TotalLength(wal[..ReadablePrefix(json, wal)])
      ensures ok && old(memtable.Contents()) == [] ==> Durable(json, State())
    {
      var i := 0;
      while i < |wal|
        invariant i <= |wal| && Valid()
        invariant Replayed(json, old(memtable.Contents()), wal) == Replayed(json, memtable.Contents(), wal[i..])
        invariant forall j :: 0 <= j < i ==> ParseLine(json, wal[j]).Some?
        invariant memtable.totalBytes == old(memtable.totalBytes) + TotalLength(wal[..i])
      {
        var line := wal[i];
        assert wal[i..][0] == line && wal[i..][1..] == wal[i + 1..];
        ok := ReplayLine(line);
        if !ok {
          ReadablePrefixAt(json, wal, i);
          return;
        }
        TotalLengthPrefix(wal, i);
        i := i + 1;
      }
      assert wal[..i] == wal;
      ReadablePrefixAt(json, wal, i);
      return true;
    }

    /** One line of `restore_memtable`: read it, `add` its record, count its length. */
    method ReplayLine(line: string) returns (ok: bool)
      requires Valid()
      modifies memtable
      ensures Valid()
      ensures ok == ParseLine(json, line).Some?
      ensures !ok ==> memtable.Contents() == old(memtable.Contents()) && memtable.totalBytes == old(memtable.totalBytes)
      ensures ok ==> var (key, value) := ParseLine(json, line).value;
        memtable.Contents() == Insert(old(memtable.Contents()), key, Stored(Lookup(old(memtable.Contents()), key), value, None, None)) &&
        memtable.totalBytes == old(memtable.totalBytes) + |line|
    {
      match ParseLine(json, line)
      case None =>
        return false;
      case Some((key, value)) =>
        memtable.Add(key, value, None, None);
        memtable.totalBytes := memtable.totalBytes + |line|;
        return true;
    }

    /**
     * `merge(a, b)`: create the scratch file, open both segments, write
     * their lines into it in key order (B's line where both have the key),
     * then remove both segments and rename the scratch file to `a`. The
     * segment list and the index are not touched.
     */
    method Merge(a: string, b: string) returns (r: Outcome<string>)
      modifies this`files
      ensures var (after, outcome) := Merged(old(files), a, b);
        r == outcome && if MergeRaises(old(files), a, b) then Temp in files && files == after[Temp := files[Temp]] else files == after
    {
      files := files[Temp := []];
      if a !in files || b !in files {
        return Raises;
      }
      var out, read := MergeLoop(files[a], files[b]);
      if !read {
        return Raises;
      }
      files := files - {a};
      if b !in files {
        return Raises;
      }
      files := files - {b};
      if Temp !in files {
        return Raises;
      }
      files := (files - {Temp})[a := files[Temp]];
      return Ok(a);
    }

    /**
     * The loop of `merge` over the lines of the two segments: each line
     * written is added to the scratch file at once. False where a current
     * line has no hex key, with the lines before it written.
     */
    method MergeLoop(linesA: seq<string>, linesB: seq<string>) returns (out: seq<string>, ok: bool)
      modifies this`files
      ensures files == old(files)[Temp := out]
      ensures ok <==> MergeLines(LineKey, linesA, linesB).Some?
      ensures ok ==> MergeLines(LineKey, linesA, linesB) == Some(out)
    {
      out := [];
      files := files[Temp := out];
      var restA, restB := linesA, linesB;
      ghost var merged := MergeLines(LineKey, linesA, linesB);
      assert Concat(out, merged) == merged by {
        if merged.Some? {
          assert out + merged.value == merged.value;
        }
      }
      while restA != [] || restB != []
        invariant files == old(files)[Temp := out] && merged == Concat(out, MergeLines(LineKey, restA, restB))
        decreases |restA| + |restB|
      {
        if (restA != [] && LineKey(restA[0]).None?) || (restB != [] && LineKey(restB[0]).None?) {
          return out, false;
        }
        var line: string;
        ghost var rest := MergeLines(LineKey, restA, restB);
        if restA == [] {
          line, restB := restB[0], restB[1..];
        } else if restB == [] {
          line, restA := restA[0], restA[1..];
        } else if LineKey(restA[0]) == LineKey(restB[0]) {
          line, restA, restB := restB[0], restA[1..], restB[1..];
        } else if Less(LineKey(restA[0]).value, LineKey(restB[0]).value) {
          line, restA := restA[0], restA[1..];
        } else {
          line, restB := restB[0], restB[1..];
        }
        assert rest == Prepend(line, MergeLines(LineKey, restA, restB));
        ConcatPrepend(out, line, MergeLines(LineKey, restA, restB));
        out := out + [line];
        files := files[Temp := out];
      }
      assert out + [] == out;
      return out, true;
    }

    /**
     * `repopulate_index`: a new empty index, then each segment read back
     * with its own countdown and byte count, every `sparsity`-th line's key
     * added with its offset and segment. Raises where there is a segment and
     * the sparsity factor is zero, where a segment's file is missing, and at
     * a line that does not read.
     */
    method RepopulateIndex() returns (ok: bool)
      requires Valid()
      modifies this`index
      ensures Valid() && fresh(index)
      ensures (index.Contents(), ok) == Repopulated(json, files, segments, threshold, sparsityFactor)
    {
      index := new RedBlackTree();
      if segments == [] {
        return true;
      }
      var sparsity := Sparsity(threshold, sparsityFactor);
      if sparsity.None? {
        return false;
      }
      var k := 0;
      while k < |segments|
        invariant k <= |segments| && Valid() && fresh(index)
        invariant Reindexed(json, files, segments, sparsity.value, []) == Reindexed(json, files, segments[k..], sparsity.value, index.Contents())
      {
        assert segments[k..][0] == segments[k] && segments[k..][1..] == segments[k + 1..];
        ok := ReindexSegment(segments[k], sparsity.value);
        if !ok {
          return;
        }
        k := k + 1;
      }
      return true;
    }

    /** One segment of `repopulate_index`, with sparsity `s`. */
    method ReindexSegment(segment: string, s: int) returns (ok: bool)
      requires Valid()
      modifies index
      ensures Valid()
      ensures ok == (segment in files && ReadablePrefix(json, files[segment]) == |files[segment]|)
      ensures index.Contents() ==
        if segment in files then Indexed(old(index.Contents()), SegmentSamples(json, files[segment], s), segment) else old(index.Contents())
    {
      if segment !in files {
        return false;
      }
      var lines := files[segment];
      var counter := s;
      var nBytes: nat := 0;
      var i := 0;
      while i < |lines|
        invariant Valid() && ReindexState(json, lines, i, s, counter, nBytes, old(index.Contents()), index.Contents(), segment)
      {
        match ParseLine(json, lines[i])
        case None =>
          ReadablePrefixAt(json, lines, i);
          return false;
        case Some((key, _)) =>
          ghost var index0 := index.Contents();
          var counter' := counter;
          if counter' == 1 {
            index.Add(key, None, Some(nBytes), Some(segment));
            counter' := s + 1;
          }
          ReindexStateStep(json, lines, i, s, counter, nBytes, old(index.Contents()), index0, segment,
                           counter' - 1, nBytes + |lines[i]|, index.Contents());
          nBytes := nBytes + |lines[i]|;
          counter := counter' - 1;
          i := i + 1;
      }
      ReadablePrefixAt(json, lines, i);
      assert lines[..i] == lines;
      return true;
    }

    /**
     * `set_bloom_filter_num_items`: the new item count, and a new empty
     * bloom filter of the size and hash count derived from it.
     */
    method SetBloomFilterNumItems(numItems: int, size: nat, hashCount: nat)
      requires Valid() && Sized(size, hashCount)
      modifies this`bfNumItems, this`bloomFilter
      ensures Valid() && bfNumItems == numItems && fresh(bloomFilter) && fresh(bloomFilter.counters)
      ensures bloomFilter.size == size && bloomFilter.hashCount == hashCount && bloomFilter.items == []
      ensures hashCount >= 1 ==> forall key :: !MayContain(bloomFilter.counters[..], hash, hashCount, key)
    {
      bfNumItems := numItems;
      bloomFilter := new CountingBloomFilter(size, hashCount, hash);
      EmptyFilterRejects();
    }

    /**
     * `set_bloom_filter_false_pos_prob`: the new probability, and a new
     * empty bloom filter of the size and hash count derived from it.
     */
    method SetBloomFilterFalsePosProb(falsePosProb: real, size: nat, hashCount: nat)
      requires Valid() && Sized(size, hashCount)
      modifies this`bfFalsePosProb, this`bloomFilter
      ensures Valid() && bfFalsePosProb == falsePosProb && fresh(bloomFilter) && fresh(bloomFilter.counters)
      ensures bloomFilter.size == size && bloomFilter.hashCount == hashCount && bloomFilter.items == []
      ensures hashCount >= 1 ==> forall key :: !MayContain(bloomFilter.counters[..], hash, hashCount, key)
    {
      bfFalsePosProb := falsePosProb;
      bloomFilter := new CountingBloomFilter(size, hashCount, hash);
      EmptyFilterRejects();
    }

    /** A bloom filter whose counters are all zero lets no key through. */
    lemma EmptyFilterRejects()
      requires bloomFilter.Valid() && forall i :: 0 <= i < bloomFilter.counters.Length ==> bloomFilter.counters[i] == 0
      ensures bloomFilter.hashCount >= 1 ==> forall key :: !MayContain(bloomFilter.counters[..], bloomFilter.hash, bloomFilter.hashCount, key)
    {
      if bloomFilter.hashCount >= 1 {
        forall key {
          FreshFilterRejects(bloomFilter.counters[..], bloomFilter.hash, bloomFilter.hashCount, key);
        }
      }
    }

    /** `set_threshold`. */
    method SetThreshold(threshold: int)
      modifies this`threshold
      ensures this.threshold == threshold
    {
      this.threshold := threshold;
    }

    /** `set_sparcity_factor`. */
    method SetSparsityFactor(factor: int)
      modifies this`sparsityFactor
      ensures sparsityFactor == factor
    {
      sparsityFactor := factor;
    }

    /**
     * `search_segment`: binary search over the stripped lines of one segment
     * file. Raises where the file is missing.
     */
    method SearchSegment(key: Key, segment: string) returns (r: Outcome<Option<Value>>)
      ensures segment !in files ==> r == Raises
      ensures segment in files ==> r == BinarySearch(json, Stripped(files[segment]), key)
    {
      if segment !in files {
        return Raises;
      }
      var pairs := Stripped(files[segment]);
      while pairs != []
        invariant BinarySearch(json, Stripped(files[segment]), key) == BinarySearch(json, pairs, key)
        decreases |pairs|
      {
        var ptr := (|pairs| - 1) / 2;
        match SplitKey(pairs[ptr])
        case None =>
          return Raises;
        case Some((k, v)) =>
          if k == key {
            match DecodeValue(json, v)
            case None =>
              return Raises;
            case Some(value) =>
              return Ok(Some(value));
          }
          if Less(key, k) {
            pairs := pairs[..ptr];
          } else {
            pairs := pairs[ptr + 1..];
          }
      }
      return Ok(None);
    }

    /**
     * `search_all_segments`: pop segments off a copy of the list, newest
     * first, until one of them holds the key.
     */
    method SearchAllSegments(key: Key) returns (r: Outcome<Option<Value>>)
      ensures r == SearchAll(json, files, segments, key)
    {
      var pending := segments;
      while pending != []
        invariant SearchAll(json, files, segments, key) == SearchAll(json, files, pending, key)
        decreases |pending|
      {
        var segment := pending[|pending| - 1];
        pending := pending[..|pending| - 1];
        var value := SearchSegment(key, segment);
        if value.Raises? || value.value.Some? {
          return value;
        }
      }
      return Ok(None);
    }

    /**
     * The loop of `db_get` over a segment file from the floor entry's
     * offset: every line is split and its key decoded; the first line with
     * the key gives the value.
     */
    method ScanLines(lines: seq<string>, key: Key) returns (r: Outcome<Option<Value>>)
      ensures r == Scan(json, lines, key)
    {
      var i := 0;
      while i < |lines|
        invariant i <= |lines| && Scan(json, lines, key) == Scan(json, lines[i..], key)
      {
        assert lines[i..][1..] == lines[i + 1..];
        match SplitKey(Strip(lines[i]))
        case None =>
          return Raises;
        case Some((k, v)) =>
          if key == k {
            match DecodeValue(json, v)
            case None =>
              return Raises;
            case Some(value) =>
              return Ok(Some(value));
          }
        i := i + 1;
      }
      return Ok(None);
    }

    /**
     * `db_get`: the memtable's value if it holds the key; None if the bloom
     * filter rules the key out; otherwise the scan from the index entry at
     * the key's floor, then the search of all segments.
     */
    method DbGet(key: Key) returns (r: Outcome<Option<Value>>)
      requires Valid()
      ensures key in KeysOf(memtable.Contents()) ==> r == Ok(ValueAt(memtable.Contents(), key))
      ensures key !in KeysOf(memtable.Contents()) && !MayContain(bloomFilter.counters[..], hash, bloomFilter.hashCount, key) ==>
        r == Ok(None)
      ensures key !in KeysOf(memtable.Contents()) && MayContain(bloomFilter.counters[..], hash, bloomFilter.hashCount, key) ==>
        r == Probe(json, files, segments, FloorEntry(index.Contents(), key), key)
      ensures r == Get(json, hash, bloomFilter.size, bloomFilter.hashCount, State(), key)
    {
      var node := memtable.FindNode(key);
      if node != NIL {
        return Ok(Some(memtable.nodes[node].item.value));
      }
      var present := bloomFilter.Check(key);
      if !present {
        return Ok(None);
      }
      r := ProbeIndex(key);
    }

    /**
     * The rest of `db_get`: the index's floor of the key, its node, and the
     * scan of its segment from its offset, falling back to every segment.
     */
    method ProbeIndex(key: Key) returns (r: Outcome<Option<Value>>)
      requires index.Valid()
      ensures r == Probe(json, files, segments, FloorEntry(index.Contents(), key), key)
    {
      var floorKey := index.Floor(key);
      ghost var floor := FloorEntry(index.Contents(), key);
      FloorKeyIsFloor(index.Contents(), key, floorKey);
      if floorKey.None? {
        assert floor.None?;
        r := SearchAllSegments(key);
        return;
      }
      var floorNode := index.FindNode(floorKey.value);
      var entry := index.nodes[floorNode].item;
      assert floor == Some(entry);
      r := ProbeEntry(entry, key);
    }

    /** The scan of one index entry's segment from its offset, then the search of all segments. */
    method ProbeEntry(entry: Item<Option<Value>>, key: Key) returns (r: Outcome<Option<Value>>)
      ensures r == Probe(json, files, segments, Some(entry), key)
    {
      if entry.offset.None? || entry.segment.None? || entry.segment.value !in files {
        return Raises;
      }
      var lines := LinesFrom(files[entry.segment.value], entry.offset.value);
      r := ScanLines(lines, key);
      if r.Ok? && r.value.None? {
        r := SearchAllSegments(key);
      }
      ProbeScan(json, files, segments, entry, key);
    }
  }
}
