/**
 * The engine's maintenance operations as functions of its files: `merge`,
 * which combines two segment files into the first through a scratch file,
 * and `repopulate_index`, which rebuilds the sparse index by reading every
 * segment back. The engine's methods are proved against these, and the
 * lemmas here say what they achieve on segments a flush wrote.
 */
module LsmMaintenance {
  import opened Wrappers
  import opened ByteKeys
  import opened Assoc
  import opened LogLines
  import opened Segments
  import opened RbShape
  import opened RedBlackTrees
  import opened LsmRules

  /** The scratch file `merge` writes before renaming it over the first segment. */
  const Temp: string := "temp"

  /** The lines written so far followed by the rest of the merge, unless the rest raises. */
  function Concat(out: seq<string>, rest: Option<seq<string>>): Option<seq<string>> {
    if rest.Some? then Some(out + rest.value) else None
  }

  /** Writing one more line moves it from the rest of the merge to the lines written. */
  lemma ConcatPrepend(out: seq<string>, line: string, rest: Option<seq<string>>)
    ensures Concat(out, Prepend(line, rest)) == Concat(out + [line], rest)
  {
    if rest.Some? {
      assert out + ([line] + rest.value) == out + [line] + rest.value;
    }
  }

  /** The merge of `a` and `b` raises while reading: both files open, but a current line has no hex key. */
  predicate MergeRaises(files: map<string, seq<string>>, a: string, b: string) {
    var f0 := files[Temp := []];
    a in f0 && b in f0 && MergeLines(LineKey, f0[a], f0[b]).None?
  }

  /**
   * `merge(a, b)`: the files after it and its outcome. The scratch file is
   * created empty, then both segments are opened (raises where one is
   * missing) and merged into it; then `a` and `b` are removed and the
   * scratch file renamed to `a`, each step raising where its file is gone.
   * Where reading raises, the scratch file holds the lines written until
   * then; this function leaves it empty.
   */
  function Merged(files: map<string, seq<string>>, a: string, b: string): (map<string, seq<string>>, Outcome<string>) {
    var f0 := files[Temp := []];
    if a !in f0 || b !in f0 then (f0, Raises)
    else
      match MergeLines(LineKey, f0[a], f0[b])
      case None => (f0, Raises)
      case Some(out) =>
        var f1 := f0[Temp := out] - {a};
        if b !in f1 then (f1, Raises)
        else
          var f2 := f1 - {b};
          if Temp !in f2 then (f2, Raises)
          else ((f2 - {Temp})[a := f2[Temp]], Ok(a))
  }

  /**
   * Merging two different key-ordered segments, neither of them the
   * scratch file: `a` now holds the merge (B's lines, and A's lines for
   * the keys B lacks, in key order), `b` and the scratch file are gone and
   * every other file is as it was.
   */
  lemma MergeSegments(files: map<string, seq<string>>, a: string, b: string)
    requires a in files && b in files && a != b && a != Temp && b != Temp
    requires KeyOrdered(LineKey, files[a]) && KeyOrdered(LineKey, files[b])
    ensures var (after, r) := Merged(files, a, b);
      r == Ok(a) && a in after && after == (files - {b, Temp})[a := after[a]] &&
      MergedFrom(LineKey, after[a], files[a], files[b])
  {
    MergeOrdered(LineKey, files[a], files[b]);
    MergedFiles(files, a, b, MergeLines(LineKey, files[a], files[b]).value);
  }

  /** A merge that reads to the end renames its output to `a` and removes `b` and the scratch file. */
  lemma MergedFiles(files: map<string, seq<string>>, a: string, b: string, out: seq<string>)
    requires a in files && b in files && a != b && a != Temp && b != Temp
    requires MergeLines(LineKey, files[a], files[b]) == Some(out)
    ensures Merged(files, a, b) == ((files - {b, Temp})[a := out], Ok(a))
  {
    var f0 := files[Temp := []];
    assert f0[a] == files[a] && f0[b] == files[b];
    var f2 := f0[Temp := out] - {a} - {b};
    assert Temp in f2 && f2[Temp] == out;
    var after, expected := (f2 - {Temp})[a := out], (files - {b, Temp})[a := out];
    assert after.Keys == expected.Keys;
    assert forall k :: k in after ==> after[k] == expected[k];
    assert after == expected;
  }

  /** A segment whose every line has a hex key merges with itself into itself. */
  lemma {:induction false} MergeSelf(lines: seq<string>)
    requires forall i :: 0 <= i < |lines| ==> LineKey(lines[i]).Some?
    ensures MergeLines(LineKey, lines, lines) == Some(lines)
    decreases |lines|
  {
    if lines != [] {
      MergeSelf(lines[1..]);
      assert [lines[0]] + lines[1..] == lines;
    }
  }

  /**
   * `merge(a, a)` deletes the segment: the second removal finds the file
   * gone and raises, and its lines are left only in the scratch file.
   */
  lemma MergeSelfLoses(files: map<string, seq<string>>, a: string)
    requires a in files && a != Temp && KeyOrdered(LineKey, files[a])
    ensures var (after, r) := Merged(files, a, a);
      r == Raises && a !in after && Temp in after && after[Temp] == files[a]
  {
    MergeSelf(files[a]);
    var f0 := files[Temp := []];
    assert f0[a] == files[a];
  }

  /** The keys of readable lines, in order (the empty key for a line that does not read). */
  function ParsedKeys(json: Json, lines: seq<string>): (keys: seq<Key>)
    ensures |keys| == |lines|
  {
    seq(|lines|, i requires 0 <= i < |lines| => match ParseLine(json, lines[i]) case Some(kv) => kv.0 case None => [])
  }

  /**
   * What `repopulate_index` takes from one segment with sparsity `s`: the
   * key and starting offset of every `s`-th line, over the lines before
   * the first that does not read.
   */
  function SegmentSamples(json: Json, lines: seq<string>, s: int): seq<(Key, nat)> {
    var n := ReadablePrefix(json, lines);
    Samples(ParsedKeys(json, lines[..n]), lines[..n], s)
  }

  /**
   * The index `idx` grown by the samples of each segment in turn; false
   * where a segment's file is missing (nothing added for it) or one of its
   * lines does not read (the samples before it added).
   */
  function Reindexed(json: Json, files: map<string, seq<string>>, segments: seq<string>, s: int,
                     idx: seq<Entry<Item<Option<Value>>>>): (seq<Entry<Item<Option<Value>>>>, bool)
    decreases |segments|
  {
    if segments == [] then (idx, true)
    else if segments[0] !in files then (idx, false)
    else
      var lines := files[segments[0]];
      var next := Indexed(idx, SegmentSamples(json, lines, s), segments[0]);
      if ReadablePrefix(json, lines) < |lines| then (next, false)
      else Reindexed(json, files, segments[1..], s, next)
  }

  /**
   * `repopulate_index`: an empty index, then every segment's samples, each
   * entry added with no value, the offset its line starts at and its
   * segment. Raises, with the index empty, where there is a segment and the
   * sparsity factor is zero.
   */
  function Repopulated(json: Json, files: map<string, seq<string>>, segments: seq<string>, threshold: int, factor: int)
    : (seq<Entry<Item<Option<Value>>>>, bool)
  {
    if segments == [] then ([], true)
    else
      match Sparsity(threshold, factor)
      case None => ([], false)
      case Some(s) => Reindexed(json, files, segments, s, [])
  }

  /** Rebuilding returns exactly where every segment's file is there and every line of it reads. */
  lemma {:induction false} ReindexedOk(json: Json, files: map<string, seq<string>>, segments: seq<string>, s: int,
                                       idx: seq<Entry<Item<Option<Value>>>>)
    ensures Reindexed(json, files, segments, s, idx).1 <==>
      forall i :: 0 <= i < |segments| ==> segments[i] in files && Replayable(json, files[segments[i]])
    decreases |segments|
  {
    if segments != [] {
      var seg := segments[0];
      assert forall i :: 1 <= i < |segments| ==> segments[1..][i - 1] == segments[i];
      if seg in files {
        var lines := files[seg];
        var n := ReadablePrefix(json, lines);
        if n < |lines| {
          assert !Replayable(json, lines);
        } else {
          assert lines[..n] == lines;
          ReindexedOk(json, files, segments[1..], s, Indexed(idx, SegmentSamples(json, lines, s), seg));
        }
      }
    }
  }

  /** The index rebuilt from the segments keeps the index's keys in order. */
  lemma {:induction false} ReindexedSorted(json: Json, files: map<string, seq<string>>, segments: seq<string>, s: int,
                                           idx: seq<Entry<Item<Option<Value>>>>)
    requires Sorted(idx)
    ensures Sorted(Reindexed(json, files, segments, s, idx).0)
    decreases |segments|
  {
    if segments != [] && segments[0] in files {
      var lines := files[segments[0]];
      var next := Indexed(idx, SegmentSamples(json, lines, s), segments[0]);
      IndexedSorted(idx, SegmentSamples(json, lines, s), segments[0]);
      ReindexedSorted(json, files, segments[1..], s, next);
    }
  }

  /**
   * Reading back a segment a flush wrote takes the samples the flush took:
   * every line reads, its key is the entry's, and the offsets agree.
   */
  lemma SegmentSamplesFlushed(json: Json, es: seq<Entry<Item<Value>>>, s: int)
    requires Lawful(json)
    ensures Replayable(json, SegmentLines(json, es))
    ensures SegmentSamples(json, SegmentLines(json, es), s) == Samples(KeySeq(es), SegmentLines(json, es), s)
  {
    var lines := SegmentLines(json, es);
    forall i | 0 <= i < |lines| ensures ParseLine(json, lines[i]) == Some((es[i].0, es[i].1.value)) {
      ParseLogEntry(json, es[i].0, es[i].1.value);
    }
    ReadablePrefixAt(json, lines, |lines|);
    assert lines[..|lines|] == lines;
    assert ParsedKeys(json, lines) == KeySeq(es);
  }

  /** The index the flushes of these segments' contents build, one segment after another, from `idx`. */
  function FlushedIndex(json: Json, idx: seq<Entry<Item<Option<Value>>>>, segments: seq<string>,
                        contents: seq<seq<Entry<Item<Value>>>>, s: int): seq<Entry<Item<Option<Value>>>>
    requires |contents| == |segments|
    decreases |segments|
  {
    if segments == [] then idx
    else
      var next := Indexed(idx, Samples(KeySeq(contents[0]), SegmentLines(json, contents[0]), s), segments[0]);
      FlushedIndex(json, next, segments[1..], contents[1..], s)
  }

  /**
   * On segments that flushes wrote, rebuilding the index gives back the
   * index those flushes built, and returns.
   */
  lemma {:induction false} ReindexFlushed(json: Json, files: map<string, seq<string>>, segments: seq<string>,
                                          contents: seq<seq<Entry<Item<Value>>>>, s: int, idx: seq<Entry<Item<Option<Value>>>>)
    requires Lawful(json) && Flushed(json, files, segments, contents)
    ensures Reindexed(json, files, segments, s, idx) == (FlushedIndex(json, idx, segments, contents, s), true)
    decreases |segments|
  {
    if segments != [] {
      var lines := SegmentLines(json, contents[0]);
      assert files[segments[0]] == lines;
      SegmentSamplesFlushed(json, contents[0], s);
      ReadablePrefixAt(json, lines, |lines|);
      var next := Indexed(idx, Samples(KeySeq(contents[0]), lines, s), segments[0]);
      assert Flushed(json, files, segments[1..], contents[1..]) by {
        forall i | 0 <= i < |segments| - 1
          ensures segments[1..][i] in files && files[segments[1..][i]] == SegmentLines(json, contents[1..][i]) && Sorted(contents[1..][i])
        {
          assert segments[1..][i] == segments[i + 1] && contents[1..][i] == contents[i + 1];
        }
      }
      ReindexFlushed(json, files, segments[1..], contents[1..], s, next);
    }
  }

  /**
   * Where one segment of the rebuild stands after its first `i` lines: they
   * all read, the countdown and the byte count are theirs, and the index
   * `idx` has grown by their samples.
   */
  ghost predicate ReindexState(json: Json, lines: seq<string>, i: nat, s: int, counter: int, nBytes: int,
                               idx: seq<Entry<Item<Option<Value>>>>, index: seq<Entry<Item<Option<Value>>>>, segment: string)
  {
    i <= |lines| && (forall j :: 0 <= j < i ==> ParseLine(json, lines[j]).Some?) &&
    counter == Countdown(i, s) && nBytes == TotalLength(lines[..i]) &&
    index == Indexed(idx, Samples(ParsedKeys(json, lines[..i]), lines[..i], s), segment)
  }

  /**
   * One line of the rebuild: it reads; when the countdown is at 1 its key
   * is added at the current byte count and the countdown reset; the byte
   * count moves on by the line's length and the countdown goes down.
   */
  lemma ReindexStateStep(json: Json, lines: seq<string>, i: nat, s: int, counter: int, nBytes: int,
                         idx: seq<Entry<Item<Option<Value>>>>, index: seq<Entry<Item<Option<Value>>>>, segment: string,
                         counter': int, nBytes': int, index': seq<Entry<Item<Option<Value>>>>)
    requires i < |lines| && ReindexState(json, lines, i, s, counter, nBytes, idx, index, segment)
    requires ParseLine(json, lines[i]).Some?
    requires counter' == (if counter == 1 then s + 1 else counter) - 1 && nBytes' == nBytes + |lines[i]|
    requires var key := ParseLine(json, lines[i]).value.0;
      index' == if counter == 1 then Insert(index, key, Stored(Lookup(index, key), None, Some(nBytes), Some(segment))) else index
    ensures ReindexState(json, lines, i + 1, s, counter', nBytes', idx, index', segment)
  {
    var key := ParseLine(json, lines[i]).value.0;
    var ks := ParsedKeys(json, lines[..i]);
    CountdownStep(i, s);
    TotalLengthPrefix(lines, i);
    PrefixSnoc(lines, i);
    assert ParsedKeys(json, lines[..i + 1]) == ks + [key] by {
      var ks' := ParsedKeys(json, lines[..i + 1]);
      forall j | 0 <= j < i ensures ks'[j] == ks[j] {
        assert lines[..i + 1][j] == lines[..i][j];
      }
      SnocEqual(ks', ks, key);
    }
    SamplesSnoc(ks, lines[..i], key, lines[i], s);
    if counter == 1 {
      IndexedSnoc(idx, Samples(ks, lines[..i], s), segment, key, TotalLength(lines[..i]));
    } else {
      assert Samples(ks, lines[..i], s) + [] == Samples(ks, lines[..i], s);
    }
  }

  /** Every entry of the index lacks an offset. */
  ghost predicate NoOffsets(idx: seq<Entry<Item<Option<Value>>>>) {
    forall e :: e in idx ==> e.1.offset.None?
  }

  /**
   * One `index.add(key, value, offset=bytes, segment=segment)` of
   * `repopulate_index` as written: the parsed value is stored, and the
   * offset is the type `bytes`, which no `seek` accepts: no offset.
   */
  function AddedAsWritten(idx: seq<Entry<Item<Option<Value>>>>, key: Key, value: Value, segment: string): seq<Entry<Item<Option<Value>>>> {
    Insert(idx, key, Stored(Lookup(idx, key), Some(value), None, Some(segment)))
  }

  /** An entry of the list after `Insert` is the one inserted or was there before. */
  lemma {:induction false} InsertMembers<T>(es: seq<Entry<T>>, k: Key, x: T)
    ensures forall e :: e in Insert(es, k, x) ==> e == (k, x) || e in es
    decreases |es|
  {
    if es != [] && es[0].0 != k && !Less(k, es[0].0) {
      InsertMembers(es[1..], k, x);
      assert forall e :: e in es[1..] ==> e in es;
    }
  }

  /**
   * The as-written rebuild starts from an empty index, and its adds keep
   * every entry without an offset: no entry it makes can be read through.
   */
  lemma AddedAsWrittenNoOffsets(idx: seq<Entry<Item<Option<Value>>>>, key: Key, value: Value, segment: string)
    requires NoOffsets(idx)
    ensures NoOffsets(AddedAsWritten(idx, key, value, segment))
  {
    InsertMembers(idx, key, Stored(Lookup(idx, key), Some(value), None, Some(segment)));
  }

  /**
   * After the as-written rebuild, every read that reaches the index and
   * finds a floor entry raises, where the rebuilt index of
   * `RepopulateIndex` gives the scan from the sampled line.
   */
  lemma ProbeAsWrittenRaises(json: Json, files: map<string, seq<string>>, segments: seq<string>,
                             idx: seq<Entry<Item<Option<Value>>>>, key: Key)
    requires NoOffsets(idx) && FloorKey(idx, key).Some?
    ensures Probe(json, files, segments, FloorEntry(idx, key), key) == Raises
  {
    FloorKeyIn(idx, key);
    var f := FloorKey(idx, key).value;
    assert (f, Lookup(idx, f).value) in idx;
  }
}
