/**
 * What the storage engine computes, as functions of its state: the sparsity
 * of the index, the next segment name, the lines a flush writes and the index
 * entries it adds, the memtable a write-ahead-log replay rebuilds, and the
 * answer of a read that gets past the memtable and the bloom filter. The
 * engine's methods are proved against these, and the lemmas here say what
 * they mean.
 */
module LsmRules {
  import opened Wrappers
  import opened ByteKeys
  import opened Text
  import opened Assoc
  import opened LogLines
  import opened Segments
  import opened RbShape
  import opened RedBlackTrees

  /** Python's `a // b`: the quotient rounded down. */
  function FloorDiv(a: int, b: int): (q: int)
    requires b != 0
    ensures b > 0 ==> q * b <= a < q * b + b
    ensures b < 0 ==> q * b + b < a <= q * b
  {
    if b > 0 then a / b else (-a) / (-b)
  }

  /** `sparcity()`: `threshold // sparcity_factor`; None where Python raises `ZeroDivisionError`. */
  function Sparsity(threshold: int, factor: int): Option<int> {
    if factor == 0 then None else Some(FloorDiv(threshold, factor))
  }

  /**
   * `incremented_segment_name()`: `name-<n>` becomes `name-<n+1>`. None
   * where Python raises: the name does not split at `-` into exactly two
   * parts, or the part after it is not an integer.
   */
  function IncrementedSegmentName(current: string): (r: Option<string>)
    ensures r.Some? ==> Occurrences(current, '-') == 1
  {
    match SplitOnce(current, '-')
    case None => None
    case Some((name, number)) =>
      if '-' in number then None
      else
        OneDash(name, number);
        match ParseInt(number)
        case None => None
        case Some(n) => Some(name + "-" + ShowInt(n + 1))
  }

  lemma OneDash(name: string, number: string)
    requires '-' !in name && '-' !in number
    ensures Occurrences(name + "-" + number, '-') == 1
  {
    OccurrencesNone(name, '-');
    OccurrencesNone(number, '-');
    OccurrencesAppend(name, "-", '-');
    OccurrencesAppend(name + "-", number, '-');
    assert Occurrences("-", '-') == 1;
  }

  /**
   * A segment name of the form `name-<n>` with a non-negative `n` becomes
   * `name-<n+1>`, which has the same form: a database can rotate segments
   * any number of times.
   */
  lemma IncrementedSegmentNameNext(name: string, n: nat)
    requires '-' !in name
    ensures IncrementedSegmentName(name + "-" + ShowInt(n)) == Some(name + "-" + ShowInt(n + 1))
  {
    var digits := ShowInt(n);
    assert '-' !in digits by {
      forall i | 0 <= i < |digits| ensures digits[i] != '-' {
        assert IsDigit(ShowNat(n)[i]);
      }
    }
    FindAt(name, "-" + digits, '-');
    assert name + "-" + digits == name + ("-" + digits);
    assert (name + "-" + digits)[..|name|] == name;
    assert (name + "-" + digits)[|name| + 1..] == digits;
    ParseShowInt(n);
  }

  /** The payloads of memtable entries, key by key. */
  function Values(es: seq<Entry<Item<Value>>>): (vs: seq<Entry<Value>>)
    ensures |vs| == |es| && forall i :: 0 <= i < |es| ==> vs[i] == (es[i].0, es[i].1.value)
  {
    seq(|es|, i requires 0 <= i < |es| => (es[i].0, es[i].1.value))
  }

  /** The value stored at `key`, if any. */
  function ValueAt(es: seq<Entry<Item<Value>>>, key: Key): Option<Value> {
    match Lookup(es, key)
    case None => None
    case Some(it) => Some(it.value)
  }

  lemma {:induction false} LookupValues(es: seq<Entry<Item<Value>>>, key: Key)
    ensures Lookup(Values(es), key) == ValueAt(es, key)
    decreases |es|
  {
    if es != [] {
      assert Values(es)[1..] == Values(es[1..]);
      LookupValues(es[1..], key);
    }
  }

  lemma SortedValues(es: seq<Entry<Item<Value>>>)
    requires Sorted(es)
    ensures Sorted(Values(es))
  {
  }

  /** The lines `flush_memtable_to_disk` writes for the memtable's entries, in key order. */
  function SegmentLines(json: Json, es: seq<Entry<Item<Value>>>): (lines: seq<string>)
    ensures |lines| == |es| && forall i :: 0 <= i < |es| ==> lines[i] == ToLogEntry(json, es[i].0, es[i].1.value)
  {
    seq(|es|, i requires 0 <= i < |es| => ToLogEntry(json, es[i].0, es[i].1.value))
  }

  /** Flushing one more entry writes one more line. */
  lemma SegmentLinesPrefix(json: Json, es: seq<Entry<Item<Value>>>, i: nat)
    requires i < |es|
    ensures SegmentLines(json, es[..i + 1]) == SegmentLines(json, es[..i]) + [ToLogEntry(json, es[i].0, es[i].1.value)]
    ensures KeySeq(es[..i + 1]) == KeySeq(es[..i]) + [es[i].0]
  {
    var a, b := SegmentLines(json, es[..i + 1]), SegmentLines(json, es[..i]);
    forall j | 0 <= j < i ensures a[j] == b[j] {
      assert es[..i + 1][j] == es[..i][j];
    }
    SnocEqual(a, b, ToLogEntry(json, es[i].0, es[i].1.value));
    var ka, kb := KeySeq(es[..i + 1]), KeySeq(es[..i]);
    forall j | 0 <= j < i ensures ka[j] == kb[j] {
      assert es[..i + 1][j] == es[..i][j];
    }
    SnocEqual(ka, kb, es[i].0);
  }

  /** Every line of a flushed segment reads back as the entry it was written from. */
  lemma FlushedRecords(json: Json, es: seq<Entry<Item<Value>>>)
    requires Lawful(json)
    ensures Records(json, Stripped(SegmentLines(json, es))) == Some(Values(es))
  {
    var pairs := Stripped(SegmentLines(json, es));
    forall i | 0 <= i < |pairs| ensures ReadRecord(json, pairs[i]) == Some(Values(es)[i]) {
      ParseLogEntry(json, es[i].0, es[i].1.value);
    }
    assert Records(json, pairs).value == Values(es);
  }

  /**
   * `search_segment` on a segment flushed from sorted entries finds exactly
   * the keys written, with their values.
   */
  lemma SearchFlushed(json: Json, es: seq<Entry<Item<Value>>>, key: Key)
    requires Lawful(json) && Sorted(es)
    ensures BinarySearch(json, Stripped(SegmentLines(json, es)), key) == Ok(ValueAt(es, key))
  {
    FlushedRecords(json, es);
    SortedValues(es);
    BinarySearchSorted(json, Stripped(SegmentLines(json, es)), Values(es), key);
    LookupValues(es, key);
  }

  /** The keys of a flushed segment, as `merge` reads them, are those written, strictly increasing. */
  lemma FlushedKeyOrdered(json: Json, es: seq<Entry<Item<Value>>>)
    requires Lawful(json) && Sorted(es)
    ensures KeyOrdered(LineKey, SegmentLines(json, es))
    ensures KeySet(LineKey, SegmentLines(json, es)) == KeysOf(es)
  {
    var lines := SegmentLines(json, es);
    forall i | 0 <= i < |lines| ensures LineKey(lines[i]) == Some(es[i].0) {
      ParseLogEntry(json, es[i].0, es[i].1.value);
    }
    forall k | k in KeysOf(es) ensures k in KeySet(LineKey, lines) {
      var e :| e in es && e.0 == k;
      var i :| 0 <= i < |es| && es[i] == e;
      assert lines[i] in lines;
    }
  }

  /**
   * Seeking a flushed segment to the length of its first `j` lines and
   * scanning from there finds the keys of the entries from `j` on.
   */
  lemma ScanFlushedFrom(json: Json, es: seq<Entry<Item<Value>>>, j: nat, key: Key)
    requires Lawful(json) && j <= |es|
    ensures Scan(json, LinesFrom(SegmentLines(json, es), TotalLength(SegmentLines(json, es)[..j])), key) == Ok(ValueAt(es[j..], key))
  {
    var lines := SegmentLines(json, es);
    forall i | 0 <= i < |lines| ensures |lines[i]| > 0 {
      assert |lines[i]| == 2 * |es[i].0| + |SerializeValue(json, es[i].1.value)| + 3;
    }
    SeekToLine(lines, j);
    assert lines[j..] == SegmentLines(json, es[j..]);
    FlushedRecords(json, es[j..]);
    ScanFinds(json, lines[j..], Values(es[j..]), key);
    LookupValues(es[j..], key);
  }

  /** Entries in key order stay where a key at or above position `p` is looked up. */
  lemma ValueAtFrom(es: seq<Entry<Item<Value>>>, p: nat, key: Key)
    requires Sorted(es) && p < |es| && !Less(key, es[p].0)
    ensures ValueAt(es[p..], key) == ValueAt(es, key)
  {
    assert es == es[..p] + es[p..];
    forall e | e in es[..p] ensures e.0 != key {
      var j :| 0 <= j < p && es[j] == e;
      if key == es[p].0 {
        assert Less(e.0, key);
      } else {
        LessTotal(key, es[p].0);
        LessTransitive(e.0, es[p].0, key);
      }
      LessIrreflexive(key);
    }
    LookupAppend(es[..p], es[p..], key);
  }

  /**
   * The sparse index of a flushed segment works: seeking to the offset of
   * any sample whose key is at or below `key` and scanning on finds `key`
   * exactly when the segment holds it, with its value.
   */
  lemma ScanFromSample(json: Json, es: seq<Entry<Item<Value>>>, s: int, t: nat, key: Key)
    requires Lawful(json) && Sorted(es)
    requires t < |Samples(KeySeq(es), SegmentLines(json, es), s)|
    requires !Less(key, Samples(KeySeq(es), SegmentLines(json, es), s)[t].0)
    ensures Scan(json, LinesFrom(SegmentLines(json, es), Samples(KeySeq(es), SegmentLines(json, es), s)[t].1), key) == Ok(ValueAt(es, key))
  {
    SamplesAre(KeySeq(es), SegmentLines(json, es), s);
    var p := (t + 1) * s - 1;
    ScanFlushedFrom(json, es, p, key);
    ValueAtFrom(es, p, key);
  }

  /**
   * The index after `add(key, None, offset=off, segment=segment)` for each
   * `(key, off)` sample in turn.
   */
  function Indexed(es: seq<Entry<Item<Option<Value>>>>, samples: seq<(Key, nat)>, segment: string): seq<Entry<Item<Option<Value>>>>
    decreases |samples|
  {
    if samples == [] then es
    else
      var prev := Indexed(es, samples[..|samples| - 1], segment);
      var k := samples[|samples| - 1].0;
      Insert(prev, k, Stored(Lookup(prev, k), None, Some(samples[|samples| - 1].1), Some(segment)))
  }

  /** The offset of the first sample for `k`, if any. */
  function SampleOffset(samples: seq<(Key, nat)>, k: Key): Option<nat>
    decreases |samples|
  {
    if samples == [] then None
    else
      var first := SampleOffset(samples[..|samples| - 1], k);
      if first.Some? then first
      else if samples[|samples| - 1].0 == k then Some(samples[|samples| - 1].1)
      else None
  }

  /**
   * What the index holds for a key after a flush's samples: nothing changes
   * for a key that was not sampled; a sampled key new to the index points at
   * its first sample's offset in this segment; a key that was already in the
   * index keeps the offset and segment it had, because `add` on a present key
   * only replaces the value.
   */
  lemma {:induction false} LookupIndexed(es: seq<Entry<Item<Option<Value>>>>, samples: seq<(Key, nat)>, segment: string, k: Key)
    ensures Lookup(Indexed(es, samples, segment), k) ==
      match SampleOffset(samples, k)
      case None => Lookup(es, k)
      case Some(off) => Some(Stored(Lookup(es, k), None, Some(off), Some(segment)))
    decreases |samples|
  {
    if samples != [] {
      var prev := Indexed(es, samples[..|samples| - 1], segment);
      var last := samples[|samples| - 1];
      LookupIndexed(es, samples[..|samples| - 1], segment, k);
      LookupInsert(prev, last.0, Stored(Lookup(prev, last.0), None, Some(last.1), Some(segment)), k);
    }
  }

  /** Adding samples keeps the index sorted. */
  lemma {:induction false} IndexedSorted(es: seq<Entry<Item<Option<Value>>>>, samples: seq<(Key, nat)>, segment: string)
    requires Sorted(es)
    ensures Sorted(Indexed(es, samples, segment))
    decreases |samples|
  {
    if samples != [] {
      IndexedSorted(es, samples[..|samples| - 1], segment);
      var prev := Indexed(es, samples[..|samples| - 1], segment);
      var last := samples[|samples| - 1];
      InsertSorted(prev, last.0, Stored(Lookup(prev, last.0), None, Some(last.1), Some(segment)));
    }
  }

  /**
   * The countdown of `flush_memtable_to_disk` before record `i`: it starts
   * at `s`, reaches 1 exactly at the sampled records and is then reset to
   * `s + 1` before the decrement. A sparsity below 1 never reaches 1.
   */
  function Countdown(i: nat, s: int): int {
    if s >= 1 then s - i % s else s - i
  }

  /** The countdown hits 1 exactly at the sampled records, and one record later it is the next countdown. */
  lemma CountdownStep(i: nat, s: int)
    ensures Countdown(i, s) == 1 <==> Sampled(i, s)
    ensures (if Countdown(i, s) == 1 then s + 1 else Countdown(i, s)) - 1 == Countdown(i + 1, s)
  {
    if s >= 1 {
      var q, r := i / s, i % s;
      assert i == q * s + r && 0 <= r < s;
      if r == s - 1 {
        DivModUnique(i + 1, s, q + 1, 0);
      } else {
        DivModUnique(i + 1, s, q, r + 1);
      }
    }
  }

  /** One more record: a sample for it exactly when it is sampled, at the offset where its line starts. */
  lemma SamplesSnoc(keys: seq<Key>, lines: seq<string>, key: Key, line: string, s: int)
    requires |keys| == |lines|
    ensures Samples(keys + [key], lines + [line], s) ==
      Samples(keys, lines, s) + (if Sampled(|keys|, s) then [(key, TotalLength(lines))] else [])
  {
    assert (keys + [key])[..|keys|] == keys;
    assert (lines + [line])[..|keys|] == lines;
  }

  /** One more sample applies one more `add`. */
  lemma IndexedSnoc(es: seq<Entry<Item<Option<Value>>>>, samples: seq<(Key, nat)>, segment: string, k: Key, off: nat)
    ensures var prev := Indexed(es, samples, segment);
      Indexed(es, samples + [(k, off)], segment) == Insert(prev, k, Stored(Lookup(prev, k), None, Some(off), Some(segment)))
  {
    assert (samples + [(k, off)])[..|samples|] == samples;
  }

  /**
   * The index after the first `i + 1` records of a flush: one more `add`,
   * at the offset where record `i`'s line starts, exactly when record `i` is
   * sampled.
   */
  lemma FlushIndexStep(json: Json, es: seq<Entry<Item<Value>>>, i: nat, s: int, idx: seq<Entry<Item<Option<Value>>>>, segment: string)
    requires i < |es|
    ensures var lines := SegmentLines(json, es[..i]);
      var prev := Indexed(idx, Samples(KeySeq(es[..i]), lines, s), segment);
      Indexed(idx, Samples(KeySeq(es[..i + 1]), SegmentLines(json, es[..i + 1]), s), segment) ==
        if Sampled(i, s) then Insert(prev, es[i].0, Stored(Lookup(prev, es[i].0), None, Some(TotalLength(lines)), Some(segment)))
        else prev
  {
    var lines, ks := SegmentLines(json, es[..i]), KeySeq(es[..i]);
    SegmentLinesPrefix(json, es, i);
    SamplesSnoc(ks, lines, es[i].0, ToLogEntry(json, es[i].0, es[i].1.value), s);
    var smp := Samples(ks, lines, s);
    assert |ks| == i;
    if Sampled(i, s) {
      assert Samples(KeySeq(es[..i + 1]), SegmentLines(json, es[..i + 1]), s) == smp + [(es[i].0, TotalLength(lines))];
      IndexedSnoc(idx, smp, segment, es[i].0, TotalLength(lines));
    } else {
      assert Samples(KeySeq(es[..i + 1]), SegmentLines(json, es[..i + 1]), s) == smp + [];
      assert smp + [] == smp;
    }
  }

  /**
   * Where a flush of `es` with sparsity `s` stands after its first `i`
   * records: their lines written, the offset just past them, the countdown,
   * the index `idx` grown to `index` by their samples, and the bloom
   * filter's key list `keys` grown to `bloom` by their keys.
   */
  ghost predicate FlushState(json: Json, es: seq<Entry<Item<Value>>>, i: nat, s: int, counter: int, offset: int, lines: seq<string>,
                             idx: seq<Entry<Item<Option<Value>>>>, index: seq<Entry<Item<Option<Value>>>>,
                             keys: seq<Key>, bloom: seq<Key>, segment: string)
  {
    i <= |es| && lines == SegmentLines(json, es[..i]) && offset == TotalLength(lines) && counter == Countdown(i, s) &&
    index == Indexed(idx, Samples(KeySeq(es[..i]), lines, s), segment) &&
    bloom == keys + KeySeq(es[..i])
  }

  /**
   * One record of the flush: `add` to the index at the current offset when
   * the countdown is at 1 and reset the countdown, add the key to the bloom
   * filter, write the line, move the offset on, count down.
   */
  lemma FlushStateStep(json: Json, es: seq<Entry<Item<Value>>>, i: nat, s: int, counter: int, offset: int, lines: seq<string>,
                       idx: seq<Entry<Item<Option<Value>>>>, index: seq<Entry<Item<Option<Value>>>>,
                       keys: seq<Key>, bloom: seq<Key>, segment: string,
                       counter': int, offset': int, lines': seq<string>, index': seq<Entry<Item<Option<Value>>>>, bloom': seq<Key>)
    requires i < |es| && FlushState(json, es, i, s, counter, offset, lines, idx, index, keys, bloom, segment)
    requires counter' == (if counter == 1 then s + 1 else counter) - 1
    requires lines' == lines + [ToLogEntry(json, es[i].0, es[i].1.value)] && offset' == offset + |ToLogEntry(json, es[i].0, es[i].1.value)|
    requires index' == if counter == 1 then Insert(index, es[i].0, Stored(Lookup(index, es[i].0), None, Some(offset), Some(segment))) else index
    requires bloom' == bloom + [es[i].0]
    ensures FlushState(json, es, i + 1, s, counter', offset', lines', idx, index', keys, bloom', segment)
  {
    var log := ToLogEntry(json, es[i].0, es[i].1.value);
    CountdownStep(i, s);
    FlushIndexStep(json, es, i, s, idx, segment);
    SegmentLinesPrefix(json, es, i);
    TotalLengthSnoc(lines, log);
  }

  /**
   * The memtable after `restore_memtable` has replayed WAL lines onto `es`
   * with `add(key, value)`, stopping at the first line that does not read
   * (where Python raises).
   */
  function Replayed(json: Json, es: seq<Entry<Item<Value>>>, lines: seq<string>): seq<Entry<Item<Value>>>
    decreases |lines|
  {
    if lines == [] then es
    else
      match ParseLine(json, lines[0])
      case None => es
      case Some((k, v)) => Replayed(json, Insert(es, k, Stored(Lookup(es, k), v, None, None)), lines[1..])
  }

  /** Every line reads: the replay runs to the end without raising. */
  predicate Replayable(json: Json, lines: seq<string>) {
    forall i :: 0 <= i < |lines| ==> ParseLine(json, lines[i]).Some?
  }

  /** The number of leading lines that read. */
  function ReadablePrefix(json: Json, lines: seq<string>): (n: nat)
    ensures n <= |lines| && Replayable(json, lines[..n])
    ensures n < |lines| ==> ParseLine(json, lines[n]).None?
    decreases |lines|
  {
    if lines == [] || ParseLine(json, lines[0]).None? then 0
    else
      var n := 1 + ReadablePrefix(json, lines[1..]);
      ReplayableCons(json, lines, n);
      n
  }

  /** A readable first line before readable lines: the lines read. */
  lemma ReplayableCons(json: Json, lines: seq<string>, n: nat)
    requires 1 <= n <= |lines| && ParseLine(json, lines[0]).Some? && Replayable(json, lines[1..][..n - 1])
    ensures Replayable(json, lines[..n])
  {
    forall i | 0 <= i < n ensures ParseLine(json, lines[..n][i]).Some? {
      if i > 0 {
        assert lines[..n][i] == lines[1..][..n - 1][i - 1];
      }
    }
  }

  /** The readable prefix ends at the first line that does not read. */
  lemma {:induction false} ReadablePrefixAt(json: Json, lines: seq<string>, n: nat)
    requires n <= |lines| && forall i :: 0 <= i < n ==> ParseLine(json, lines[i]).Some?
    requires n == |lines| || ParseLine(json, lines[n]).None?
    ensures ReadablePrefix(json, lines) == n
    decreases n
  {
    if n > 0 {
      var rest := lines[1..];
      assert ParseLine(json, lines[0]).Some?;
      forall i | 0 <= i < n - 1 ensures ParseLine(json, rest[i]).Some? {
        assert rest[i] == lines[i + 1];
      }
      if n < |lines| {
        assert rest[n - 1] == lines[n];
      }
      ReadablePrefixAt(json, rest, n - 1);
    }
  }

  /** Replaying one more line applies it after the others. */
  lemma {:induction false} ReplayAppend(json: Json, es: seq<Entry<Item<Value>>>, lines: seq<string>, line: string)
    requires Replayable(json, lines)
    ensures Replayed(json, es, lines + [line]) == Replayed(json, Replayed(json, es, lines), [line])
    decreases |lines|
  {
    if lines != [] {
      var kv := ParseLine(json, lines[0]).value;
      assert (lines + [line])[1..] == lines[1..] + [line];
      assert Replayable(json, lines[1..]) by {
        forall i | 0 <= i < |lines| - 1 ensures ParseLine(json, lines[1..][i]).Some? {
          assert lines[1..][i] == lines[i + 1];
        }
      }
      ReplayAppend(json, Insert(es, kv.0, Stored(Lookup(es, kv.0), kv.1, None, None)), lines[1..], line);
    } else {
      assert [] + [line] == [line];
    }
  }

  /**
   * Logging a write and replaying the log applies the write after the
   * earlier ones: the log line reads back as the key and value written.
   */
  lemma ReplayLogEntry(json: Json, es: seq<Entry<Item<Value>>>, lines: seq<string>, key: Key, value: Value)
    requires Lawful(json) && Replayable(json, lines)
    ensures Replayable(json, lines + [ToLogEntry(json, key, value)])
    ensures var prev := Replayed(json, es, lines);
      Replayed(json, es, lines + [ToLogEntry(json, key, value)]) == Insert(prev, key, Stored(Lookup(prev, key), value, None, None))
  {
    var line := ToLogEntry(json, key, value);
    ParseLogEntry(json, key, value);
    ReplayAppend(json, es, lines, line);
    assert [line][1..] == [];
    forall i | 0 <= i < |lines| + 1 ensures ParseLine(json, (lines + [line])[i]).Some? {
      if i < |lines| {
        assert (lines + [line])[i] == lines[i];
      }
    }
  }

  lemma ReplayablePrefix(json: Json, lines: seq<string>, n: nat)
    requires Replayable(json, lines) && n <= |lines|
    ensures Replayable(json, lines[..n])
  {
    forall i | 0 <= i < n ensures ParseLine(json, lines[..n][i]).Some? {
      assert lines[..n][i] == lines[i];
    }
  }

  /** The value of the last line for `k` among readable lines. */
  function LastValue(json: Json, lines: seq<string>, k: Key): Option<Value>
    requires Replayable(json, lines)
    decreases |lines|
  {
    if lines == [] then None
    else
      var kv := ParseLine(json, lines[|lines| - 1]).value;
      if kv.0 == k then Some(kv.1)
      else
        ReplayablePrefix(json, lines, |lines| - 1);
        LastValue(json, lines[..|lines| - 1], k)
  }

  /** On readable lines the last line for a key decides its value; untouched keys keep theirs. */
  lemma {:induction false} ReplayLastWins(json: Json, es: seq<Entry<Item<Value>>>, lines: seq<string>, k: Key)
    requires Replayable(json, lines)
    ensures ValueAt(Replayed(json, es, lines), k) == if LastValue(json, lines, k).Some? then LastValue(json, lines, k) else ValueAt(es, k)
    decreases |lines|
  {
    if lines != [] {
      var init := lines[..|lines| - 1];
      ReplayablePrefix(json, lines, |lines| - 1);
      var mid := Replayed(json, es, init);
      var kv := ParseLine(json, lines[|lines| - 1]).value;
      ReplayLast(json, es, lines);
      ReplayLastWins(json, es, init, k);
      LookupInsert(mid, kv.0, Stored(Lookup(mid, kv.0), kv.1, None, None), k);
    }
  }

  /** Replaying readable lines applies the last one after the others. */
  lemma ReplayLast(json: Json, es: seq<Entry<Item<Value>>>, lines: seq<string>)
    requires Replayable(json, lines) && lines != []
    ensures Replayable(json, lines[..|lines| - 1])
    ensures var mid := Replayed(json, es, lines[..|lines| - 1]);
      var kv := ParseLine(json, lines[|lines| - 1]).value;
      Replayed(json, es, lines) == Insert(mid, kv.0, Stored(Lookup(mid, kv.0), kv.1, None, None))
  {
    var init, line := lines[..|lines| - 1], lines[|lines| - 1];
    assert lines == init + [line];
    ReplayablePrefix(json, lines, |lines| - 1);
    ReplayAppend(json, es, init, line);
    ReplayOne(json, Replayed(json, es, init), line);
  }

  /** Replaying one readable line adds its record. */
  lemma ReplayOne(json: Json, es: seq<Entry<Item<Value>>>, line: string)
    requires ParseLine(json, line).Some?
    ensures var kv := ParseLine(json, line).value;
      Replayed(json, es, [line]) == Insert(es, kv.0, Stored(Lookup(es, kv.0), kv.1, None, None))
  {
    assert [line][0] == line && [line][1..] == [];
  }

  /**
   * `search_all_segments`: `search_segment` on each segment from the newest
   * (last) to the oldest, until one finds the key. Raises where a segment's
   * file is missing or a probed line does not read.
   */
  function SearchAll(json: Json, files: map<string, seq<string>>, segments: seq<string>, key: Key): Outcome<Option<Value>>
    decreases |segments|
  {
    if segments == [] then Ok(None)
    else
      var newest := segments[|segments| - 1];
      if newest !in files then Raises
      else
        match BinarySearch(json, Stripped(files[newest]), key)
        case Raises => Raises
        case Ok(Some(v)) => Ok(Some(v))
        case Ok(None) => SearchAll(json, files, segments[..|segments| - 1], key)
  }

  /** Each segment's file holds the lines flushed from the sorted entries recorded for it. */
  ghost predicate Flushed(json: Json, files: map<string, seq<string>>, segments: seq<string>, contents: seq<seq<Entry<Item<Value>>>>) {
    |contents| == |segments| &&
    forall i :: 0 <= i < |segments| ==>
      segments[i] in files && files[segments[i]] == SegmentLines(json, contents[i]) && Sorted(contents[i])
  }

  /** The value of `key` in the newest segment that holds it. */
  function Newest(contents: seq<seq<Entry<Item<Value>>>>, key: Key): Option<Value>
    decreases |contents|
  {
    if contents == [] then None
    else if ValueAt(contents[|contents| - 1], key).Some? then ValueAt(contents[|contents| - 1], key)
    else Newest(contents[..|contents| - 1], key)
  }

  /** On flushed segments, searching all of them gives the newest value of the key, or None. */
  lemma SearchAllNewest(json: Json, files: map<string, seq<string>>, segments: seq<string>, contents: seq<seq<Entry<Item<Value>>>>, key: Key)
    requires Lawful(json) && Flushed(json, files, segments, contents)
    ensures SearchAll(json, files, segments, key) == Ok(Newest(contents, key))
  {
    forall i | 0 <= i < |segments|
      ensures segments[i] in files && BinarySearch(json, Stripped(files[segments[i]]), key) == Ok(ValueAt(contents[i], key))
    {
      SearchFlushed(json, contents[i], key);
    }
    SearchAllFinds(json, files, segments, contents, key);
  }

  lemma {:induction false} SearchAllFinds(json: Json, files: map<string, seq<string>>, segments: seq<string>, contents: seq<seq<Entry<Item<Value>>>>, key: Key)
    requires |contents| == |segments|
    requires forall i :: 0 <= i < |segments| ==>
      segments[i] in files && BinarySearch(json, Stripped(files[segments[i]]), key) == Ok(ValueAt(contents[i], key))
    ensures SearchAll(json, files, segments, key) == Ok(Newest(contents, key))
    decreases |segments|
  {
    if segments != [] {
      var n := |segments| - 1;
      assert forall i :: 0 <= i < n ==> segments[..n][i] == segments[i] && contents[..n][i] == contents[i];
      SearchAllFinds(json, files, segments[..n], contents[..n], key);
    }
  }

  /** The greatest key of a sorted list that is not above `k`. */
  function FloorKey<T>(es: seq<Entry<T>>, k: Key): Option<Key>
    decreases |es|
  {
    if es == [] then None
    else
      var rest := FloorKey(es[1..], k);
      if rest.Some? then rest
      else if !Less(k, es[0].0) then Some(es[0].0)
      else None
  }

  /** On a sorted list, `FloorKey` is the floor, and the only one. */
  lemma {:induction false} FloorKeyIsFloor<T>(es: seq<Entry<T>>, k: Key, r: Option<Key>)
    requires Sorted(es) && IsFloor(es, k, r)
    ensures r == FloorKey(es, k)
    decreases |es|
  {
    if es != [] {
      SortedTail(es);
      var tail := es[1..];
      var rest := FloorKey(tail, k);
      var r2: Option<Key>;
      if forall e :: e in tail ==> Less(k, e.0) {
        r2 := None;
      } else {
        var e :| e in tail && !Less(k, e.0);
        ghost var f := FloorWitness(tail, k, e);
        r2 := Some(f);
      }
      FloorKeyIsFloor(tail, k, r2);
      FloorSplit(es, k, r, r2);
    }
  }

  lemma FloorWitness<T>(es: seq<Entry<T>>, k: Key, e: Entry<T>) returns (f: Key)
    requires Sorted(es) && e in es && !Less(k, e.0)
    ensures IsFloor(es, k, Some(f))
  {
    var j :| 0 <= j < |es| && es[j] == e;
    var best := j;
    var i := j + 1;
    while i < |es|
      invariant j <= best < i <= |es| && !Less(k, es[best].0)
      invariant forall m :: 0 <= m < i && !Less(k, es[m].0) ==> m <= best
      decreases |es| - i
    {
      if !Less(k, es[i].0) {
        best := i;
      }
      i := i + 1;
    }
    f := es[best].0;
    assert es[best] in es;
    forall x | x in es && !Less(k, x.0) ensures !Less(f, x.0) {
      var m :| 0 <= m < |es| && es[m] == x;
      if m < best {
        LessAsymmetric(x.0, f);
      } else {
        LessIrreflexive(f);
      }
    }
  }

  lemma FloorSplit<T>(es: seq<Entry<T>>, k: Key, r: Option<Key>, r2: Option<Key>)
    requires Sorted(es) && es != [] && IsFloor(es, k, r) && IsFloor(es[1..], k, r2)
    ensures r == if r2.Some? then r2 else if !Less(k, es[0].0) then Some(es[0].0) else None
  {
    forall e | e in es ensures e == es[0] || e in es[1..] {
      var j :| 0 <= j < |es| && es[j] == e;
      if j > 0 {
        assert es[1..][j - 1] == e;
      }
    }
    forall e | e in es[1..] ensures Less(es[0].0, e.0) {
      var j :| 0 <= j < |es[1..]| && es[1..][j] == e;
      assert es[j + 1] == e;
    }
    match r
    case None =>
      assert Less(k, es[0].0);
    case Some(f) =>
      if r2.Some? {
        var g := r2.value;
        var eg :| eg in es[1..] && eg.0 == g;
        assert eg in es;
        var ef :| ef in es && ef.0 == f;
        if ef == es[0] {
          LessAsymmetric(f, g);
        }
        if f != g {
          LessTotal(f, g);
        }
      } else {
        var ef :| ef in es && ef.0 == f;
        if ef != es[0] {
          assert ef in es[1..];
        }
      }
  }

  /**
   * `db_get` once the memtable misses and the bloom filter lets the key
   * through, given the index entry found at the floor of the key: scan that
   * entry's segment from its offset; if the scan finds nothing, search all
   * segments newest first. With no floor entry the search starts at once.
   * Raises where the entry lacks an offset or segment, the file is missing or
   * a line does not read.
   */
  function Probe(json: Json, files: map<string, seq<string>>, segments: seq<string>, floor: Option<Item<Option<Value>>>, key: Key): Outcome<Option<Value>> {
    match floor
    case None => SearchAll(json, files, segments, key)
    case Some(entry) =>
      if entry.offset.None? || entry.segment.None? || entry.segment.value !in files then Raises
      else
        match Scan(json, LinesFrom(files[entry.segment.value], entry.offset.value), key)
        case Raises => Raises
        case Ok(Some(v)) => Ok(Some(v))
        case Ok(None) => SearchAll(json, files, segments, key)
  }

  /** A probe through an entry with a readable position: the scan's answer, or the search of all segments. */
  lemma ProbeScan(json: Json, files: map<string, seq<string>>, segments: seq<string>, entry: Item<Option<Value>>, key: Key)
    requires entry.offset.Some? && entry.segment.Some? && entry.segment.value in files
    ensures var scanned := Scan(json, LinesFrom(files[entry.segment.value], entry.offset.value), key);
      Probe(json, files, segments, Some(entry), key) == if scanned == Ok(None) then SearchAll(json, files, segments, key) else scanned
  {
    var scanned := Scan(json, LinesFrom(files[entry.segment.value], entry.offset.value), key);
    match scanned
    case Raises =>
    case Ok(None) =>
    case Ok(Some(v)) =>
  }

  /**
   * A read through an index entry that a flush of segment `j` sampled, for
   * a key not below the sampled key: the value of the key in that segment
   * if it holds one (even where a newer segment holds another), otherwise
   * the newest value of the key over all flushed segments.
   */
  lemma ProbeFlushed(json: Json, files: map<string, seq<string>>, segments: seq<string>, contents: seq<seq<Entry<Item<Value>>>>,
                     j: nat, s: int, t: nat, entry: Item<Option<Value>>, key: Key)
    requires Lawful(json) && Flushed(json, files, segments, contents) && j < |segments|
    requires t < |Samples(KeySeq(contents[j]), SegmentLines(json, contents[j]), s)|
    requires entry.segment == Some(segments[j])
    requires entry.offset == Some(Samples(KeySeq(contents[j]), SegmentLines(json, contents[j]), s)[t].1)
    requires !Less(key, Samples(KeySeq(contents[j]), SegmentLines(json, contents[j]), s)[t].0)
    ensures Probe(json, files, segments, Some(entry), key) ==
      Ok(if ValueAt(contents[j], key).Some? then ValueAt(contents[j], key) else Newest(contents, key))
  {
    ScanFromSample(json, contents[j], s, t, key);
    SearchAllNewest(json, files, segments, contents, key);
  }

  /** The index entry at the floor of `key`, if the index has a key not above it. */
  function FloorEntry<T>(es: seq<Entry<T>>, key: Key): Option<T> {
    match FloorKey(es, key)
    case None => None
    case Some(f) => Lookup(es, f)
  }

  /** The floor found is a key of the list. */
  lemma {:induction false} FloorKeyIn<T>(es: seq<Entry<T>>, k: Key)
    ensures FloorKey(es, k).Some? ==> FloorKey(es, k).value in KeysOf(es)
    decreases |es|
  {
    if es != [] {
      FloorKeyIn(es[1..], k);
      assert es[0] in es;
      assert forall e :: e in es[1..] ==> e in es;
    }
  }

  /**
   * `db_get` past the bloom filter as written: `find_node(floor(key))`
   * looks for the key `None`, and comparing `None` with the root's key
   * raises, so the read raises wherever the index has keys but none at or
   * below `key`.
   */
  function ProbeIndexAsWritten(json: Json, files: map<string, seq<string>>, segments: seq<string>,
                               idx: seq<Entry<Item<Option<Value>>>>, key: Key): Outcome<Option<Value>>
  {
    if FloorKey(idx, key).None? && idx != [] then Raises
    else Probe(json, files, segments, FloorEntry(idx, key), key)
  }

  /**
   * A key below every key of a non-empty index (say the first key of a
   * flushed segment when the sparsity is 2 or more, since the first index
   * entry is the s-th key): as written the read raises; the search of all
   * segments, which `db_get` evidently means to fall back on, finds it.
   */
  lemma ProbeBelowIndexAsWritten(json: Json, files: map<string, seq<string>>, segments: seq<string>,
                                 idx: seq<Entry<Item<Option<Value>>>>, key: Key)
    requires Sorted(idx) && idx != [] && Less(key, idx[0].0)
    ensures ProbeIndexAsWritten(json, files, segments, idx, key) == Raises
    ensures Probe(json, files, segments, FloorEntry(idx, key), key) == SearchAll(json, files, segments, key)
  {
    forall e | e in idx ensures Less(key, e.0) {
      var j :| 0 <= j < |idx| && idx[j] == e;
      if j > 0 {
        LessTransitive(key, idx[0].0, e.0);
      }
    }
    FloorKeyIsFloor(idx, key, None);
  }
}
