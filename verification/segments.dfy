/**
 * Segment files as the engine reads them. A segment (and the write-ahead
 * log) is its sequence of lines, each ending in a newline. Four readings of
 * those lines are modelled here as functions:
 * - the binary search of `search_segment`;
 * - the scan `db_get` runs after a `seek`;
 * - the two-way `merge`;
 * - the sparse sampling that `flush_memtable_to_disk` and `repopulate_index`
 *   share.
 */
module Segments {
  import opened Wrappers
  import opened ByteKeys
  import opened Text
  import opened Assoc
  import opened LogLines

  /** The result of a read that raises on a malformed line or a missing file. */
  datatype Outcome<T> = Ok(value: T) | Raises

  /** `[line.strip() for line in segment_file]`. */
  function Stripped(lines: seq<string>): (pairs: seq<string>)
    ensures |pairs| == |lines| && forall i :: 0 <= i < |lines| ==> pairs[i] == Strip(lines[i])
  {
    seq(|lines|, i requires 0 <= i < |lines| => Strip(lines[i]))
  }

  /** The records of a run of stripped lines, when every one of them reads. */
  function Records(json: Json, pairs: seq<string>): (r: Option<seq<Entry<Value>>>)
    ensures r.Some? <==> forall i :: 0 <= i < |pairs| ==> ReadRecord(json, pairs[i]).Some?
    ensures r.Some? ==> |r.value| == |pairs| && forall i :: 0 <= i < |pairs| ==> ReadRecord(json, pairs[i]) == Some(r.value[i])
    decreases |pairs|
  {
    if pairs == [] then Some([])
    else
      var first, rest := ReadRecord(json, pairs[0]), Records(json, pairs[1..]);
      assert forall i :: 1 <= i < |pairs| ==> pairs[i] == pairs[1..][i - 1];
      if first.Some? && rest.Some? then Some([first.value] + rest.value) else None
  }

  /** A slice of readable lines reads as the same slice of records. */
  lemma RecordsSlice(json: Json, pairs: seq<string>, rs: seq<Entry<Value>>, lo: nat, hi: nat)
    requires Records(json, pairs) == Some(rs) && lo <= hi <= |pairs|
    ensures Records(json, pairs[lo..hi]) == Some(rs[lo..hi])
  {
    assert forall i :: 0 <= i < hi - lo ==> pairs[lo..hi][i] == pairs[lo + i];
    var r := Records(json, pairs[lo..hi]);
    assert r.Some?;
    assert r.value == rs[lo..hi];
  }

  /**
   * `search_segment`'s loop on the stripped lines: probe the middle line
   * (`(len - 1) // 2`), return its value on an exact key, else keep the half
   * on the key's side. Raises where a probed line does not read.
   */
  function BinarySearch(json: Json, pairs: seq<string>, key: Key): Outcome<Option<Value>>
    decreases |pairs|
  {
    if pairs == [] then Ok(None)
    else
      var ptr := (|pairs| - 1) / 2;
      match SplitKey(pairs[ptr])
      case None => Raises
      case Some((k, rest)) =>
        if k == key then
          match DecodeValue(json, rest)
          case None => Raises
          case Some(v) => Ok(Some(v))
        else if Less(key, k) then BinarySearch(json, pairs[..ptr], key)
        else BinarySearch(json, pairs[ptr + 1..], key)
  }

  /** In a sorted list the entry of a key is the one found at any position holding that key. */
  lemma LookupAt<T>(rs: seq<Entry<T>>, i: nat)
    requires Sorted(rs) && i < |rs|
    ensures Lookup(rs, rs[i].0) == Some(rs[i].1)
  {
    assert rs[i] in rs;
    var r := Lookup(rs, rs[i].0);
    var j :| 0 <= j < |rs| && rs[j] == (rs[i].0, r.value);
    if j != i {
      LessIrreflexive(rs[i].0);
    }
  }

  /** A key below the key at position `p` can only be found before it. */
  lemma LookupBelow<T>(rs: seq<Entry<T>>, p: nat, key: Key)
    requires Sorted(rs) && p < |rs| && Less(key, rs[p].0)
    ensures Lookup(rs, key) == Lookup(rs[..p], key)
  {
    var tail := rs[p..];
    assert rs == rs[..p] + tail;
    forall e | e in tail ensures e.0 != key {
      var j :| 0 <= j < |tail| && tail[j] == e;
      assert rs[p + j] == e;
      LessIrreflexive(key);
      if j > 0 {
        LessTransitive(key, rs[p].0, e.0);
      }
    }
    LookupAppend(rs[..p], tail, key);
  }

  /** A key above the key at position `p` can only be found after it. */
  lemma LookupAbove<T>(rs: seq<Entry<T>>, p: nat, key: Key)
    requires Sorted(rs) && p < |rs| && Less(rs[p].0, key)
    ensures Lookup(rs, key) == Lookup(rs[p + 1..], key)
  {
    var head := rs[..p + 1];
    assert rs == head + rs[p + 1..];
    forall e | e in head ensures e.0 != key {
      var j :| 0 <= j < |head| && head[j] == e;
      assert rs[j] == e;
      LessIrreflexive(key);
      if j < p {
        LessTransitive(e.0, rs[p].0, key);
      }
    }
    LookupAppend(head, rs[p + 1..], key);
  }

  /** A slice of a sorted list is sorted. */
  lemma SortedSlice<T>(rs: seq<Entry<T>>, lo: nat, hi: nat)
    requires Sorted(rs) && lo <= hi <= |rs|
    ensures Sorted(rs[lo..hi])
  {
    forall i, j | 0 <= i < j < hi - lo ensures Less(rs[lo..hi][i].0, rs[lo..hi][j].0) {
      assert rs[lo..hi][i] == rs[lo + i] && rs[lo..hi][j] == rs[lo + j];
    }
  }

  /**
   * On lines that all read, with keys strictly increasing, the binary search
   * finds a key exactly when a line holds it, and then that line's value.
   */
  lemma {:induction false} BinarySearchSorted(json: Json, pairs: seq<string>, rs: seq<Entry<Value>>, key: Key)
    requires Records(json, pairs) == Some(rs) && Sorted(rs)
    ensures BinarySearch(json, pairs, key) == Ok(Lookup(rs, key))
    decreases |pairs|, 1
  {
    if pairs != [] {
      var ptr := (|pairs| - 1) / 2;
      var k := rs[ptr].0;
      ProbeMiddle(json, pairs, rs, key);
      if k == key {
        LookupAt(rs, ptr);
      } else if Less(key, k) {
        SearchLowerHalf(json, pairs, rs, key);
      } else {
        LessTotal(key, k);
        SearchUpperHalf(json, pairs, rs, key);
      }
    }
  }

  /** A key below the middle record's is searched for, and found, in the lower half. */
  lemma {:induction false} SearchLowerHalf(json: Json, pairs: seq<string>, rs: seq<Entry<Value>>, key: Key)
    requires Records(json, pairs) == Some(rs) && Sorted(rs) && pairs != []
    requires Less(key, rs[(|pairs| - 1) / 2].0)
    ensures BinarySearch(json, pairs[..(|pairs| - 1) / 2], key) == Ok(Lookup(rs, key))
    decreases |pairs|, 0
  {
    var ptr := (|pairs| - 1) / 2;
    RecordsSlice(json, pairs, rs, 0, ptr);
    SortedSlice(rs, 0, ptr);
    assert pairs[0..ptr] == pairs[..ptr] && rs[0..ptr] == rs[..ptr];
    BinarySearchSorted(json, pairs[..ptr], rs[..ptr], key);
    LookupBelow(rs, ptr, key);
  }

  /** A key above the middle record's is searched for, and found, in the upper half. */
  lemma {:induction false} SearchUpperHalf(json: Json, pairs: seq<string>, rs: seq<Entry<Value>>, key: Key)
    requires Records(json, pairs) == Some(rs) && Sorted(rs) && pairs != []
    requires Less(rs[(|pairs| - 1) / 2].0, key)
    ensures BinarySearch(json, pairs[(|pairs| - 1) / 2 + 1..], key) == Ok(Lookup(rs, key))
    decreases |pairs|, 0
  {
    var ptr := (|pairs| - 1) / 2;
    RecordsSlice(json, pairs, rs, ptr + 1, |pairs|);
    SortedSlice(rs, ptr + 1, |rs|);
    assert pairs[ptr + 1..|pairs|] == pairs[ptr + 1..] && rs[ptr + 1..|rs|] == rs[ptr + 1..];
    BinarySearchSorted(json, pairs[ptr + 1..], rs[ptr + 1..], key);
    LookupAbove(rs, ptr, key);
  }

  /** One probe of the binary search on readable lines: the middle record's value, or the search of one half. */
  lemma ProbeMiddle(json: Json, pairs: seq<string>, rs: seq<Entry<Value>>, key: Key)
    requires Records(json, pairs) == Some(rs) && pairs != []
    ensures var ptr := (|pairs| - 1) / 2;
      BinarySearch(json, pairs, key) ==
        if rs[ptr].0 == key then Ok(Some(rs[ptr].1))
        else if Less(key, rs[ptr].0) then BinarySearch(json, pairs[..ptr], key)
        else BinarySearch(json, pairs[ptr + 1..], key)
  {
    var ptr := (|pairs| - 1) / 2;
    assert ReadRecord(json, pairs[ptr]) == Some(rs[ptr]);
  }

  /**
   * The loop of `db_get` over the lines that follow the `seek`: the value of
   * the first line whose key is `key`. Raises where a line up to that one
   * does not split into a hex key and the rest, or the matching line's JSON
   * does not load.
   */
  function Scan(json: Json, lines: seq<string>, key: Key): Outcome<Option<Value>>
    decreases |lines|
  {
    if lines == [] then Ok(None)
    else
      match SplitKey(Strip(lines[0]))
      case None => Raises
      case Some((k, rest)) =>
        if k == key then
          match DecodeValue(json, rest)
          case None => Raises
          case Some(v) => Ok(Some(v))
        else Scan(json, lines[1..], key)
  }

  /** On lines that all read, the scan answers as the first record with the key. */
  lemma {:induction false} ScanFinds(json: Json, lines: seq<string>, rs: seq<Entry<Value>>, key: Key)
    requires Records(json, Stripped(lines)) == Some(rs)
    ensures Scan(json, lines, key) == Ok(Lookup(rs, key))
    decreases |lines|
  {
    if lines != [] {
      assert ReadRecord(json, Stripped(lines)[0]) == Some(rs[0]);
      assert Stripped(lines[1..]) == Stripped(lines)[1..];
      RecordsSlice(json, Stripped(lines), rs, 1, |lines|);
      ScanFinds(json, lines[1..], rs[1..], key);
    }
  }

  /** The number of characters in the lines, so the offset just past them. */
  function TotalLength(lines: seq<string>): nat
    decreases |lines|
  {
    if lines == [] then 0 else |lines[0]| + TotalLength(lines[1..])
  }

  /** Writing one more line moves the offset on by its length. */
  lemma {:induction false} TotalLengthSnoc(lines: seq<string>, line: string)
    ensures TotalLength(lines + [line]) == TotalLength(lines) + |line|
    decreases |lines|
  {
    if lines == [] {
      assert [] + [line] == [line];
    } else {
      assert (lines + [line])[1..] == lines[1..] + [line];
      TotalLengthSnoc(lines[1..], line);
    }
  }

  /** A prefix one element longer. */
  lemma PrefixSnoc<T>(s: seq<T>, i: nat)
    requires i < |s|
    ensures s[..i + 1] == s[..i] + [s[i]]
  {
  }

  /** A sequence that agrees with `b` and then ends in `x` is `b + [x]`. */
  lemma SnocEqual<T>(a: seq<T>, b: seq<T>, x: T)
    requires |a| == |b| + 1 && a[|b|] == x
    requires forall j :: 0 <= j < |b| ==> a[j] == b[j]
    ensures a == b + [x]
  {
  }

  /** The offset past the first `i + 1` lines is the one past the first `i` plus line `i`'s length. */
  lemma TotalLengthPrefix(lines: seq<string>, i: nat)
    requires i < |lines|
    ensures TotalLength(lines[..i + 1]) == TotalLength(lines[..i]) + |lines[i]|
  {
    PrefixSnoc(lines, i);
    TotalLengthSnoc(lines[..i], lines[i]);
  }

  /**
   * `seek(offset)` on a segment, then iterating it: the rest of the line
   * the offset falls in, then every later line.
   */
  function LinesFrom(lines: seq<string>, offset: nat): seq<string>
    decreases |lines|
  {
    if lines == [] then []
    else if offset < |lines[0]| then [lines[0][offset..]] + lines[1..]
    else LinesFrom(lines[1..], offset - |lines[0]|)
  }

  /** Seeking to the total length of the first `j` lines lands at the start of line `j`. */
  lemma {:induction false} SeekToLine(lines: seq<string>, j: nat)
    requires j <= |lines| && forall i :: 0 <= i < |lines| ==> |lines[i]| > 0
    ensures LinesFrom(lines, TotalLength(lines[..j])) == lines[j..]
    decreases j
  {
    if j == 0 {
      if lines != [] {
        assert [lines[0][0..]] + lines[1..] == lines;
      }
    } else {
      assert lines[..j][1..] == lines[1..][..j - 1];
      SeekToLine(lines[1..], j - 1);
      assert lines[1..][j - 1..] == lines[j..];
    }
  }

  /** The keys of lines as `merge` reads them are all there and strictly increase. */
  ghost predicate KeyOrdered(keyOf: string -> Option<Key>, lines: seq<string>) {
    (forall i :: 0 <= i < |lines| ==> keyOf(lines[i]).Some?) &&
    forall i, j :: 0 <= i < j < |lines| ==>
      keyOf(lines[i]).Some? && keyOf(lines[j]).Some? && Less(keyOf(lines[i]).value, keyOf(lines[j]).value)
  }

  /** The keys of the lines that have one. */
  ghost function KeySet(keyOf: string -> Option<Key>, lines: seq<string>): set<Key> {
    set l | l in lines && keyOf(l).Some? :: keyOf(l).value
  }

  /**
   * `merge(a, b)` with an explicit end-of-input test on each side: an
   * exhausted side lets the other side's lines through; on equal keys B's
   * line is written and both sides advance; otherwise the smaller key's
   * line is written and only its side advances. Raises where a current line
   * has no hex key.
   */
  function MergeLines(keyOf: string -> Option<Key>, a: seq<string>, b: seq<string>): Option<seq<string>>
    decreases |a| + |b|
  {
    if a == [] && b == [] then Some([])
    else if (a != [] && keyOf(a[0]).None?) || (b != [] && keyOf(b[0]).None?) then None
    else if a == [] then Prepend(b[0], MergeLines(keyOf, a, b[1..]))
    else if b == [] then Prepend(a[0], MergeLines(keyOf, a[1..], b))
    else if keyOf(a[0]) == keyOf(b[0]) then Prepend(b[0], MergeLines(keyOf, a[1..], b[1..]))
    else if Less(keyOf(a[0]).value, keyOf(b[0]).value) then Prepend(a[0], MergeLines(keyOf, a[1..], b))
    else Prepend(b[0], MergeLines(keyOf, a, b[1..]))
  }

  function Prepend(line: string, rest: Option<seq<string>>): Option<seq<string>> {
    if rest.Some? then Some([line] + rest.value) else None
  }

  /** The first line of a key-ordered run has the least key; the rest stays ordered. */
  lemma HeadBelow(keyOf: string -> Option<Key>, lines: seq<string>)
    requires KeyOrdered(keyOf, lines) && lines != []
    ensures keyOf(lines[0]).Some? && KeyOrdered(keyOf, lines[1..])
    ensures forall k :: k in KeySet(keyOf, lines[1..]) ==> Less(keyOf(lines[0]).value, k)
    ensures KeySet(keyOf, lines) == {keyOf(lines[0]).value} + KeySet(keyOf, lines[1..])
    ensures forall l :: l in lines <==> l == lines[0] || l in lines[1..]
  {
    forall k | k in KeySet(keyOf, lines[1..]) ensures Less(keyOf(lines[0]).value, k) {
      var l :| l in lines[1..] && keyOf(l).Some? && keyOf(l).value == k;
      var j :| 0 <= j < |lines[1..]| && lines[1..][j] == l;
      assert lines[j + 1] == l;
    }
    forall l | l in lines ensures l == lines[0] || l in lines[1..] {
      var j :| 0 <= j < |lines| && lines[j] == l;
      if j > 0 {
        assert lines[1..][j - 1] == l;
      }
    }
  }

  /** A line below every key of a key-ordered run can be put in front of it. */
  lemma ConsOrdered(keyOf: string -> Option<Key>, line: string, rest: seq<string>)
    requires keyOf(line).Some? && KeyOrdered(keyOf, rest)
    requires forall k :: k in KeySet(keyOf, rest) ==> Less(keyOf(line).value, k)
    ensures KeyOrdered(keyOf, [line] + rest)
  {
    var all := [line] + rest;
    forall i, j | 0 <= i < j < |all|
      ensures keyOf(all[i]).Some? && keyOf(all[j]).Some? && Less(keyOf(all[i]).value, keyOf(all[j]).value)
    {
      assert all[j] == rest[j - 1];
      if i == 0 {
        assert keyOf(rest[j - 1]).value in KeySet(keyOf, rest);
      } else {
        assert all[i] == rest[i - 1];
      }
    }
  }

  /** Putting a line in front adds its key and the line itself. */
  lemma ConsKeys(keyOf: string -> Option<Key>, line: string, rest: seq<string>)
    requires keyOf(line).Some?
    ensures KeySet(keyOf, [line] + rest) == {keyOf(line).value} + KeySet(keyOf, rest)
    ensures forall l :: l in [line] + rest <==> l == line || l in rest
  {
  }

  /** The shape of what `MergeLines` produces on key-ordered inputs. */
  ghost predicate MergedFrom(keyOf: string -> Option<Key>, out: seq<string>, a: seq<string>, b: seq<string>) {
    MergedKeys(keyOf, out, a, b) && MergedMembers(keyOf, out, a, b)
  }

  /** The output is key-ordered and has exactly the keys of the inputs. */
  ghost predicate MergedKeys(keyOf: string -> Option<Key>, out: seq<string>, a: seq<string>, b: seq<string>) {
    KeyOrdered(keyOf, out) && KeySet(keyOf, out) == KeySet(keyOf, a) + KeySet(keyOf, b)
  }

  /** The output's lines are B's lines and A's lines for keys B lacks. */
  ghost predicate MergedMembers(keyOf: string -> Option<Key>, out: seq<string>, a: seq<string>, b: seq<string>) {
    forall l :: l in out <==> l in b || (l in a && keyOf(l).Some? && keyOf(l).value !in KeySet(keyOf, b))
  }

  /**
   * Merging two key-ordered segments succeeds and gives a key-ordered
   * segment with every key of either input: all of B's lines, and A's lines
   * for the keys B does not have (B, the newer segment, wins ties).
   */
  lemma {:induction false} MergeOrdered(keyOf: string -> Option<Key>, a: seq<string>, b: seq<string>)
    requires KeyOrdered(keyOf, a) && KeyOrdered(keyOf, b)
    ensures MergeLines(keyOf, a, b).Some? && MergedFrom(keyOf, MergeLines(keyOf, a, b).value, a, b)
    decreases |a| + |b|
  {
    if a == [] && b == [] {
    } else if a == [] {
      HeadBelow(keyOf, b);
      MergeOrdered(keyOf, a, b[1..]);
      MergeOnlyB(keyOf, b, MergeLines(keyOf, a, b[1..]).value);
    } else if b == [] {
      HeadBelow(keyOf, a);
      MergeOrdered(keyOf, a[1..], b);
      MergeOnlyA(keyOf, a, MergeLines(keyOf, a[1..], b).value);
    } else {
      HeadBelow(keyOf, a);
      HeadBelow(keyOf, b);
      var ka, kb := keyOf(a[0]).value, keyOf(b[0]).value;
      if ka == kb {
        MergeOrdered(keyOf, a[1..], b[1..]);
        MergeEqualStep(keyOf, a, b, MergeLines(keyOf, a[1..], b[1..]).value);
      } else if Less(ka, kb) {
        MergeOrdered(keyOf, a[1..], b);
        MergeLeftStep(keyOf, a, b, MergeLines(keyOf, a[1..], b).value);
      } else {
        LessTotal(ka, kb);
        MergeOrdered(keyOf, a, b[1..]);
        MergeRightStep(keyOf, a, b, MergeLines(keyOf, a, b[1..]).value);
      }
    }
  }

  /** Writing a line below every key still to come keeps the output ordered and its keys exact. */
  lemma ConsMergedKeys(keyOf: string -> Option<Key>, x: string, rest: seq<string>, a: seq<string>, b: seq<string>, a2: seq<string>, b2: seq<string>)
    requires keyOf(x).Some? && MergedKeys(keyOf, rest, a2, b2)
    requires KeySet(keyOf, a) + KeySet(keyOf, b) == {keyOf(x).value} + KeySet(keyOf, a2) + KeySet(keyOf, b2)
    requires forall k :: k in KeySet(keyOf, a2) + KeySet(keyOf, b2) ==> Less(keyOf(x).value, k)
    ensures MergedKeys(keyOf, [x] + rest, a, b)
  {
    ConsOrdered(keyOf, x, rest);
    ConsKeys(keyOf, x, rest);
  }

  lemma MergeOnlyB(keyOf: string -> Option<Key>, b: seq<string>, rest: seq<string>)
    requires KeyOrdered(keyOf, b) && b != []
    requires MergeLines(keyOf, [], b[1..]) == Some(rest) && MergedFrom(keyOf, rest, [], b[1..])
    ensures MergeLines(keyOf, [], b) == Some([b[0]] + rest) && MergedFrom(keyOf, [b[0]] + rest, [], b)
  {
    assert MergedKeys(keyOf, [b[0]] + rest, [], b) by {
      HeadBelow(keyOf, b);
      ConsMergedKeys(keyOf, b[0], rest, [], b, [], b[1..]);
    }
    assert MergedMembers(keyOf, [b[0]] + rest, [], b) by {
      HeadBelow(keyOf, b);
      ConsKeys(keyOf, b[0], rest);
    }
  }

  lemma MergeOnlyA(keyOf: string -> Option<Key>, a: seq<string>, rest: seq<string>)
    requires KeyOrdered(keyOf, a) && a != []
    requires MergeLines(keyOf, a[1..], []) == Some(rest) && MergedFrom(keyOf, rest, a[1..], [])
    ensures MergeLines(keyOf, a, []) == Some([a[0]] + rest) && MergedFrom(keyOf, [a[0]] + rest, a, [])
  {
    assert MergedKeys(keyOf, [a[0]] + rest, a, []) by {
      HeadBelow(keyOf, a);
      ConsMergedKeys(keyOf, a[0], rest, a, [], a[1..], []);
    }
    assert MergedMembers(keyOf, [a[0]] + rest, a, []) by {
      HeadBelow(keyOf, a);
      ConsKeys(keyOf, a[0], rest);
    }
  }

  lemma MergeEqualStep(keyOf: string -> Option<Key>, a: seq<string>, b: seq<string>, rest: seq<string>)
    requires KeyOrdered(keyOf, a) && KeyOrdered(keyOf, b) && a != [] && b != []
    requires keyOf(a[0]) == keyOf(b[0])
    requires MergeLines(keyOf, a[1..], b[1..]) == Some(rest) && MergedFrom(keyOf, rest, a[1..], b[1..])
    ensures MergeLines(keyOf, a, b) == Some([b[0]] + rest) && MergedFrom(keyOf, [b[0]] + rest, a, b)
  {
    MergeEqualKeys(keyOf, a, b, rest);
    MergeEqualMembers(keyOf, a, b, rest);
  }

  lemma MergeEqualKeys(keyOf: string -> Option<Key>, a: seq<string>, b: seq<string>, rest: seq<string>)
    requires KeyOrdered(keyOf, a) && KeyOrdered(keyOf, b) && a != [] && b != []
    requires keyOf(a[0]) == keyOf(b[0])
    requires MergedKeys(keyOf, rest, a[1..], b[1..])
    ensures MergedKeys(keyOf, [b[0]] + rest, a, b)
  {
    HeadBelow(keyOf, a);
    HeadBelow(keyOf, b);
    ConsMergedKeys(keyOf, b[0], rest, a, b, a[1..], b[1..]);
  }

  lemma MergeEqualMembers(keyOf: string -> Option<Key>, a: seq<string>, b: seq<string>, rest: seq<string>)
    requires KeyOrdered(keyOf, a) && KeyOrdered(keyOf, b) && a != [] && b != []
    requires keyOf(a[0]) == keyOf(b[0])
    requires MergedMembers(keyOf, rest, a[1..], b[1..])
    ensures MergedMembers(keyOf, [b[0]] + rest, a, b)
  {
    HeadBelow(keyOf, a);
    HeadBelow(keyOf, b);
    ConsKeys(keyOf, b[0], rest);
    LessIrreflexive(keyOf(b[0]).value);
    forall l | l in a[1..] && keyOf(l).Some? ensures keyOf(l).value != keyOf(b[0]).value {
      assert keyOf(l).value in KeySet(keyOf, a[1..]);
    }
  }

  lemma MergeLeftStep(keyOf: string -> Option<Key>, a: seq<string>, b: seq<string>, rest: seq<string>)
    requires KeyOrdered(keyOf, a) && KeyOrdered(keyOf, b) && a != [] && b != []
    requires keyOf(a[0]).Some? && keyOf(b[0]).Some? && Less(keyOf(a[0]).value, keyOf(b[0]).value)
    requires MergeLines(keyOf, a[1..], b) == Some(rest) && MergedFrom(keyOf, rest, a[1..], b)
    ensures MergeLines(keyOf, a, b) == Some([a[0]] + rest) && MergedFrom(keyOf, [a[0]] + rest, a, b)
  {
    var ka, kb := keyOf(a[0]).value, keyOf(b[0]).value;
    LessIrreflexive(ka);
    assert forall k :: k in KeySet(keyOf, b) ==> Less(ka, k) by {
      HeadBelow(keyOf, b);
      forall k | k in KeySet(keyOf, b) ensures Less(ka, k) {
        if k != kb {
          LessTransitive(ka, kb, k);
        }
      }
    }
    assert MergedKeys(keyOf, [a[0]] + rest, a, b) by {
      HeadBelow(keyOf, a);
      ConsMergedKeys(keyOf, a[0], rest, a, b, a[1..], b);
    }
    assert MergedMembers(keyOf, [a[0]] + rest, a, b) by {
      HeadBelow(keyOf, a);
      ConsKeys(keyOf, a[0], rest);
    }
  }

  lemma MergeRightStep(keyOf: string -> Option<Key>, a: seq<string>, b: seq<string>, rest: seq<string>)
    requires KeyOrdered(keyOf, a) && KeyOrdered(keyOf, b) && a != [] && b != []
    requires keyOf(a[0]).Some? && keyOf(b[0]).Some? && Less(keyOf(b[0]).value, keyOf(a[0]).value)
    requires MergeLines(keyOf, a, b[1..]) == Some(rest) && MergedFrom(keyOf, rest, a, b[1..])
    ensures MergeLines(keyOf, a, b) == Some([b[0]] + rest) && MergedFrom(keyOf, [b[0]] + rest, a, b)
  {
    var ka, kb := keyOf(a[0]).value, keyOf(b[0]).value;
    LessIrreflexive(kb);
    LessAsymmetric(kb, ka);
    assert forall k :: k in KeySet(keyOf, a) ==> Less(kb, k) by {
      HeadBelow(keyOf, a);
      forall k | k in KeySet(keyOf, a) ensures Less(kb, k) {
        if k != ka {
          LessTransitive(kb, ka, k);
        }
      }
    }
    MergeRightKeys(keyOf, a, b, rest);
    MergeRightMembers(keyOf, a, b, rest);
  }

  lemma MergeRightKeys(keyOf: string -> Option<Key>, a: seq<string>, b: seq<string>, rest: seq<string>)
    requires KeyOrdered(keyOf, b) && b != [] && keyOf(b[0]).Some?
    requires forall k :: k in KeySet(keyOf, a) ==> Less(keyOf(b[0]).value, k)
    requires MergedKeys(keyOf, rest, a, b[1..])
    ensures MergedKeys(keyOf, [b[0]] + rest, a, b)
  {
    HeadBelow(keyOf, b);
    ConsMergedKeys(keyOf, b[0], rest, a, b, a, b[1..]);
  }

  lemma MergeRightMembers(keyOf: string -> Option<Key>, a: seq<string>, b: seq<string>, rest: seq<string>)
    requires KeyOrdered(keyOf, b) && b != [] && keyOf(b[0]).Some?
    requires forall k :: k in KeySet(keyOf, a) ==> Less(keyOf(b[0]).value, k)
    requires MergedMembers(keyOf, rest, a, b[1..])
    ensures MergedMembers(keyOf, [b[0]] + rest, a, b)
  {
    HeadBelow(keyOf, b);
    ConsKeys(keyOf, b[0], rest);
    var kb := keyOf(b[0]).value;
    LessIrreflexive(kb);
    forall l | l in a && keyOf(l).Some? ensures keyOf(l).value != kb {
      assert keyOf(l).value in KeySet(keyOf, a);
    }
  }

  /**
   * One round of `merge`'s loop as the source writes it: both current lines
   * are decoded, an exhausted input reading as `''` (key `b''`), and the
   * tests against the string `''` are never true of a `bytes` key. The line
   * written and which inputs advance; None where decoding raises.
   */
  function MergeStepAsWritten(lineA: string, lineB: string): Option<(string, bool, bool)> {
    match (LineKey(lineA), LineKey(lineB))
    case (Some(ka), Some(kb)) =>
      if kb == ka then Some((lineB, true, true))
      else if Less(ka, kb) then Some((lineA, true, false))
      else Some((lineB, false, true))
    case _ => None
  }

  /**
   * Once one input is exhausted while the other still has a line with a
   * non-empty key, a round writes the empty line and advances only the
   * exhausted input, which reads `''` again: the loop repeats forever.
   */
  lemma MergeStallsAsWritten(json: Json, k: Key, v: Value)
    requires Lawful(json) && |k| > 0
    ensures MergeStepAsWritten("", ToLogEntry(json, k, v)) == Some(("", true, false))
    ensures MergeStepAsWritten(ToLogEntry(json, k, v), "") == Some(("", false, true))
  {
    ParseLogEntry(json, k, v);
    assert Strip("") == "";
    assert LineKey("") == Some([]);
  }

  /** Whether the record at position `i` of a segment gets an index entry: the s-th, 2s-th, ... */
  predicate Sampled(i: nat, s: int) {
    s >= 1 && (i + 1) % s == 0
  }

  /**
   * The sparse-index entries for a segment with these lines and keys: the
   * key and starting offset of every sampled line, in order.
   */
  function Samples(keys: seq<Key>, lines: seq<string>, s: int): seq<(Key, nat)>
    requires |keys| == |lines|
    decreases |keys|
  {
    if keys == [] then []
    else
      var i := |keys| - 1;
      Samples(keys[..i], lines[..i], s) + (if Sampled(i, s) then [(keys[i], TotalLength(lines[..i]))] else [])
  }

  /** `d * s` is at least `s` when `d >= 1`. */
  lemma {:induction false} MulAtLeast(d: int, s: nat)
    requires d >= 1
    ensures d * s >= s
    decreases d
  {
    if d > 1 {
      MulAtLeast(d - 1, s);
      assert d * s == (d - 1) * s + s;
    }
  }

  /** Quotient and remainder are the only ones: `n == q * s + r` with `0 <= r < s` fixes both. */
  lemma DivModUnique(n: int, s: int, q: int, r: int)
    requires s >= 1 && 0 <= r < s && n == q * s + r
    ensures n / s == q && n % s == r
  {
    var q2, r2 := n / s, n % s;
    assert n == q2 * s + r2 && 0 <= r2 < s;
    if q2 > q {
      MulAtLeast(q2 - q, s);
    } else if q > q2 {
      MulAtLeast(q - q2, s);
    }
  }

  /** One more record: the quotient by `s` goes up exactly when the new count is a multiple of `s`. */
  lemma DivStep(n: nat, s: int)
    requires s >= 1 && n >= 1
    ensures n % s == 0 ==> n / s == (n - 1) / s + 1 && (n / s) * s == n
    ensures n % s != 0 ==> n / s == (n - 1) / s
  {
    var q, r := (n - 1) / s, (n - 1) % s;
    assert n - 1 == q * s + r && 0 <= r < s;
    if r == s - 1 {
      assert n == (q + 1) * s + 0;
      DivModUnique(n, s, q + 1, 0);
    } else {
      DivModUnique(n, s, q, r + 1);
    }
  }

  /**
   * Exactly the records at positions s-1, 2s-1, ... are sampled, so a
   * segment of n records gets n / s entries (none when s < 1); entry t holds
   * that record's key and the offset where its line starts.
   */
  lemma {:induction false} SamplesAre(keys: seq<Key>, lines: seq<string>, s: int)
    requires |keys| == |lines|
    ensures |Samples(keys, lines, s)| == if s >= 1 then |keys| / s else 0
    ensures forall t :: 0 <= t < |Samples(keys, lines, s)| ==>
      s >= 1 && 0 <= (t + 1) * s - 1 < |keys| &&
      Samples(keys, lines, s)[t] == (keys[(t + 1) * s - 1], TotalLength(lines[..(t + 1) * s - 1]))
    decreases |keys|
  {
    if keys != [] {
      var n := |keys|;
      var i := n - 1;
      SamplesAre(keys[..i], lines[..i], s);
      var prev := Samples(keys[..i], lines[..i], s);
      if s >= 1 {
        DivStep(n, s);
      }
      var all := Samples(keys, lines, s);
      assert all == prev + (if Sampled(i, s) then [(keys[i], TotalLength(lines[..i]))] else []);
      forall t | 0 <= t < |all|
        ensures s >= 1 && 0 <= (t + 1) * s - 1 < |keys| &&
          all[t] == (keys[(t + 1) * s - 1], TotalLength(lines[..(t + 1) * s - 1]))
      {
        if t < |prev| {
          var j := (t + 1) * s - 1;
          assert all[t] == prev[t];
          assert keys[..i][j] == keys[j] && lines[..i][..j] == lines[..j];
        } else {
          assert Sampled(i, s) && t == |prev| == i / s;
          assert (t + 1) * s == n;
        }
      }
    }
  }
}
