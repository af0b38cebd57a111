# LSM-tree key-value store, modelled in Dafny

This project models the storage engine of a small distributed key-value
database: an LSM tree (`LSMTree`) that keeps recent writes in a red-black
tree memtable, backs them with a write-ahead log, flushes the memtable in
key order to numbered segment files, keeps a sparse index (a second
red-black tree) of every `sparcity`-th flushed key with its byte offset, and
lets reads skip the segments through a counting bloom filter.

The model has three layers:

- **Red-black tree** (`RedBlackTrees.RedBlackTree`, over an arena of node
  records in `RbArena`). The nodes live in a sequence addressed by index,
  with `NIL` standing for the shared `NIL_LEAF` sentinel. A ghost tree value
  (`RbShape.Tree`) is what the arena spells out. Every operation is proved
  against `Contents()`, the tree's entries in key order, and keeps the
  red-black invariants.
- **Counting bloom filter** (`CountingBloom.CountingBloomFilter`). It is an
  `array` of `uint8` counters that wrap at 256. The hash function, the
  array size and the number of hash functions are parameters.
- **Engine** (`LsmTrees.LSMTree`). It is a class whose fields are the
  engine's attributes, plus the segments directory (`files`: a name to its
  lines) and the write-ahead log (`wal`: its lines). Its state as a value is
  `LsmStore.Store`. The write path is specified as functions on that value
  (`LsmStore.SetStore`), and `db_set`'s guarantees are lemmas about them.
  Segment search, merge, the index rebuild and restore are specified by
  functions in `Segments`, `LsmRules` and `LsmMaintenance`. `LsmReads`
  states `db_get` as a function of the state and proves what it reads back
  after a run of writes.

Python's `bytes` ordering (`ByteKeys.Less`), `bytes.hex`/`bytes.fromhex`
(`Hex`) and `str.strip`, `split`, `int` and `str` (`Text`) are modelled
explicitly. Every place where Python raises (a missing file, a line that
does not parse, `ZeroDivisionError`, a malformed segment name) is an
explicit error result: `Outcome.Raises`, `None` or a `false` flag.

Properties proved include:

- When every log write succeeds, the log rebuilds the memtable after every
  `db_set` (`LsmStore.SetDurable`).
- A write reads back (`LsmStore.SetReadsBack`) and leaves other keys alone
  (`LsmStore.SetKeepsOthers`).
- A flush puts every memtable entry where `search_segment` finds it
  (`LsmStore.SetFlushes`).
- The binary search on a sorted segment is exact
  (`Segments.BinarySearchSorted`).
- Searching all segments returns the newest value (`LsmRules.SearchAllNewest`).
- A seek to any sampled offset finds the key (`LsmRules.ScanFromSample`).
- Merge output is ordered, with the newer segment winning ties
  (`Segments.MergeOrdered`, `LsmMaintenance.MergeSegments`).
- Rebuilding the index from flushed segments gives back the index the
  flushes built (`LsmMaintenance.ReindexFlushed`).
- The bloom filter has no false negatives while no counter wraps
  (`CountingBloom.NoFalseNegatives`).
- After `db_set` of distinct keys on a new engine, where every call returns
  and no bloom counter wraps, `db_get` gives each key's value and gives
  None for any other key, however many flushes happened in between
  (`LsmReads.GetAfterSets`). `db_get` is `LsmReads.Get` of the engine's
  state (`LsmTrees.LSMTree.DbGet`).

Observations the model makes explicit:

- `add` on a key already present replaces only the value. An index entry
  for a key flushed again later therefore keeps its first offset and
  segment (`LsmRules.LookupIndexed`).
- Both bloom-filter setters build a new, empty filter. Every key added
  before is forgotten, so reads of flushed keys may answer "absent" until
  they are flushed again. They need not: keys flushed after the reset can
  raise the same counters, and the filter then lets the read through
  (`LsmTrees.LSMTree.SetBloomFilterNumItems`).
- `restore_memtable` counts a replayed line's full length toward the
  memtable size. `db_set` counts only the key's bytes plus the serialized
  value.
- `merge` rewrites the files only. The segment list, the index and the
  bloom filter are left as they were.
- `merge(a, a)` deletes segment `a` (`LsmMaintenance.MergeSelfLoses`).
- A read that reaches the index scans only the segment its floor entry
  names. When that segment holds the key, its value is returned even where
  a newer segment holds a newer one (`LsmRules.ProbeFlushed`).

## Model

| member | source | states |
|---|---|---|
| RedBlackTrees.RedBlackTree.constructor | libs/red_black_tree.py:82-89 | a new tree is valid and empty, with count and byte total zero |
| RedBlackTrees.RedBlackTree.FindNode | libs/red_black_tree.py:419-439 | NIL exactly when the key is absent; otherwise a node holding that key, whose payload is the key's entry |
| RedBlackTrees.RedBlackTree.Contains | libs/red_black_tree.py:243-244 | true exactly when the key is stored |
| RedBlackTrees.RedBlackTree.Floor | libs/red_black_tree.py:271-294 | the result is the greatest stored key not above the argument, or None when there is none |
| RedBlackTrees.RedBlackTree.Ceil | libs/red_black_tree.py:246-269 | the result is the least stored key not below the argument, or None when there is none |
| RedBlackTrees.RedBlackTree.FindParent | libs/red_black_tree.py:390-417 | the node holding the key (no direction), or the node whose empty child slot on the returned side is where the key belongs in order |
| RedBlackTrees.RedBlackTree.Add | libs/red_black_tree.py:96-133 | the tree stays a valid red-black tree; the contents are the old ones with the key inserted in order; a present key keeps its offset and segment and only its value changes; count grows by one exactly for a new key; the first key becomes a black root |
| RedBlackTrees.RedBlackTree.Attach | libs/red_black_tree.py:115-129 | hanging a red node in the empty slot inserts its entry and adds one node |
| RedBlackTrees.RedBlackTree.TryRebalance | libs/red_black_tree.py:302-334 | from a tree whose only fault is a red node under a red parent, restores the red-black invariants without changing the entries |
| RedBlackTrees.RedBlackTree.Restructure | libs/red_black_tree.py:315-332 | the LL, RR, LR and RL rotations keep the entries in order |
| RedBlackTrees.RedBlackTree.Recolor | libs/red_black_tree.py:383-388 | pushing the grandfather's blackness down and rebalancing from it restores the invariants and keeps the entries |
| RedBlackTrees.RedBlackTree.UpdateParent | libs/red_black_tree.py:336-344 | the node points up to its new parent; that parent points down to it on the side the old child's key picks, or the node becomes the root |
| RedBlackTrees.RedBlackTree.RightRotation | libs/red_black_tree.py:346-361 | the records after the rotation are `RightRotated`'s; the tree spelled out is the rotated subtree in place, with the same entries in order |
| RedBlackTrees.RedBlackTree.LeftRotation | libs/red_black_tree.py:363-381 | the mirror image of the right rotation: same entries, rotated shape |
| RedBlackTrees.RedBlackTree.GetSibling | libs/red_black_tree.py:451-459 | the other child of the node's parent, and the direction of the rotation towards it |
| RedBlackTrees.RedBlackTree.RemoveLeaf | libs/red_black_tree.py:296-300 | cutting a childless node removes exactly its entry and its id |
| RedBlackTrees.RedBlackTree.RotateRedSibling | libs/red_black_tree.py:145-155 | removal case 2: the rotation at a red sibling keeps the entries and leaves a black sibling with the same deficit |
| RedBlackTrees.RedBlackTree.PaintSiblingRed | libs/red_black_tree.py:157-164 | removal case 3: painting the sibling red moves the black-height deficit one level up |
| RedBlackTrees.RedBlackTree.SwapColours | libs/red_black_tree.py:166-173 | removal case 4: swapping the red parent's and black sibling's colours keeps the entries |
| RedBlackTrees.RedBlackTree.RotateNearNephew | libs/red_black_tree.py:175-185 | removal case 5: the rotation at the sibling keeps the entries |
| RedBlackTrees.RedBlackTree.RotateFarNephew | libs/red_black_tree.py:187-199 | removal case 6: the rotation at the parent keeps the entries |
| RedBlackTrees.RedBlackTree.FixUp | libs/red_black_tree.py:137-203 | running the removal cases from a black leaf and then cutting it gives a valid red-black tree whose entries are the old ones without that key |
| RedBlackTrees.RedBlackTree.Unlink | libs/red_black_tree.py:213-239 | removing a node with at most one child keeps a valid red-black tree and deletes exactly its key |
| RedBlackTrees.RedBlackTree.FindInOrderSuccessor | libs/red_black_tree.py:441-449 | a node with no left child whose key is above the given node's and is the least key of the tree above it; its entry comes right after the given node's in order |
| RedBlackTrees.RedBlackTree.Remove | libs/red_black_tree.py:135-241 | the tree stays valid; the contents are the old ones with the key deleted; count drops by one exactly when the key was there; an absent key changes nothing |
| RedBlackTrees.RedBlackTree.RemoveTwoChildren | libs/red_black_tree.py:208-211 | a node with two children is removed by copying its successor into it and unlinking the successor: exactly its key goes |
| RedBlackTrees.RedBlackTree.InOrderTraversal | libs/red_black_tree.py:461-465 | one node per entry, in the order of the entries, with strictly increasing keys |
| RedBlackTrees.RedBlackTree.NodeInOrder | libs/red_black_tree.py:71-76 | appends the subtree's node ids in order to the traversal so far |
| RedBlackTrees.RedBlackTree.Keys | libs/red_black_tree.py:91-94 | the stored keys in strictly increasing order, as many as `count` |
| RedBlackTrees.RedBlackTree.NodeKeys | libs/red_black_tree.py:42-49 | the keys of a subtree in order |
| RbArena.RightRotationLosesSubtree | libs/red_black_tree.py:346-349 | on the arena built by adding 50, 30, 70, 20, 10, the as-written right rotation leaves no pointer to 70, where the intended one keeps it |
| CountingBloom.CountingBloomFilter.constructor | libs/bloom_filter.py:10-15 | a filter of the given size and hash count, every counter zero, nothing added |
| CountingBloom.CountingBloomFilter.Add | libs/bloom_filter.py:17-24 | the counters become `Added(old counters, item)`, and the item joins the added items |
| CountingBloom.CountingBloomFilter.Increment | libs/bloom_filter.py:19-24 | one wrapping `uint8` increment at each seed's digest, seed 0 to k-1 |
| CountingBloom.CountingBloomFilter.Check | libs/bloom_filter.py:26-32 | true exactly when no selected counter is zero; true for every added item while no counter has wrapped |
| CountingBloom.AddedCounts | libs/bloom_filter.py:17-24 | `add` raises each counter by the number of seeds selecting it, modulo 256 |
| CountingBloom.AddThenCheck | libs/bloom_filter.py:17-32 | after `add(x)` without wrap-around, `check(x)` is true |
| CountingBloom.AddKeepsMembers | libs/bloom_filter.py:17-32 | a further `add` without wrap-around never turns a true `check` false |
| CountingBloom.NoFalseNegatives | libs/bloom_filter.py:17-32 | after any run of adds without wrap-around, `check` is true for every added item |
| CountingBloom.FreshFilterRejects | libs/bloom_filter.py:15 | an all-zero filter with at least one hash function rejects every item |
| CountingBloom.Inc | libs/bloom_filter.py:24 | a NumPy `uint8` increment: plus one modulo 256 |
| Hex.FromHexToHex | libs/lsm_tree.py:184 | `bytes.fromhex(bs.hex()) == bs` |
| Hex.ToHexInjective | libs/lsm_tree.py:188 | different keys are written as different hex texts |
| Text.ParseShowInt | libs/lsm_tree.py:191-194 | `int(str(n)) == n` for every integer |
| LogLines.ToLogEntry | libs/lsm_tree.py:187-188 | a log line is two characters per key byte, the serialized value and three more characters |
| LogLines.ParseLogEntry | libs/lsm_tree.py:156-159 | reading a log line back gives the key and value it was written from; merge's key-only reading gives the key |
| LogLines.LogEntryIsOneLine | libs/lsm_tree.py:187-188 | a log line holds exactly one newline, its last character |
| LogLines.StripLogEntry | libs/lsm_tree.py:156 | stripping a log line removes just its trailing newline |
| LsmRules.FloorDiv | libs/lsm_tree.py:228 | Python's `//`: the quotient rounded towards minus infinity, for either sign of divisor |
| LsmRules.IncrementedSegmentName | libs/lsm_tree.py:190-194 | a result exists only for a name with exactly one dash |
| LsmRules.IncrementedSegmentNameNext | libs/lsm_tree.py:190-194 | `name-<n>` becomes `name-<n+1>`, again of the same form, so segments can rotate any number of times |
| LsmRules.SearchFlushed | libs/lsm_tree.py:106-123 | `search_segment` on a segment flushed from sorted entries returns exactly the stored value of the key, or None |
| LsmRules.FlushedRecords | libs/lsm_tree.py:163-180 | every line of a flushed segment reads back as the entry it was written from |
| LsmRules.FlushedKeyOrdered | libs/lsm_tree.py:163-180 | a flushed segment's keys, as merge reads them, are the memtable's, strictly increasing |
| LsmRules.ScanFlushedFrom | libs/lsm_tree.py:78-86 | seeking a flushed segment to the start of line j and scanning finds the keys of the entries from j on |
| LsmRules.ScanFromSample | libs/lsm_tree.py:73-86 | seeking to any sampled offset whose key is at or below the key finds exactly the key's stored value, or None |
| LsmRules.LookupIndexed | libs/lsm_tree.py:172-175 | after a flush's index adds, an unsampled key keeps its entry, a new sampled key points at its first sample's offset in this segment, and a key already indexed keeps its old offset and segment |
| LsmRules.IndexedSorted | libs/lsm_tree.py:172-175 | the index stays sorted |
| LsmRules.FlushStateStep | libs/lsm_tree.py:169-180 | one record of the flush loop: the index add at the countdown's 1, the bloom add, the line written, the offset moved on, the countdown reset and decremented |
| LsmRules.CountdownStep | libs/lsm_tree.py:164-180 | the sparsity countdown reaches 1 exactly at records s-1, 2s-1, ... |
| LsmRules.ReplayLogEntry | libs/lsm_tree.py:152-161 | replaying a logged write applies it after the earlier ones |
| LsmRules.ReplayLastWins | libs/lsm_tree.py:152-161 | on readable lines the last line for a key decides its value, and untouched keys keep theirs |
| LsmRules.ReadablePrefixAt | libs/lsm_tree.py:155-159 | the replay stops exactly at the first line that does not read |
| LsmRules.SearchAllNewest | libs/lsm_tree.py:98-104 | on flushed segments, `search_all_segments` returns the value in the newest segment holding the key, or None |
| LsmRules.SearchAllFinds | libs/lsm_tree.py:98-104 | when each segment's search returns its contents' value, the search of all returns the newest |
| LsmRules.FloorKeyIsFloor | libs/red_black_tree.py:271-294 | on a sorted index the floor is unique, and `FloorKey` computes it |
| LsmRules.ProbeFlushed | libs/lsm_tree.py:73-87 | a read through an index entry that a flush sampled, for a key at or above the sampled key, returns the key's value in that segment when it has one (even where a newer segment has another) and otherwise the newest value over all flushed segments |
| LsmRules.ProbeBelowIndexAsWritten | libs/lsm_tree.py:73-74 | for a key below every index key, the read as written raises, while the intended read searches all segments |
| LsmStore.SetStore | libs/lsm_tree.py:42-65 | `db_set` raises exactly when it must flush and the sparsity is undefined (nothing changes) or the segment name does not increment (the flush has happened) |
| LsmStore.SetOverwrites | libs/lsm_tree.py:42-48 | a write of a key the memtable holds returns, appends one log line, keeps the byte count, replaces only that key's value (keeping its offset and segment) and leaves the segments, files, index and bloom filter alone |
| LsmStore.SetAppends | libs/lsm_tree.py:42-65 | a write of a new key under the threshold returns, appends one log line, counts the key's length plus its value's JSON length, and binds the key to a fresh entry with the value |
| LsmStore.SetRotates | libs/lsm_tree.py:50-65 | a write that flushes and moves to the incremented segment name returns with a memtable holding only the new key, a log of only its line, a byte count of only its size, and the old current segment appended to the list |
| LsmStore.LoggedDurable | libs/lsm_tree.py:62-65 | a logged write keeps the log rebuilding the memtable |
| LsmStore.SetDurable | libs/lsm_tree.py:42-65 | after any `db_set`, with every log write landing, replaying the log rebuilds the memtable, whether it flushed, and even when it raised |
| LsmStore.SetReadsBack | libs/lsm_tree.py:42-65 | after a `db_set` that returns, the memtable holds the key with the value written |
| LsmStore.SetKeepsOthers | libs/lsm_tree.py:42-48 | a write that does not flush leaves every other key's value and the segments, index and bloom filter as they were |
| LsmStore.SetFlushes | libs/lsm_tree.py:50-61 | a flushing write appends the current segment to the list, puts the memtable there so that `search_segment` finds each key's value, and adds every key to the bloom filter |
| LsmTrees.LSMTree.constructor | libs/lsm_tree.py:19-40 | empty segment list and index, a fresh bloom filter with 1000000 items and probability 0.2, the log and directory as given, and the memtable rebuilt by replaying the log with its bytes counted; when every log line reads, the log rebuilds the memtable |
| LsmTrees.LSMTree.DbSet | libs/lsm_tree.py:42-65 | the state after the call and whether it returned are `SetStore`'s; the memtable object is kept unless the write flushes |
| LsmTrees.LSMTree.AppendWrite | libs/lsm_tree.py:62-65 | log line appended, key added with the value, byte count raised |
| LsmTrees.LSMTree.Rotate | libs/lsm_tree.py:51-60 | the flush branch: nothing changes when the sparsity is undefined; otherwise flush, then an empty memtable and log and the next segment |
| LsmTrees.LSMTree.StartSegment | libs/lsm_tree.py:54-60 | empty memtable and log, the segment appended to the list, the incremented name current |
| LsmTrees.LSMTree.ResetMemtable | libs/lsm_tree.py:54-55 | a fresh empty memtable and an empty log |
| LsmTrees.LSMTree.AdvanceSegment | libs/lsm_tree.py:57-59 | the current segment joins the list; the name is incremented, or it raises |
| LsmTrees.LSMTree.FlushMemtableToDisk | libs/lsm_tree.py:163-180 | the current segment file holds the memtable's lines in key order, every s-th key enters the index at its offset, every key the bloom filter; nothing changes when the sparsity is undefined |
| LsmTrees.LSMTree.WriteSegment | libs/lsm_tree.py:168-180 | the lines written, the index after the samples, and the bloom filter's keys |
| LsmTrees.LSMTree.FlushNode | libs/lsm_tree.py:169-180 | one iteration of the flush loop keeps the flush state |
| LsmTrees.LSMTree.FlushRecord | libs/lsm_tree.py:172-177 | the index add at the offset for a sampled key, and the bloom add |
| LsmTrees.LSMTree.MemtableInOrder | libs/lsm_tree.py:169 | the memtable's nodes in key order |
| LsmTrees.LSMTree.RestoreMemtable | libs/lsm_tree.py:152-161 | the memtable is the log replayed onto it, up to the first line that does not read; the byte count grows by those lines' lengths; on an empty memtable a full replay makes the log rebuild it |
| LsmTrees.LSMTree.ReplayLine | libs/lsm_tree.py:156-161 | a line that reads adds its record and its length; one that does not read changes nothing and raises |
| LsmTrees.LSMTree.SearchSegment | libs/lsm_tree.py:106-123 | raises for a missing file; otherwise the binary search of its stripped lines |
| LsmTrees.LSMTree.SearchAllSegments | libs/lsm_tree.py:98-104 | the search of every segment, newest first |
| LsmTrees.LSMTree.ScanLines | libs/lsm_tree.py:80-86 | the scan of the lines after the seek |
| LsmTrees.LSMTree.DbGet | libs/lsm_tree.py:67-87 | a memtable hit returns its value; a bloom miss returns None; otherwise the probe through the index entry at the key's floor; the answer is `LsmReads.Get` of the engine's state, so `GetAfterSets` speaks for it |
| LsmReads.IncrementedNumber | libs/lsm_tree.py:190-194 | a name that increments carries a number, and the incremented name's number, where it reads one, is one more |
| LsmReads.NumberedStep | libs/lsm_tree.py:58-59 | moving to the incremented name keeps the segment names in increasing number order, below the current one |
| LsmReads.NumberedFresh | libs/lsm_tree.py:50-59 | a numbered current name is not among the segments, so a flush never overwrites an earlier segment's file |
| LsmReads.ConsistentNewest | libs/lsm_tree.py:81-87 | on a state consistent with the writes, every segment holding a key holds its last written value, and the newest of them is that value or None for a key never written |
| LsmReads.ConsistentProbe | libs/lsm_tree.py:73-87 | on a consistent state, the read through the index floor of a key not in the memtable gives its last written value, or None for a key never written |
| LsmReads.GetConsistent | libs/lsm_tree.py:67-87 | on a consistent state without a wrapped bloom counter, `db_get` gives each key's last written value and None for a key never written |
| LsmReads.FlushConsistent | libs/lsm_tree.py:50-61 | a flush keeps the state consistent with the writes: the memtable becomes the newest segment, its samples index entries of that segment, its keys join the bloom filter |
| LsmReads.LoggedConsistent | libs/lsm_tree.py:62-65 | logging a new key keeps the state consistent, with the key bound to its value in the memtable |
| LsmReads.SetConsistent | libs/lsm_tree.py:42-65 | a `db_set` of a new key that returns keeps the state consistent with the writes, whether or not it flushed |
| LsmReads.RunConsistent | libs/lsm_tree.py:42-65 | a run of `db_set` of distinct keys on a new engine that returns leaves the state consistent with the writes |
| LsmReads.WrittenAt | libs/lsm_tree.py:42-65 | with no key written twice, each write's value is its key's last value |
| LsmReads.GetAfterSets | libs/lsm_tree.py:42-87 | after `db_set` of distinct keys on a new engine, all returning and no bloom counter wrapping, `db_get` gives each key its value and any other key None |
| LsmTrees.LSMTree.ProbeIndex | libs/lsm_tree.py:73-87 | the read through the floor entry of the index, or the search of all segments |
| LsmTrees.LSMTree.ProbeEntry | libs/lsm_tree.py:76-87 | the scan of the entry's segment from its offset, then the search of all segments |
| LsmTrees.LSMTree.SetThreshold | libs/lsm_tree.py:89-90 | the threshold is the argument |
| LsmTrees.LSMTree.SetSparsityFactor | libs/lsm_tree.py:92-93 | the sparsity factor is the argument |
| LsmTrees.LSMTree.Merge | libs/lsm_tree.py:196-222 | the files and outcome are `Merged`'s: a merged `a`, `b` and the scratch file gone, `a` returned; raises on a missing file or an unreadable line |
| LsmTrees.LSMTree.MergeLoop | libs/lsm_tree.py:201-216 | the scratch file holds the merge of the two segments exactly when every line has a hex key |
| LsmTrees.LSMTree.RepopulateIndex | libs/lsm_tree.py:230-246 | a new index holding the samples of every segment in turn; it returns exactly when every segment's file is there and reads |
| LsmTrees.LSMTree.ReindexSegment | libs/lsm_tree.py:232-246 | one segment's samples added, with no value and the offset its line starts at; false where the file is missing or a line does not read |
| LsmTrees.LSMTree.SetBloomFilterNumItems | libs/lsm_tree.py:248-250 | the item count is stored and a new empty filter replaces the old one, rejecting every key |
| LsmTrees.LSMTree.SetBloomFilterFalsePosProb | libs/lsm_tree.py:252-254 | the probability is stored and a new empty filter replaces the old one, rejecting every key |
| LsmTrees.LSMTree.EmptyFilterRejects | libs/lsm_tree.py:71-72 | an all-zero filter with at least one hash function rejects every key, so every read that misses the memtable answers None |
| Segments.BinarySearchSorted | libs/lsm_tree.py:106-123 | on readable lines with strictly increasing keys, the binary search finds a key exactly when a line holds it, with that line's value |
| Segments.ScanFinds | libs/lsm_tree.py:80-86 | on readable lines the scan returns the first record's value for the key |
| Segments.SeekToLine | libs/lsm_tree.py:79 | seeking to the length of the first j lines lands at line j |
| Segments.MergeOrdered | libs/lsm_tree.py:204-216 | merging two key-ordered segments succeeds, is key-ordered, has the keys of both, all of B's lines, and A's lines only for keys B lacks |
| Segments.MergeStallsAsWritten | libs/lsm_tree.py:205-216 | as written, once one side is exhausted a round writes an empty line and advances only the exhausted side, so the loop never ends |
| Segments.SamplesAre | libs/lsm_tree.py:164-180 | exactly the records at positions s-1, 2s-1, ... are sampled, n / s of them, each with its key and the offset its line starts at |
| LsmMaintenance.MergeSegments | libs/lsm_tree.py:196-222 | merging two distinct key-ordered segments returns `a`, which now holds their merge; `b` and the scratch file are gone; every other file is kept |
| LsmMaintenance.MergedFiles | libs/lsm_tree.py:218-222 | a merge that reads to the end renames its output to `a` and removes `b` and the scratch file |
| LsmMaintenance.MergeSelf | libs/lsm_tree.py:204-216 | a readable segment merged with itself is itself |
| LsmMaintenance.MergeSelfLoses | libs/lsm_tree.py:218-220 | `merge(a, a)` raises at the second removal, and `a`'s lines survive only in the scratch file |
| LsmMaintenance.ReindexedOk | libs/lsm_tree.py:232-246 | the rebuild returns exactly when every segment's file exists and every line of it reads |
| LsmMaintenance.ReindexedSorted | libs/lsm_tree.py:230-246 | the rebuilt index is sorted |
| LsmMaintenance.SegmentSamplesFlushed | libs/lsm_tree.py:236-246 | reading back a flushed segment takes the same samples, at the same offsets, as the flush did |
| LsmMaintenance.ReindexFlushed | libs/lsm_tree.py:230-246 | on segments written by flushes, the rebuild gives back the index those flushes built, and returns |
| LsmMaintenance.ReindexStateStep | libs/lsm_tree.py:237-246 | one line of the rebuild keeps its loop state: countdown, byte count, samples |
| LsmMaintenance.AddedAsWrittenNoOffsets | libs/lsm_tree.py:243 | as written, every entry the rebuild adds has no usable offset |
| LsmMaintenance.ProbeAsWrittenRaises | libs/lsm_tree.py:74-79 | after the as-written rebuild, every read that finds a floor entry raises at the seek |

## Left out

- I/O is modelled as data: the segments directory is a map from file name
  to lines, and the write-ahead log is a sequence of lines. Paths
  (`current_segment_path`, `segment_path`, `memtable_wal_path`,
  `past_state_path`), directory creation and `get_file_size` are not
  modelled.
- The `AppendLog` singleton (`libs/append_log.py`) is not part of this
  model. The log is the `wal` field.
- `load_past_state` and `save_state` pickle the engine's attributes. The
  model starts from a directory without saved state and does not model the
  pickle round trip.
- The JSON library is an abstract codec: a `dumps`/`loads` pair with the
  laws the log format needs (`LogLines.Lawful`). It is not a JSON
  implementation.
- `mmh3.hash` is a parameter of the filter.
- The filter's size and number of hash functions come from floating-point
  logarithms in the source. Here they are parameters of the constructor and
  of the two setters.
- A `db_set` on a key already present rewrites `node.value` in place. The
  model does this through `add`, which gives the same contents.
- Concurrency: the engine is used from one thread at a time.
- LsmTrees.LSMTree.Merge: when a line without a hex key makes the merge
  raise partway, the ensures clause says the scratch file exists but not
  which lines it holds.
- LsmTrees.LSMTree.RepopulateIndex: computes `sparcity()` once, before the
  segment loop, where the source computes it again for each segment. The
  result is the same because the loop does not change the threshold or the
  factor.
- LsmMaintenance.MergeSegments: requires that neither segment is named
  `temp`. A segment with that name is overwritten by the scratch file, and
  the model does not state that case.
- RedBlackTrees.RedBlackTree.Remove models the removal the source sets out
  to perform, not the source as written. No engine operation calls
  `remove`. As written, it has these defects:
  - `NIL_LEAF` is built without children, so its `left` is `None`. Line
    230 calls `has_children()` on both children of a black non-root node
    with at most one child. At least one of them is `NIL_LEAF`, so the
    call raises AttributeError for every such node, with or without a red
    child. Lines 232-238, the removal cases among them, are never reached.
  - The successor it takes is the least key of the left subtree (see
    `FindInOrderSuccessor` below).
  - It copies only the successor's key, not its value.
- RedBlackTrees.RedBlackTree.FindInOrderSuccessor returns the leftmost node
  of the right subtree: the node of the least key above the given one. The
  source's `_find_in_order_successor` (libs/red_black_tree.py:441-449)
  walks down the left subtree and returns its least key.
- RedBlackTrees.RedBlackTree.Unlink removes a black node with at most one
  child, a case that always raises in the source (see `Remove` above).
- RedBlackTrees.RedBlackTree.FixUp runs the removal cases, which the source
  never reaches (see `Remove` above).
- RedBlackTrees.RedBlackTree.RotateFarNephew picks the outer nephew by the
  direction. The source compares the direction with the string `'L'`
  (libs/red_black_tree.py:189), which is never equal, so it always picks
  the right child.
- RedBlackTrees.RedBlackTree.RightRotation attaches the rotated node on the
  great-grandfather's side where the grandfather was. The source always
  attaches it on the right (Findings, libs/red_black_tree.py:346-349).
- LsmStore.SetDurable assumes every log write lands. `AppendLog.write`
  (libs/append_log.py:12-17) catches IOError, prints a message and returns,
  so after a failed write the log lacks that line while the memtable holds
  the write.
- RedBlackTrees.RedBlackTree.Add rebalances through `TryRebalance`,
  `Restructure` and `Recolor`, which use the corrected right rotation (see
  `RightRotation` above; Findings, libs/red_black_tree.py:346-349). Its
  contract, and what `DbSet` states about the memtable, hold for that
  correction; the rotation as written can lose a subtree.
- LsmReads.GetAfterSets covers writes of distinct keys only. A key
  rewritten after a flush has its new value in the memtable or a newer
  segment, while the index entry at its floor can name an older segment
  that still holds the old value (see `LsmRules.ProbeFlushed`).
- LsmTrees.LSMTree.DbGet and LsmTrees.LSMTree.ProbeIndex search all
  segments when the index has no key at or below the one read. The source
  raises TypeError there (Findings, libs/lsm_tree.py:73-74).
- LsmTrees.LSMTree.Merge and LsmTrees.LSMTree.MergeLoop copy the rest of
  the other segment once one segment ends. The source never stops in that
  case (Findings, libs/lsm_tree.py:205-216).
- LsmTrees.LSMTree.RepopulateIndex and LsmTrees.LSMTree.ReindexSegment store
  each sampled line's byte offset and no value in the index. The source
  stores the type `bytes` as the offset and the parsed value (Findings,
  libs/lsm_tree.py:243).
- Text.IsSpace and Text.ParseInt: whitespace is ASCII only, and digits are
  ASCII digits without `_` separators. Python's `str.strip()` also removes
  U+001C to U+001F, U+0085, U+00A0 and the other Unicode spaces, and
  `int()` also accepts underscores between digits and non-ASCII decimal
  digits.
- LsmTrees.LSMTree.constructor starts from a directory without saved state.
  A log line that does not read makes the source's constructor raise. The
  model keeps the replayed prefix, and `Replayable(json, wal)` tells the
  two cases apart.
- RedBlackTrees.RedBlackTree.RemoveTwoChildren copies the successor's key
  and payload after unlinking the successor rather than before. The
  resulting contents are the same.
- `Node.__eq__` and `__repr__` are not modelled. Node identity is the arena
  index.
- Writing to the `NIL_LEAF` sentinel's parent field is not modelled. The
  source writes it during rotations; the model never stores the sentinel.

## Findings

| source | as written | input that shows it | evidently intended | confidence | as-written member | corrected member |
|---|---|---|---|---|---|---|
| libs/lsm_tree.py:205-216 | an exhausted file reads as `''`, whose key is `b''`, and the tests `key_a == ''` and `key_b == ''` compare `bytes` with `str`, so they are never true | merge two segments that do not end on the same key: once one of them ends, each round writes `''` and re-reads the ended side | write the remaining lines of the other segment and stop | high, not executed | Segments.MergeStallsAsWritten | Segments.MergeOrdered |
| libs/lsm_tree.py:73-74 | `find_node(floor(key))` looks up `None` when the index has no key at or below `key`, and comparing `None` with a `bytes` key raises TypeError | sparsity 2 and one flushed segment with keys `a`, `b`, so the index holds only `b`; then `db_get(a)` with an empty memtable and a bloom hit | with no floor entry, search all segments | high, not executed | LsmRules.ProbeBelowIndexAsWritten | LsmTrees.LSMTree.ProbeIndex |
| libs/lsm_tree.py:243 | `index.add(key, value, offset=bytes, ...)` stores the type `bytes` as the offset and the parsed value in the index | after `repopulate_index`, any `db_get` that reaches an index entry calls `seek(bytes)` and raises TypeError | store `offset=n_bytes` and no value | high, not executed | LsmMaintenance.ProbeAsWrittenRaises | LsmMaintenance.ReindexFlushed |
| libs/red_black_tree.py:346-349 | `_right_rotation` passes the great-grandfather as `parent_old_child`, so `__update_parent` always makes the rotated node the great-grandfather's right child | add the one-byte keys 50, 30, 70, 20, 10 to an empty tree: the rotation at 30 hangs 20 in place of 70, and 70 is lost from the memtable | pass the grandfather, as `_left_rotation` does | high, not executed | RbArena.RightRotationLosesSubtree | RedBlackTrees.RedBlackTree.RightRotation |
