# An HTAP storage engine and its query path, modelled and proved in Dafny

The repository holds a small hybrid database: an LSM tree that keeps rows in memory, in row-layout
tables on its upper levels and in column-layout tables further down, and a SELECT executor that turns a
WHERE clause into a key range and a data-skipping filter before it reads anything. Beside the tree stands
`MockStorageEngine`, a plain sorted map with the same interface. The map is what the tree has to agree
with, and that agreement is what this project proves, from the text of a query down to the bytes of a
block and through every flush and compaction that may be under way meanwhile.

`dafny verify dfyconfig.toml` verifies the whole project.

## How it is organised

| layer | modules |
|---|---|
| values and lists | `Seqs`, `Storage`, `Doubles` |
| text to tree | `Lexer`, `Keywords`, `Parser` |
| query | `Expressions`, `Meaning`, `Planner`, `Projection`, `Ordering`, `PlainSelect`, `Aggregates`, `Grouping`, `GroupOrder`, `Answers` |
| one table: writing | `Codec`, `Tables`, `BlockBuilders`, `TableBuilders`, `SparseIndex`, `Pruning` |
| one table: reading | `Decoders`, `TableScan`, `Lru`, `BlockCache`, `MetadataCache`, `TableCursors` |
| many tables | `Merging`, `Cursors`, `Registry`, `Manifest`, `Compaction` |
| the tree | `SortedMaps`, `Memory`, `Engine`, `Conservation`, `Reference`, `Snapshot`, `Drain`, `HiddenRows`, `LsmTree`, `FileSizes` |
| everything together | `EndToEnd`, `Queries` |

Code that changes objects step by step is modelled by classes and loops with the same fields and branches
(`LSMTree`, `MemoryLayer`, the two caches, the cursors, the builders, the registry, the parser and the
lexer). Each of their methods is proved against a function on values, and the theorems are about those
functions. `Meaning`, `Answers` and `Keywords` say what the functions of the query path compute, without
speaking of them: what each operator means on values, which rows, groups and cells an answer shows and in
which order, and how words, signs and numbers are read. Threads appear as a step machine (`Engine`): an
insert, and the two lock-held halves of a flush or a compaction with the unlocked window between them, in
any order the lock allows. 64-bit keys, sizes and ids are bounded types; the level thresholds wrap as
`uint64_t` does. Doubles are their 64-bit patterns, with infinities, signed zeros and NaN, and the
conversion of an `int64_t` to a double is the round-half-to-even of IEEE 754, section 4.3.1.

The path of the main theorem, `EndToEnd.QueryIsMock`:

1. `Planner.PlanPreservesAnswer` and `Planner.AcceptedPassesFilter`: neither the planned range nor the
   skipping filter loses an accepted row.
2. `SparseIndex.SelectionExact`, `Pruning.PruneExact`, the round trips of `Codec`, and from them
   `TableScan.ScanTableCorrect`: reading one table, in either layout and even when keys repeat, shows only
   in-range rows, and those that pass the filter as often as they are there, with the right values in every
   projected column.
3. `TableCursors.MakeSSTableCursor`, over `MetadataCache` and `BlockCache`: the cursors on the cached
   pages and blocks emit what step 2 describes.
4. `Merging` and `Cursors`: the merge of all sources has their rows, once each and in key order.
5. `Engine.Reachable`, `Conservation.StepVersions`, `Reference.RunAgrees`: at any point of any run the tree holds
   the rows of the map and the ones that later inserts left behind, and no others.
6. `Snapshot.ScanShows`, `Snapshot.ScanIsMock` and `EndToEnd.QueryIsMock`: a scan, and the accepted rows on top
   of it, are what the map shows, wherever no row of the range was left behind.
7. `Queries`: what plain, grouped and global SELECT make of these rows, ORDER BY, GROUP BY and LIMIT included, is
   the answer over the map.
8. `Meaning.ConnectivesMean`, `Meaning.ComparisonsMean`, `Answers.AnswerMeans`, `Answers.GroupedAnswerMeans` and
   `Answers.TotalsMean`: what it is for a row to be accepted, and for a list to be the answer.

## Where the code does less than its design

Each of these has a lemma with an input at fault and the exact condition under which the code is right.

- **Overwriting a frozen key.** The merge emits every version of a key. With a threshold of one row, two inserts
  of one key are enough (`Reference.ShadowedRun`). The tree holds exactly the map's rows and those that an insert
  left behind, of a key inserted before that was no longer in the active memtable (`Reference.RunAgrees`). The scan
  of a range agrees with the sorted map if and only if no row of the range was left behind
  (`Snapshot.AgreesUnlessShadowed`), except that a row left behind under the very key that the range starts on
  can stay hidden (`HiddenRows.OlderStaysHidden`).
- **Inverted ranges.** A scan from above to below takes two lower bounds in every memtable. With a row between them
  the first stands behind the second, and the walk misses its end: after one insert such a range exists
  (`Snapshot.InvertedRangeOverruns`). A scan is defined if and only if no memtable has a row between the ends
  (`LsmTree.LSMTree.ScanRange`); no plan of the executor is inverted, and every theorem on scans asks for no more.
- **Duplicate keys at a block boundary.** A range that starts on a key shared by two blocks loses the earlier
  one when the later is indexed (`SparseIndex.DuplicateIsLost`); `SparseIndex.SelectionExact` says exactly which
  blocks are lost. Strictly ascending keys lose none (`SparseIndex.SelectionComplete`).
- **NaN and statistics.** A NaN compares equal to every number, but is invisible in the block statistics: a block
  of one NaN is dropped for `= 5`, which the NaN satisfies (`Pruning.NaNIsLost`). A pruned block holds an accepted
  row if and only if one of the comparisons meets a NaN (`Pruning.PruneExact`).
- **`key > 1.5`.** The expression evaluates on every row, but the planner reads the literal as an integer and
  throws (`Planner.DoubleKeyLiteralThrows`). It throws if and only if there is such a conjunct in front of which
  no NULL test, no `key > INT64_MAX` and no pair of different pinned keys ends the loop
  (`Planner.BadLiteralReached`).
- **`name = 5`.** The binder asks only that WHERE is of type BOOLEAN, which every operator is, so a text may meet a
  number, and evaluation throws (`Expressions.TextAgainstNumber`). Without NULL literals, and with connectives over
  operators, a bound condition never throws if and only if it compares texts with texts, numbers with numbers and
  truth values with truth values; otherwise it throws on every row without NULLs
  (`Expressions.BoundConditionThrows`).
- **`LIMIT 0`.** Without ORDER BY, or ordered by the key first, the early stop pushes a row before it looks at
  the limit (`PlainSelect.LimitZeroOverstepped`); the shortcut is right if and only if it is not `LIMIT 0` over a
  non-empty answer (`PlainSelect.StreamingIsRight`).
- **MIN and MAX over doubles.** They start at the largest and the lowest finite double, so a column of only `+inf`,
  or only `-inf`, yields a number that is not in it (`Aggregates.MinOfInfinity`, `Aggregates.MaxOfMinusInfinity`).
  They are right if and only if some value is below `+inf`, or above `-inf` (`Aggregates.DoubleMinExact`,
  `Aggregates.DoubleMaxExact`; NaN counts as neither).
- **Grouped ORDER BY.** Select items are checked against GROUP BY, ORDER BY items are not, so the order of the
  output can depend on which member of a group was scanned first: a well-typed, validated query over three rows
  has two scan orders without a common answer (`GroupOrder.OrderByFirstMember`). All scan orders allow the same
  orders of the groups if and only if every two groups compare alike whichever of their members come first
  (`GroupOrder.OrderFreeExactly`); items that are grouped by always do (`GroupOrder.GroupedItemsSettle`).
- **A level-0 trigger of 0.** The policy then picks level 0 even when it is empty. With work pending in an idle
  tree, no round can start if and only if nothing is frozen, the trigger is 0 and level 0 is empty
  (`Drain.PendingCanStart`), which is so from the start (`Drain.StuckFromTheStart`): the wait for compaction does
  not end. As long as there is no level at all the lookup throws instead (`LsmTree.LSMTree.BeginCompactOne`).
- **Compaction that never rests.** With `size_ratio` 1 a table above the base size moves up for ever
  (`Drain.FlatNeverSettles`). With a base below 89 bytes, the least that the files of a table take, there are legal
  runs of any length from the empty tree that start with one insert, record the sizes of the files they write, and
  end with work still pending (`FileSizes.FlatRunsOn`). With a ratio of 2^32 the wrapped thresholds from
  level 2 on are 0, whatever the base, with the same effect (`Drain.WrappedNeverSettles`). A lone table keeps
  moving if and only if no threshold on its way is at least its size (`Drain.CascadeSettles`).
- **The manifest** rebuilds the registry if and only if tables sit in the level they name, the top level is
  used, and paths and counts fit the format (`Manifest.ManifestRoundTrip`). Every reachable state meets the
  first two (`Engine.SavedStateReloads`).

## Model

| member | source | states |
|---|---|---|
| EndToEnd.QueryIsMock | src/executor/executor.cpp:717-902 | For every run that left behind no row that the plan covers, and every plannable condition no accepted row of which meets a NaN in the skipping filter, the rows accepted through plan, skipping filter, scan and projection are the rows the condition accepts in the sorted map: as a list for a key-ascending scan, as a multiset for an unordered one; no table read fails |
| EndToEnd.RequestMeans | src/executor/executor.cpp:855-902 | The executor asks storage for exactly the keys that the key tests let through, with exactly the conjuncts that compare a column of numbers with a number as skipping filter; for a point lookup, for that key without a filter |
| Queries.PlainSelectOverTree | src/executor/executor.cpp:590-715 | ORDER BY and LIMIT over the tree, at any point of any run that left behind no row that the plan covers: the values of the select items on the first rows, up to the limit, of the map's accepted rows, in some order in which at the first ORDER BY item where two rows differ the value that belongs in front comes first; except for a `LIMIT 0` that the early stop oversteps |
| Queries.GroupedSelectOverTree | src/executor/executor.cpp:1275-1428 | GROUP BY over the tree: the map's accepted rows, scanned in some order, fall apart into the groups of equal GROUP BY values, and the first of these, up to the limit, are shown with the plain items of a first row and the aggregates of all their rows; where the order of the groups is settled, the answer over those rows themselves, the same but for the sign of zeros, and the very same without doubles |
| Queries.GlobalSelectOverTree | src/executor/executor.cpp:1211-1273 | Aggregates without GROUP BY over the tree: one row with the aggregates of exactly the map's accepted rows, none for LIMIT 0 |
| EndToEnd.WellTypedNeverThrows | src/executor/executor.cpp:1021-1031 | A well-typed condition throws on no row that a scan shows, whatever columns the projection leaves out, as long as the row fits the schema |
| Snapshot.ScanIsMock | src/lsmtree/lsmtree.cpp:161-231 | At every point of every run that left no row of the range behind, with a flush or compaction in flight or not, a key-ascending scan of any range for which a scan is defined shows the rows that the mock cursor shows for that range, and no read fails |
| Snapshot.ScanSelects | src/lsmtree/lsmtree.cpp:161-231 | With a skipping filter, such a scan shows map rows of the range only, among them every one that passes the filter and meets no NaN in it, in key order or, unordered, as the same multiset |
| Snapshot.ScanShows | src/lsmtree/lsmtree.cpp:161-231 | In every state, rows left behind or not, a scan shows rows of its range only, in key order, none more often than the tree holds it, and those that pass the filter as often; except for a key that the range starts on and that is there twice. No read fails |
| Snapshot.FullScanShowsVersions | src/lsmtree/lsmtree.cpp:161-231 | With rows left behind too, a full scan shows every version the tree holds, once each and in key order |
| Snapshot.AgreesUnlessShadowed | src/storage/mock/mock_storage_engine.cpp:63-81 | The scan of a range equals the mock scan if and only if the run left no row of the range behind, unless one was left behind under the key that the range starts on |
| HiddenRows.OlderStaysHidden | src/storage/read/sstable/sparse_block_selector.cpp:47-66 | Why that exception: after two inserts of a key, two flushes and a compaction, a scan from the key on shows what the mock scan shows, though the older row is still there |
| Snapshot.InvertedRangeOverruns | src/lsmtree/lsmtree.cpp:171-191 | After one insert there is an inverted range around the row in memory, where the mock scan shows nothing |
| Reference.ShadowedRun | src/lsmtree/lsmtree.cpp:149-159 | Two inserts of one key with a threshold of one row are a legal run that leaves the older row behind |
| Engine.StepKeeps | src/lsmtree/lsmtree.cpp:322-410 | Every step an insert or the worker can take keeps the invariant: the memtable being flushed is still the front of the queue, the candidates are still exactly the source level and still what the policy picks, ids of registered and in-flight tables are distinct and below the next id, every registered table's files hold rows within its recorded bounds |
| Engine.Reachable | src/lsmtree/lsmtree.cpp:149-159 | The invariant holds after every run of inserts, flush halves and compaction halves from the empty tree |
| Engine.NeverEmpty | src/lsmtree/lsmtree.cpp:326-329 | The branch that drops an empty frozen memtable is never taken |
| Engine.RemoveDropsExactly | src/lsmtree/lsmtree.cpp:392-398 | Adding the merged table and removing the candidates by id leaves every other table in its place and empties exactly the source level |
| Engine.EndCompactKeeps | src/lsmtree/lsmtree.cpp:373-410 | Publishing a compaction, after any inserts during its unlocked window, keeps the invariant and yields the levels with the new table added and the source level empty |
| Engine.CachesStayTrue | src/lsmtree/lsmtree.cpp:282-313 | A metadata cache found under a table's id was opened on that table's files, across every step, because ids are never used twice; the invariant of the tree's map of caches |
| Engine.OpenedCacheIsTrue | src/lsmtree/lsmtree.cpp:282-313 | Opening a cache for a registered table keeps all caches true |
| Engine.SavedStateReloads | src/lsmtree/lsmtree.cpp:412-414 | The manifest saved in any reachable state loads back to the same levels, order and next id, within the limits of the format |
| Conservation.StepVersions | src/lsmtree/lsmtree.cpp:149-159 | Flush and compaction steps leave the multiset of all row versions as it is; an insert replaces the version in the active memtable or adds one |
| Conservation.EndCompactVersions | src/lsmtree/compaction/compaction_job.cpp:76-202 | Publishing a compaction conserves the multiset of rows: what the new table holds is what the source level held |
| Reference.RunAgrees | src/storage/mock/mock_storage_engine.cpp:27-55 | After any run the tree holds exactly the rows of the map and the rows that inserts left behind, as multisets |
| Reference.VersionsAreMock | src/storage/mock/mock_storage_engine.cpp:27-55 | On the keys of any range, the row versions in the tree are those of the map if and only if no row of the range was left behind |
| Reference.HeldTwiceIsShadowed | src/storage/mock/mock_storage_engine.cpp:27-55 | A key is in the tree twice if and only if a row of it was left behind |
| Drain.PickExact | src/lsmtree/compaction/compaction_policy.cpp:13-60 | The policy in true numbers: level 0 exactly when its count reaches the trigger, else the lowest used level whose bytes exceed base times ratio to its power, both modulo 2^64, else nothing; one level up, in columns from the configured level on |
| Drain.FlushBringsNearer | src/lsmtree/lsmtree.cpp:322-371 | A flush round strictly lowers the measure (frozen memtables, distance of tables below a level with room for all bytes) and keeps that level roomy |
| Drain.CompactBringsNearer | src/lsmtree/lsmtree.cpp:373-410 | A compaction round strictly lowers the same measure, with thresholds computed in wrapping 64-bit arithmetic |
| Drain.PendingCanStart | src/lsmtree/lsmtree.cpp:315-320 | In an idle state some round can start if and only if work is pending and the drain is not stuck: nothing frozen, trigger 0 and level 0 empty |
| Drain.StuckFromTheStart | src/lsmtree/compaction/compaction_policy.cpp:13-26 | With trigger 0 the empty tree has work pending and no round can start |
| Drain.RoomExists | src/lsmtree/compaction/compaction_policy.cpp:32-35 | With ratio 2 or more a level with room exists for every amount of data within a factor of the 64-bit range |
| Drain.CascadeSettles | src/lsmtree/compaction/compaction_policy.cpp:28-57 | From any state with a lone table, begin-compact and end-compact steps of the machine move it on for a number of rounds, each building a table of the same size, if and only if none of the thresholds it meets is at least its size |
| Drain.CascadeIsRun | src/lsmtree/lsmtree.cpp:250-256 | Such rounds are a legal continuation of any run that led to the state |
| Drain.FlatNeverSettles | src/lsmtree/compaction/compaction_policy.cpp:28-57 | With size ratio 1 a lone table larger than the base goes through any number of rounds of the machine, up to the widths of levels and ids, and work is still pending after each |
| Drain.WrappedNeverSettles | src/lsmtree/compaction/compaction_policy.cpp:32-35 | With ratio 2^32 the wrapped thresholds from level 2 on are zero for every base, so a lone non-empty table goes through any number of rounds and work is still pending |
| LsmTree.LSMTree.InsertRow | src/lsmtree/lsmtree.cpp:149-159 | Takes exactly the insert step of the machine |
| LsmTree.LSMTree.BeginFlushOne | src/lsmtree/lsmtree.cpp:322-336 | Until the lock is released: reports whether a memtable waited, and takes exactly the begin-flush step |
| LsmTree.LSMTree.EndFlushOne | src/lsmtree/lsmtree.cpp:338-371 | Builds a row table from the frozen rows and takes exactly the end-flush step |
| LsmTree.LSMTree.BeginCompactOne | src/lsmtree/lsmtree.cpp:373-387 | Until the lock is released: true exactly when the machine can begin a compaction, and then takes that step; an exception exactly when stuck without any level; otherwise the state is unchanged |
| LsmTree.LSMTree.EndCompactOne | src/lsmtree/lsmtree.cpp:389-410 | Runs the job on the candidates' files and takes exactly the end-compact step |
| LsmTree.LSMTree.HasPendingWork | src/lsmtree/lsmtree.cpp:315-320 | True exactly when a memtable is frozen or the policy picks a task |
| LsmTree.LSMTree.FlushOne | src/lsmtree/lsmtree.cpp:322-371 | A whole flush brings the drain nearer to its end and keeps every row version |
| LsmTree.LSMTree.CompactOne | src/lsmtree/lsmtree.cpp:373-410 | A whole compaction, exactly when one can begin, brings the drain nearer to its end and keeps every row version; with trigger 0 it reports false on an empty level 0 and throws when no level was ever used |
| LsmTree.LSMTree.DrainWork | src/lsmtree/lsmtree.cpp:250-256 | The drain loop terminates, with every row version still there, the active memtable untouched, and work pending exactly if it is stuck under trigger 0; it throws exactly when stuck without any level |
| FileSizes.RealSizesFit | src/lsmtree/lsmtree.cpp:45-52 | The sizes of the real files (data, metadata, index, statistics) are within a cost of their rows, which is what the termination of the drain asks for |
| FileSizes.NumericExactly | src/lsmtree/sstable/build/row_sstable_builder.cpp:166-271 | The statistics file is sized for exactly the columns that have statistics |
| FileSizes.FlatRunsOn | src/lsmtree/lsmtree.cpp:250-256 | From the empty tree, with ratio 1, a threshold of one row, a trigger of one table and a base below the least size of a table's files, one insert, one flush and any number of compactions are a legal run that records the real file sizes and at whose end work is still pending |
| LsmTree.LSMTree.ScanRange | src/lsmtree/lsmtree.cpp:161-231 | One cursor over the memtables and the overlapping tables, read through the tree's shared caches, emits exactly the scan that the theorems are about; there is none exactly when the walk over a memtable would overrun its end, and it is never an error for a good projection; the caches stay true |
| LsmTree.LSMTree.ReadShared | src/lsmtree/lsmtree.cpp:205-223 | One table read through the metadata cache under its id and the shared block cache gives what its files hold, and leaves every cache true |
| LsmTree.LSMTree.GetOrCreateMetadataCache | src/lsmtree/lsmtree.cpp:285-305 | The cache under the table's id, opened on the table's files, kept for later scans |
| LsmTree.LSMTree.GetOrCreateBlockCache | src/lsmtree/lsmtree.cpp:307-314 | The one block cache, made by the first scan |
| LsmTree.ReadsNeverFail | src/lsmtree/lsmtree.cpp:161-231 | In every state that the invariant allows, no table read of a scan fails, whatever range, columns and filter are asked for |
| Memory.MemTable.ToSortedImmutable | src/lsmtree/mem/memtable.cpp:18-31 | All rows move out, in key order |
| Memory.LowerBound | src/lsmtree/mem/imm_memtable.cpp:25-34 | The bisection returns the number of rows below the key |
| Memory.RangeRows | src/lsmtree/lsmtree.cpp:175-203 | The rows between the two lower bounds are the rows of the range, in order; the first bound lies behind the second exactly for an inverted range around a row, where the walk would miss its end |
| Memory.MemoryLayer.Insert | src/lsmtree/mem/memory_layer.cpp:9-14 | A memtable that reaches the threshold is frozen behind the queue, its rows sorted, and a new one takes over; otherwise the row is just written |
| Memory.MemoryLayer.ActiveToImmutable | src/lsmtree/mem/memory_layer.cpp:16-27 | Freezing appends the sorted rows to the queue and leaves an empty memtable |
| SortedMaps.EnumerateSorts | src/storage/mock/mock_cursor.cpp:7-32 | Walking the sorted map shows each of its rows once, by strictly ascending key |
| SortedMaps.EnumerateUnique | src/storage/mock/mock_cursor.cpp:7-32 | It is the only ascending list of exactly these rows |
| SortedMaps.EnumerateWrite | src/storage/mock/mock_storage_engine.cpp:27-55 | Writing a key replaces its row in the walk or adds one |
| Registry.SSTableRegistry.Add | src/lsmtree/sstable/metadata/sstable_registry.cpp:21-26 | The levels grow to the table's level, and it goes to the end of that level |
| Registry.SSTableRegistry.Remove | src/lsmtree/sstable/metadata/sstable_registry.cpp:28-38 | Exactly the entries with this id leave, in every level, and the others keep their order |
| Registry.SSTableRegistry.Overlapping | src/lsmtree/sstable/metadata/sstable_registry.cpp:47-65 | The tables of a level whose key bounds meet the half-open range, in level order |
| Registry.SSTableRegistry.SSTablesAtLevel | src/lsmtree/sstable/metadata/sstable_registry.cpp:40-45 | The tables of a level, or an exception exactly for a level that was never used |
| Registry.PickTask | src/lsmtree/compaction/compaction_policy.cpp:13-60 | The nested loops compute the task that `Drain.PickExact` characterises |
| Manifest.SaveManifest | src/lsmtree/sstable/metadata/sstable_manifest.cpp:47-101 | The bytes written for the registry, with the 16-bit path length and 32-bit count cut as the code cuts them |
| Manifest.LoadManifest | src/lsmtree/sstable/metadata/sstable_manifest.cpp:103-145 | Fails exactly when the bytes do not parse; else the registry and next id are those the bytes say, the layout byte kept as it is; a missing file gives an empty registry |
| Manifest.LoadOfSave | src/lsmtree/sstable/metadata/sstable_manifest.cpp:47-145 | What loading a saved manifest gives for any registry at all, misplaced tables, long paths and too many entries included |
| Manifest.ManifestRoundTrip | src/lsmtree/sstable/metadata/sstable_manifest.cpp:47-145 | Save and load give back levels, order and next id if and only if tables sit where they say, the top level is used, and paths and count fit |
| Manifest.RebuildTrims | src/lsmtree/sstable/metadata/sstable_registry.cpp:21-26 | Adding the saved tables one by one rebuilds well-placed levels up to unused ones at the top |
| Manifest.TruncatedIsRefused | src/lsmtree/sstable/metadata/sstable_manifest.cpp:21-37 | A manifest cut off at any byte is refused |
| Compaction.RunJob | src/lsmtree/compaction/compaction_job.cpp:76-202 | Fails only without candidates; else the new table, in the asked layout, holds exactly the merge of the candidates' rows, with their key bounds |
| Compaction.ReadRequested | src/storage/read/sstable/sstable_cursor_factory.cpp:18-164 | What draining a table's cursor shows for any range, columns and filter: the rows of the reading pipeline, and no error for a good projection |
| Compaction.ReadNeverFails | src/storage/read/sstable/sstable_cursor_factory.cpp:18-164 | Reading a stored table never fails |
| Compaction.ReadCandidate | src/lsmtree/compaction/compaction_job.cpp:111-130 | Opening and draining a table's cursor through both caches gives exactly the rows its files hold |
| Compaction.WriteRows | src/lsmtree/compaction/compaction_job.cpp:159-174 | Draining the merge into a row builder yields a table with exactly these rows |
| Compaction.WriteColumns | src/lsmtree/compaction/compaction_job.cpp:143-158 | Draining the merge into a column builder yields a table with exactly these rows |
| Merging.MergeKeepsAll | src/storage/cursor/merge_cursor.cpp:9-54 | The merge emits the multiset union of its children, ascending or not |
| Merging.MergeAscending | src/storage/cursor/merge_cursor.cpp:9-54 | The merge of ascending children is ascending |
| Merging.MergeStable | src/storage/cursor/merge_cursor.cpp:9-54 | Rows of equal key come out in child order, every version once |
| Merging.StableUnique | src/storage/cursor/merge_cursor.cpp:9-54 | Ascending order and the order of each key's versions determine the list, so the merge is the only one that meets its contract |
| Merging.MergeStrict | src/storage/cursor/merge_cursor.cpp:9-54 | With distinct keys the merge is strictly ascending |
| Cursors.MergeCursor.TopEntry | src/storage/cursor/merge_cursor.cpp:31-37 | The least heap entry is the child whose row the merge shows next: least key, earliest child on a tie |
| Cursors.MergeCursor.CurrentRow | src/storage/cursor/merge_cursor.cpp:31-47 | Key and values are those of the first remaining row of the merge |
| Cursors.MergeCursor.Next | src/storage/cursor/merge_cursor.cpp:20-29 | One step drops the first remaining row; at the end it does nothing |
| Cursors.ChainCursor.Next | src/storage/cursor/chain_cursor.cpp:17-22 | One step drops the first remaining row of the concatenation, skipping exhausted children |
| Cursors.ComposeCursors | src/storage/cursor/cursor_factory.cpp:12-42 | Dropping empty children, unwrapping a single one and choosing chain or merge by the order emits the composition of all children |
| Cursors.EmptyChildrenDoNotMatter | src/storage/cursor/cursor_factory.cpp:18-32 | Leaving out empty children changes neither the merge, tie order included, nor the concatenation |
| TableScan.ScanTableCorrect | src/storage/read/sstable/sstable_cursor_factory.cpp:18-164 | For any ascending rows, repeated keys included: reading a table, in either layout, never fails, shows in-range rows only, in order and none more often than it is there, and shows those that pass the filter without meeting a NaN exactly as often, except for a key that the range starts on and that is there twice |
| TableScan.FullScan | src/storage/read/sstable/sstable_cursor_factory.cpp:18-164 | Without range and filter every row is read back, even when keys repeat |
| TableCursors.MakeSSTableCursor | src/storage/read/sstable/sstable_cursor_factory.cpp:18-164 | Whatever both caches hold, the opened cursor emits exactly the rows of the pipeline; opening fails only where that fails or on a bad projection |
| TableCursors.SSTableReader.ReadBytes | src/storage/read/sstable/sstable_reader.cpp:68-94 | A block read through the cache is the slice of the data file |
| TableCursors.SSTableRowCursor.LoadNextNonEmptyBlock | src/storage/cursor/sstable_row_cursor.cpp:295-325 | Skips blocks without an in-range row; what remains to be emitted stays the same |
| TableCursors.SSTableRowCursor.Next | src/storage/cursor/sstable_row_cursor.cpp:252-265 | Drops exactly the current row from what remains |
| TableCursors.SSTableColumnCursor.LoadLogicalBlock | src/storage/cursor/sstable_column_cursor.cpp:250-285 | Loads the run of physical blocks with one logical id, keys and projected columns |
| TableCursors.SSTableColumnCursor.LoadNextNonEmptyBlock | src/storage/cursor/sstable_column_cursor.cpp:241-297 | Skips logical blocks without an in-range row; what remains stays the same |
| TableCursors.SSTableColumnCursor.Next | src/storage/cursor/sstable_column_cursor.cpp:191-204 | Drops exactly the current row from what remains |
| TableCursors.SSTableColumnCursor.Value | src/storage/cursor/sstable_column_cursor.cpp:214-239 | The cell of the current row, or an error exactly for a missing row, an unknown column or one that was not loaded |
| TableCursors.FilterRowBlocks | src/storage/read/sstable/data_skipping_block_pruner.cpp:69-88 | Keeps, in order, exactly the blocks that may satisfy every predicate |
| TableCursors.FilterLogicalBlockIds | src/storage/read/sstable/data_skipping_block_pruner.cpp:90-109 | Keeps exactly the logical ids that may satisfy every predicate |
| TableCursors.PruneColumnBlocks | src/storage/read/sstable/sstable_cursor_factory.cpp:96-132 | All physical blocks of a kept logical block stay, all of a dropped one go |
| TableCursors.ReferencedColumns | include/storage/read/data_skipping_filter.hpp:40-52 | Exactly the columns that some predicate mentions |
| SparseIndex.Bisect | src/storage/read/sstable/sparse_block_selector.cpp:47-85 | Both bisections return the number of entries below the key, or not above it |
| SparseIndex.SelectMetadataRange | src/storage/read/sstable/sparse_block_selector.cpp:25-98 | The method computes the span that the selection theorems are about |
| SparseIndex.SelectionExact | src/storage/read/sstable/sparse_block_selector.cpp:25-98 | Through an index of any step no error is reached, and a block that meets the range is lost if and only if the range starts on a key it shares with a later indexed block |
| SparseIndex.SelectionTight | src/storage/read/sstable/sparse_block_selector.cpp:25-98 | A block is selected if and only if no listed block behind it starts at or before the start of the range, and no listed block up to it starts at or beyond the end |
| SparseIndex.SelectionComplete | src/storage/read/sstable/sparse_block_selector.cpp:25-98 | With disjoint blocks every block that meets the range is inside the returned span |
| SparseIndex.DuplicateIsLost | src/storage/read/sstable/sparse_block_selector.cpp:47-66 | Two versions of one key in two blocks: a lookup of that key never sees the first |
| SparseIndex.ChooseStep | include/lsmtree/sstable/build/sparse_index_options.hpp:23-58 | The chosen step is positive and within the configured bounds; a fixed step inside the bounds is taken as it is |
| SparseIndex.StepMeans | include/lsmtree/sstable/build/sparse_index_options.hpp:23-58 | A fixed step is kept or moved to the nearer bound; else the step is the least within the bounds with which the index takes no more than the wanted bytes, the largest if none does |
| SparseIndex.WriteIndex | src/lsmtree/sstable/build/row_sstable_builder.cpp:151-164 | One entry per step, starting with block 0, each with its block's true least key |
| Pruning.StatsAreExact | src/lsmtree/sstable/build/row_sst_block_builder.cpp:182-225 | Recorded bounds enclose every comparable value of the column and are attained; they are absent only when there is none |
| Pruning.PruneExact | src/storage/read/sstable/data_skipping_block_pruner.cpp:18-67 | In a block dropped by its statistics a row satisfies the predicate if and only if its comparison meets a NaN: for integer and double columns and literals, all five operators, and all-NULL columns |
| Pruning.KeptExactly | src/storage/read/sstable/data_skipping_block_pruner.cpp:18-67 | A block is kept if and only if a row of it satisfies the predicate without meeting a NaN or, for `=`, the literal lies between the values of two of its rows |
| Pruning.NaNIsLost | src/storage/read/sstable/data_skipping_block_pruner.cpp:18-67 | A block of one NaN is dropped for an equality with any number that is not NaN, though the row is accepted |
| Pruning.MaySatisfy | src/storage/read/sstable/data_skipping_block_pruner.cpp:132-162 | A block is kept exactly when no predicate rules it out; blocks outside the statistics and columns without any are kept |
| Doubles.ScaledStrictlyMonotone | src/storage/read/sstable/data_skipping_block_pruner.cpp:40-64 | The order of bit patterns is the order of the numbers they stand for |
| Doubles.OrderIsNumeric | src/storage/read/sstable/data_skipping_block_pruner.cpp:40-64 | With signs: patterns are ordered and equal exactly as the numbers that their sign, exponent and fraction stand for |
| Doubles.NaNFields | src/executor/executor.cpp:197-221 | A pattern is no number if and only if its exponent is all ones and its fraction is not zero |
| Doubles.FromIntMonotone | src/storage/read/sstable/data_skipping_block_pruner.cpp:10-16 | Converting 64-bit integers to doubles never reverses an order, rounding included |
| Doubles.FromIntExact | src/storage/read/sstable/data_skipping_block_pruner.cpp:10-16 | Integers of at most 53 bits convert exactly |
| Doubles.FromIntRounds | src/storage/read/sstable/data_skipping_block_pruner.cpp:10-16 | A 64-bit integer converts to the nearest double, and where two are equally near to the one whose last bit is even |
| Codec.RowBlockRoundTrip | src/storage/cursor/sstable_row_cursor.cpp:17-176 | A row block decodes, under every projection, to exactly the projected values and NULLs, and to its last byte |
| Codec.SkipIsRead | src/storage/cursor/sstable_row_cursor.cpp:26-60 | On any bytes at all, skipping a value moves as far as reading it and fails exactly when reading fails |
| Codec.KeyBlockRoundTrip | src/storage/cursor/sstable_column_cursor.cpp:18-39 | A key block decodes to the encoded keys and to its last byte |
| Codec.ColumnBlockRoundTrip | src/storage/cursor/sstable_column_cursor.cpp:41-139 | A column block decodes to the encoded cells, NULLs included, and to its last byte |
| Decoders.ReadValueAt | src/storage/cursor/sstable_row_cursor.cpp:62-122 | On arbitrary bytes: fails exactly when a value does not fit, else returns it and the position behind it |
| Decoders.SkipValueAt | src/storage/cursor/sstable_row_cursor.cpp:26-60 | On arbitrary bytes: fails exactly when a value does not fit, else returns the position behind it |
| Decoders.MakeProjectionMask | src/storage/cursor/sstable_row_cursor.cpp:178-199 | Fails exactly on an unknown or repeated column; else the mask is the projection with the key |
| Decoders.DecodeCells | src/storage/cursor/sstable_row_cursor.cpp:132-172 | The cells of one row, read or skipped as the mask says, and the position behind them |
| Decoders.DecodeRowBlock | src/storage/cursor/sstable_row_cursor.cpp:17-176 | The position-walking decoder computes the block's rows, and fails exactly on malformed bytes |
| Decoders.DecodeKeyBlock | src/storage/cursor/sstable_column_cursor.cpp:18-39 | The position-walking decoder computes the block's keys, and fails exactly on malformed bytes |
| Decoders.DecodeValueColumnBlock | src/storage/cursor/sstable_column_cursor.cpp:41-139 | The position-walking decoder computes the block's cells, and fails exactly on malformed bytes |
| Lru.FitIsLongest | src/storage/read/sstable/sstable_block_cache.cpp:121-127 | Eviction keeps the longest most-recent prefix within the budget, and never the empty one |
| Lru.TouchKeeps | src/storage/read/sstable/sstable_block_cache.cpp:98-109 | Touching keeps the list free of duplicates and adds at most the touched key; totals follow |
| BlockCache.SSTableBlockCache.ReadBlock | src/storage/read/sstable/sstable_block_cache.cpp:65-96 | Returns what the loader returns, counts a hit or a miss, makes the block the most recent one and keeps the longest recency prefix within the budget; list, entries and byte counter stay consistent |
| BlockCache.SSTableBlockCache.EvictIfNeeded | src/storage/read/sstable/sstable_block_cache.cpp:121-127 | The loop keeps the longest most-recent prefix that fits |
| BlockCache.SSTableBlockCache.EvictPage | src/storage/read/sstable/sstable_block_cache.cpp:111-119 | Exactly the evicted entry leaves, and the byte counter is again the sum of the rest |
| MetadataCache.SSTableMetadataCache.GetRowPage | src/storage/read/sstable/sstable_metadata_cache.cpp:140-175 | The page returned is the table's page, cached or not, and becomes the most recent of all three kinds |
| MetadataCache.SSTableMetadataCache.GetColumnPage | src/storage/read/sstable/sstable_metadata_cache.cpp:177-216 | The same for the pages of column metadata |
| MetadataCache.SSTableMetadataCache.GetStatsPage | src/storage/read/sstable/sstable_metadata_cache.cpp:218-262 | The same for statistics pages, absent ones included |
| MetadataCache.SSTableMetadataCache.ReadRowMetadataRange | src/storage/read/sstable/sstable_metadata_cache.cpp:264-296 | For every page size, budget and history: exactly the metadata of the asked blocks; an error exactly outside the table or on 32-bit wrap |
| MetadataCache.SSTableMetadataCache.ReadColumnMetadataRange | src/storage/read/sstable/sstable_metadata_cache.cpp:298-333 | The same for column metadata, block after block and column after column |
| MetadataCache.SSTableMetadataCache.ReadNumericStatsRange | src/storage/read/sstable/sstable_metadata_cache.cpp:335-385 | The same for the statistics of the asked columns; columns without statistics are left out |
| MetadataCache.SSTableMetadataCache.EvictIfNeeded | src/storage/read/sstable/sstable_metadata_cache.cpp:132-138 | The shared list keeps its longest prefix within the budget, and the three page maps follow |
| MetadataCache.SSTableMetadataCache.EvictPage | src/storage/read/sstable/sstable_metadata_cache.cpp:95-130 | Exactly the evicted page leaves its map, and the byte counter is again the sum of the rest |
| BlockBuilders.SetFlag | src/lsmtree/sstable/build/row_sst_block_builder.cpp:134-147 | Setting one bit of the null bitmap is the bitmap of the flags with that one set |
| BlockBuilders.SnocFalse | src/lsmtree/sstable/build/column_sst_block_builder.cpp:59-72 | Growing the bitmap by a cleared flag is the bitmap of the longer list |
| BlockBuilders.RowSSTBlockBuilder.EncodedRow | src/lsmtree/sstable/build/row_sst_block_builder.cpp:126-155 | The bytes of a row are its encoding, null bitmap included |
| BlockBuilders.RowSSTBlockBuilder.UpdatedStats | src/lsmtree/sstable/build/row_sst_block_builder.cpp:182-225 | The statistics after a row are those of all rows so far |
| BlockBuilders.RowSSTBlockBuilder.Add | src/lsmtree/sstable/build/row_sst_block_builder.cpp:70-90 | Refuses a row exactly when the block is full; else data, bounds, count and statistics are those of the rows so far |
| BlockBuilders.RowSSTBlockBuilder.Finish | src/lsmtree/sstable/build/row_sst_block_builder.cpp:45-68 | The encoded block, with true bounds, count and statistics; an empty block is an error |
| BlockBuilders.ColumnSSTBlockBuilder.EncodeCell | src/lsmtree/sstable/build/column_sst_block_builder.cpp:83-122 | Values and null bitmap grow to those of the cells so far |
| BlockBuilders.ColumnSSTBlockBuilder.Add | src/lsmtree/sstable/build/column_sst_block_builder.cpp:47-81 | Refuses a row exactly when the block is full; else data, bounds, count and statistics are those of the column so far |
| BlockBuilders.ColumnSSTBlockBuilder.Finish | src/lsmtree/sstable/build/column_sst_block_builder.cpp:124-156 | The encoded column block, with true bounds, count and statistics |
| TableBuilders.RowSSTableBuilder.Add | src/lsmtree/sstable/build/row_sstable_builder.cpp:68-89 | Refuses a row exactly when the table is finished or its key is below the last; an equal key is accepted. The open block is cut in front of the row exactly when its encoding has reached the target size |
| TableBuilders.RowSSTableBuilder.FlushBlock | src/lsmtree/sstable/build/row_sstable_builder.cpp:91-133 | Moves the open rows into a block of their own, with its metadata, statistics and index candidate |
| TableBuilders.RowSSTableBuilder.Finish | src/lsmtree/sstable/build/row_sstable_builder.cpp:273-305 | Fails exactly when empty or finished; else the files are those of a row table with exactly the added rows in the blocks that were cut, and the bounds are theirs |
| TableBuilders.ColumnSSTableBuilder.Add | src/lsmtree/sstable/build/column_sstable_builder.cpp:93-116 | Refuses a row exactly when the table is finished or its key is below the last. The open block is cut in front of the row exactly when it has the target number of rows or one of its column blocks the target size |
| TableBuilders.ColumnSSTableBuilder.FlushBlock | src/lsmtree/sstable/build/column_sstable_builder.cpp:177-244 | Moves the open rows into one key block and one block per column, with consecutive offsets |
| TableBuilders.ColumnSSTableBuilder.Finish | src/lsmtree/sstable/build/column_sstable_builder.cpp:118-150 | Fails exactly when empty or finished; else the files are those of a column table with exactly the added rows in the blocks that were cut, and the bounds are theirs |
| TableBuilders.WriteStats | src/lsmtree/sstable/build/row_sstable_builder.cpp:166-271 | Column by column the statistics are those of the blocks, for numeric value columns and no others |
| Tables.StatsAreThere | src/lsmtree/sstable/build/row_sstable_builder.cpp:166-271 | Every value column of integers or doubles has the statistics of its blocks, and no other column has any |
| Expressions.CollectConjuncts | src/executor/executor.cpp:175-187 | Appends the conjuncts, left before right, to the caller's list |
| Expressions.ConjunctsDecide | src/executor/executor.cpp:175-187 | Where evaluation does not throw, a condition is true if and only if all its conjuncts are, in three-valued logic |
| Expressions.EvaluateMasked | src/executor/executor.cpp:1033-1209 | Evaluation cannot see columns outside the projection |
| Expressions.ColumnsExactly | src/executor/executor.cpp:509-566 | The columns that the projection is made of are exactly those that stand somewhere in the expression |
| Expressions.WellTypedEvaluates | src/executor/executor.cpp:1033-1209 | Well-typed expressions evaluate without an exception, to NULL or a value of their kind; which value is said by the lemmas of `Meaning` |
| Expressions.ThrowsExactly | src/executor/executor.cpp:1033-1209 | On rows without NULLs, an expression without NULL literals whose connectives stand over operators throws if and only if it compares a text, a number and a truth value crosswise |
| Expressions.BoundConditionThrows | src/executor/binder.cpp:329-333 | Such a WHERE clause never throws if and only if it is well typed; otherwise it throws on every row without NULLs |
| Expressions.TextAgainstNumber | src/executor/binder.cpp:93-150 | `name = 5` binds, and throws on every row with a name |
| Expressions.BindsExactly | src/executor/binder.cpp:104-157 | Binding fails if and only if the expression mentions a column that the schema does not have |
| Expressions.BoundTypeMeans | src/executor/binder.cpp:104-157 | What a bound expression yields is NULL or a value of the type that the binder gave it |
| Meaning.LeavesMean | src/executor/executor.cpp:1038-1067 | A literal is itself, column 0 the key and column i the i-th cell of the row; a column that is not there throws |
| Meaning.ConnectivesMean | src/executor/executor.cpp:1091-1158 | OR is TRUE if and only if an operand is, FALSE if and only if both are, and NULL otherwise; AND is TRUE if and only if both are, FALSE if and only if an operand is |
| Meaning.ConnectivesThrow | src/executor/executor.cpp:1091-1158 | AND and OR throw exactly when an operand does, when the left one is no truth value, or when the right one is none and the left one does not decide |
| Meaning.NotMeans | src/executor/executor.cpp:1069-1089 | NOT swaps TRUE and FALSE, keeps NULL, and throws on anything else |
| Meaning.IsNullMeans | src/executor/executor.cpp:1193-1205 | IS [NOT] NULL says whether the operand is NULL, and throws only if it does |
| Meaning.AcceptsMeans | src/executor/executor.cpp:1021-1031 | WHERE keeps exactly the rows on which the condition is TRUE, and throws exactly when it throws or is no truth value |
| Meaning.ComparisonsMean | src/executor/executor.cpp:1160-1190 | On two values that can be compared the six comparisons hold if and only if the first is below, the same as, or above the second |
| Meaning.IntegersCompare | src/executor/executor.cpp:189-195 | The six comparisons of integers are those of the numbers |
| Meaning.DoublesCompare | src/executor/executor.cpp:197-221 | With a double on either side the numbers that the doubles stand for are compared, an integer after conversion; a NaN compares equal to every number |
| Meaning.TextsCompare | src/executor/executor.cpp:224-233 | A text is below another if and only if it is a proper prefix of it or has the smaller byte at the first difference |
| Meaning.TruthsCompare | src/executor/executor.cpp:235-243 | FALSE is below TRUE |
| Meaning.OthersCompare | src/executor/executor.cpp:1160-1190 | A comparison with NULL is NULL; one across texts, numbers and truth values throws |
| Projection.CollectRequiredProjection | src/executor/executor.cpp:449-566 | The projection is exactly the columns of all expressions, each once, in a form that the cursors accept |
| Planner.BuildPlan | src/executor/executor.cpp:717-902 | The loop over the conjuncts computes the plan that the theorems below are about |
| Planner.ApplyKeyTest | src/executor/executor.cpp:778-850 | The switch over the oriented operator narrows the loop's variables as the narrowing function does, without a `key + 1` beyond 64 bits |
| Planner.KeyTestMeaning | src/executor/executor.cpp:749-778 | A key comparison in either orientation evaluates to the test on the row's key |
| Planner.KeyConjuncts | src/executor/executor.cpp:741-776 | The planner acts on exactly the conjuncts that have the key on one side and a literal on the other, as tests, NULL tests or bad literals by what the literal is |
| Planner.NarrowAllExact | src/executor/executor.cpp:741-855 | For every list of conjuncts: the final bounds and point are the conjunction of all key tests, as an equivalence over all keys; no row and a bad literal only where the tests justify it |
| Planner.NarrowsExactly | src/executor/executor.cpp:741-855 | The loop runs through if and only if no conjunct is a NULL key test, a key test with a non-integer literal or `key > INT64_MAX`, and all pinned keys agree |
| Planner.PlanPreservesAnswer | src/executor/executor.cpp:717-902 | Reading only the planned rows and filtering gives what filtering the whole table gives, for every condition that can be planned |
| Planner.PlanIsExact | src/executor/executor.cpp:717-902 | For every condition that can be planned, the plan is as narrow as the key tests allow, an empty plan is justified, and a bounded range has from < to |
| Planner.BadLiteralReached | src/executor/executor.cpp:741-776 | Planning throws if and only if some key comparison has a non-integer literal and the conjuncts in front of it have no NULL key test, no such literal, no `key > INT64_MAX` and no two different pinned keys |
| Planner.DoubleKeyLiteralThrows | src/executor/executor.cpp:771-776 | A key comparison with a double literal evaluates on every row but cannot be planned |
| Planner.BuildDataSkippingFilter | src/executor/executor.cpp:904-1019 | One predicate per numeric comparison of a value column with a literal, in conjunct order |
| Planner.PredicateMeaning | src/executor/executor.cpp:904-1019 | A filter predicate holds of a row if and only if its conjunct evaluates to true |
| Planner.PredicateOfExactly | src/executor/executor.cpp:904-1019 | A conjunct gives a predicate if and only if it compares a value column of numbers with a number, on either side and not by `!=` |
| Planner.AcceptedPassesFilter | src/executor/executor.cpp:904-1019 | Every accepted row passes every predicate of the filter |
| Ordering.CompareTransitive | src/executor/executor.cpp:248-262 | Comparison of values of one type is transitive, NULL included and NaN excluded; `Answers.NullableMeans` says which value comes first |
| Ordering.KeysTransitive | src/executor/executor.cpp:675-695 | The ORDER BY comparator over several items and directions is transitive; `Answers.RowsMean` says what it decides |
| Ordering.Sort | src/executor/executor.cpp:675-695 | Sorting yields a permutation without inversions under the comparator |
| PlainSelect.ExecutePlainSelect | src/executor/executor.cpp:590-715 | The shortcut returns the accepted rows up to the early stop; otherwise the first rows, up to the limit, of some ordering of the accepted rows that ORDER BY allows, which `Answers.AnswerMeans` spells out |
| PlainSelect.AscendingIsSorted | src/executor/executor.cpp:294-318 | A key-ascending scan is already in the order of a query that sorts by the key first |
| PlainSelect.StreamingIsRight | src/executor/executor.cpp:648-655 | The shortcut meets the same statement as the sort if and only if it is not LIMIT 0 over a non-empty answer |
| PlainSelect.LimitZeroOverstepped | src/executor/executor.cpp:648-655 | `SELECT key LIMIT 0` over a table with one row returns that row |
| Answers.NullableMeans | src/executor/executor.cpp:248-262 | The three-way comparison is negative if and only if the first value is below the second or the second is NULL, 0 if and only if they are the same or both NULL |
| Answers.RowsMean | src/executor/executor.cpp:675-695 | The comparator lets a row stand before another if and only if, at the first ORDER BY item where their values differ, ASC has the smaller value or the one that is not NULL in it, DESC the greater one or the NULL; it is 0 if and only if no item differs |
| Answers.AnswerMeans | src/executor/executor.cpp:590-715 | A list is an answer if and only if it shows the values of the select items on the first rows, up to the limit, of a permutation of the accepted rows in which every two rows stand in that order |
| Answers.StreamedMeans | src/executor/executor.cpp:590-715 | The shortcut is taken exactly without ORDER BY or with the key first and ascending, and shows the accepted rows as they come, up to the limit, but one at least where there is one |
| Answers.NoNaNMeans | src/executor/executor.cpp:675-695 | What is asked of the sorted rows: no ORDER BY or GROUP BY item has a NaN pattern on any of them |
| Aggregates.FinalIsExact | src/executor/executor.cpp:115-173 | COUNT, SUM over integers, and MIN and MAX over integers and doubles are those of exactly the non-NULL values, NULL when there is none; over doubles if and only if some value is below `+inf`, or above `-inf` |
| Aggregates.DoubleMinExact | src/executor/executor.cpp:25-113 | MIN over doubles returns a least value if and only if some value is neither NaN nor +infinity |
| Aggregates.DoubleMaxExact | src/executor/executor.cpp:25-113 | MAX over doubles returns a greatest value if and only if some value is neither NaN nor -infinity |
| Aggregates.MinOfInfinity | src/executor/executor.cpp:25-113 | The minimum of a column of +infinity is reported as the largest finite double |
| Aggregates.MaxOfMinusInfinity | src/executor/executor.cpp:25-113 | The maximum of a column of -infinity is reported as the lowest finite double |
| Aggregates.FinalPermuted | src/executor/executor.cpp:25-173 | No aggregate depends on the order of the values, but for the sign of a zero minimum or maximum |
| Aggregates.FoldPermuted | src/executor/executor.cpp:25-113 | Integer aggregates depend on the multiset of values only |
| Grouping.ExecuteGlobal | src/executor/executor.cpp:1211-1273 | Without GROUP BY: one row of totals over the accepted rows, even over none; nothing for LIMIT 0 |
| Grouping.TotalIsExact | src/executor/executor.cpp:1211-1273 | Each total is the exact count, sum or bound of its expression over the accepted rows, bounds of doubles if and only if a value lies on the near side of the start value |
| Answers.TotalsMean | src/executor/executor.cpp:1211-1273 | Each total is the count, sum or bound of the values of its expression on exactly the accepted rows |
| Grouping.TotalsPermuted | src/executor/executor.cpp:1211-1273 | Totals do not depend on the scan order, minima and maxima of doubles but for the sign of a zero |
| Grouping.ValidateGroupedSelect | src/executor/binder.cpp:392-431 | Accepts exactly the statements with GROUP BY whose plain items are each equivalent to a GROUP BY item (`Grouping.EquivalentExactly` says when), and those without GROUP BY whose items are all plain or all aggregates |
| Grouping.EquivalentEvaluate | src/executor/binder.cpp:335-390 | Expressions the binder calls equivalent evaluate alike on every row and throw together |
| Grouping.EquivalentExactly | src/executor/binder.cpp:335-390 | Two expressions are equivalent if and only if they are the same tree but for the signs of zeros, and have no NaN literal |
| Grouping.ValidatedExactly | src/executor/binder.cpp:392-431 | A statement with GROUP BY is accepted if and only if each plain item is, in this sense, one of the GROUP BY items; in particular when each stands there literally, NaN literals apart |
| Grouping.EqualKeys | src/executor/executor.cpp:265-281 | The group map cannot tell two keys apart if and only if they are the same but for the sign of zeros |
| Grouping.CollectGroups | src/executor/executor.cpp:1295-1350 | The map holds one entry for each class of equal keys of the accepted rows, doubles included, with its first member's values and the aggregates over exactly its members |
| Grouping.ExecuteGrouped | src/executor/executor.cpp:1275-1428 | As long as no accepted row has a NaN in its key or order: one output row for each class of equal keys, in key order or an order that ORDER BY allows, cut at the limit; `Answers.GroupedAnswerMeans` says what the rows hold |
| Answers.GroupedAnswerMeans | src/executor/executor.cpp:1275-1428 | Behind every answer stands a partition of the accepted rows into all those that have the same value in every GROUP BY item; the groups come in ascending order of these values or, by their first rows, in the order that ORDER BY asks for; the first ones up to the limit are shown, each plain cell with the item's value on the group's first row and each aggregate cell with the count, sum, least or greatest of the item's values that are not NULL over all its rows |
| Answers.SameKeyMeans | src/executor/executor.cpp:265-281 | Two rows are in one group if and only if they have the same value in every GROUP BY item |
| Grouping.SameOutput | src/executor/executor.cpp:1275-1428 | The output row of a group is the same for every order of the scanned rows, but for the sign of zeros, and the very same where no doubles are grouped by or bounded |
| Grouping.ScanOrderDoesNotMatter | src/executor/executor.cpp:1275-1428 | Without ORDER BY a validated query has one answer, whatever the scan order and the limit, but for the sign of zeros, and the very same without doubles |
| GroupOrder.OrderFreeExactly | src/executor/executor.cpp:1328-1333 | All scan orders of the rows allow the same orders of the groups if and only if every two groups compare alike under ORDER BY whichever of their members come first |
| GroupOrder.GroupedItemsSettle | src/executor/executor.cpp:1328-1333 | ORDER BY items that are grouped by make any two groups compare alike |
| GroupOrder.SettledAnswers | src/executor/executor.cpp:1275-1428 | Where the order is settled, every answer over one scan order is one over any other, but for the sign of zeros, and the very same without doubles |
| GroupOrder.GroupedItemsDecide | src/executor/executor.cpp:1275-1428 | With ORDER BY items that are grouped by, all scan orders have the same answers, in this sense |
| GroupOrder.OrderByFirstMember | src/executor/executor.cpp:1328-1333 | A well-typed, validated query over three rows has two scan orders whose answers have nothing in common |
| Parser.PrintParse | src/parser/parser.cpp:383-528 | Every expression, printed with parentheses only where the precedence asks for them, parses back to itself and stops where it ends |
| Parser.PrintIsShortest | src/parser/parser.cpp:383-528 | No shorter token list parses to the same expression, so no parentheses can be left out |
| Parser.AtomsParse | src/parser/parser.cpp:494-523 | Names, KEY among them, literals and NULL stand alone; any other mark but an opening parenthesis is refused |
| Parser.OperatorsParse | src/parser/parser.cpp:383-492 | The tree that each of the six comparisons, AND, OR, NOT and IS [NOT] NULL makes of its operands |
| Parser.ExpressionParser.ParseOrExpression | src/parser/parser.cpp:383-400 | On every token list: terminates, and returns the tree and position, or the error, of the grammar function |
| Parser.ExpressionParser.ParseAndExpression | src/parser/parser.cpp:402-419 | The same one level down |
| Parser.ExpressionParser.ParseNotExpression | src/parser/parser.cpp:421-433 | The same for unary NOT, which nests to the right |
| Parser.ExpressionParser.ParsePredicateExpression | src/parser/parser.cpp:435-492 | The same for one comparison or IS [NOT] NULL, which do not chain |
| Parser.ExpressionParser.ParseAtomicExpression | src/parser/parser.cpp:494-523 | The same for names, constants and parentheses |
| Lexer.QuoteRoundTrip | src/parser/lexer.cpp:232-261 | Reading a quoted text inverts the doubling of quotes, for every text |
| Lexer.TokenBack | src/parser/lexer.cpp:263-345 | Every token of an expression, rendered and followed by a blank, is read back |
| Lexer.LexRenderRoundTrip | src/parser/lexer.cpp:263-345 | The text of any list of such tokens lexes to that list |
| Lexer.TextRoundTrip | src/parser/parser.cpp:383-528 | Lexing and parsing the printed text of an expression gives the expression |
| Lexer.TextLexer.NextTokenHere | src/parser/lexer.cpp:263-345 | On every input: the token and position, or the error, of the lexing function |
| Lexer.TextLexer.ReadString | src/parser/lexer.cpp:232-261 | The loop computes the text with doubled quotes taken in once, and fails exactly when it is not closed |
| Lexer.TextLexer.ReadNumberToken | src/parser/lexer.cpp:192-230 | The loop takes in an optional sign, digits and at most one fraction, and fails exactly without digits |
| Lexer.TextLexer.ReadIdentifierOrKeyword | src/parser/lexer.cpp:178-190 | The longest word; `Keywords.KeywordIsRead` and `Keywords.NameIsRead` say which words are keywords |
| Keywords.KeywordIsRead | src/parser/lexer.cpp:64-150 | Every text that has the letters of one of the 28 keywords besides KEY, each in capital or small form, and is followed by no letter, digit or underscore is read as that keyword |
| Keywords.KeyIsRead | src/parser/lexer.cpp:103-105 | KEY in any case is read as the token that keeps the way it was written |
| Keywords.NameIsRead | src/parser/lexer.cpp:170-190 | A word that spells no keyword is read as a name, as it was written |
| Keywords.SignIsRead | src/parser/lexer.cpp:288-311 | Parentheses, comma, semicolon, star and equals sign |
| Keywords.ComparisonIsRead | src/parser/lexer.cpp:313-335 | `!=`, `<=` and `>=` are read as one sign; `<` and `>` stand alone where no `=` follows, `!` is then refused |
| Keywords.BlankIsSkipped | src/parser/lexer.cpp:40-45 | Blanks, tabs and line ends in front of a token change nothing |
| Keywords.WholeIsRead | src/parser/lexer.cpp:192-230 | Digits, with a minus sign or not, are read up to the first character that is none |
| Keywords.DecimalIsRead | src/parser/lexer.cpp:192-230 | A number with a point has digits on both sides of it, or the text is refused |
| Keywords.OthersAreRefused | src/parser/lexer.cpp:337-342 | Any other character is refused, and a minus sign that no digit follows |

## Left out

- Files, streams, rename atomicity, file deletion and crash behaviour: a file is a sequence of bytes, and a table is its data bytes with its metadata, index and statistics as values; their own byte formats are modelled for the manifest only.
- Threads, condition variables, timeouts, shutdown, logging and the restart path of the constructor: the model has the lock-held steps and the unlocked windows between them, with one worker.
- The loop of `compaction_worker_loop` and the wake-ups: `DrainWork` models the drain that both modes share, `Engine` the interleavings.
- A cursor over the active memtable walks the live map after the lock is released; scans are modelled at the point where the lock is held.
- `next_sst_id_` beyond 64 bits, levels, blocks and rows beyond 32 bits, columns beyond 16 bits, strings of 4 GiB or more: preconditions on the steps and builders.
- Constructor errors for zero page sizes, budgets and targets: preconditions.
- Group keys and ORDER BY values with a NaN among them: the comparator is then not an order, and `std::map` and `std::sort` promise nothing.
- `Aggregates.FinalIsExact`: nothing on AVG and on SUM over doubles, which round at every addition, nor on 64-bit overflow of integer sums: sums are unbounded integers.
- Hash maps, `std::map`, `std::priority_queue` and `std::sort` themselves: modelled by what they promise.
- CREATE TABLE and INSERT statements, statement-level parsing, the binding of names, column naming and the conversion of literal text to numbers.
- The linear block selectors, the empty cursor, the storage-engine wrappers and the point lookup of the mock engine, which overflows `key + 1` at the largest key.
- Line and column numbers in parser errors, and error messages: all errors of a function are one value.
- `Snapshot.AgreesUnlessShadowed`: asks that no row was left behind under the key that the range starts on; `HiddenRows.OlderStaysHidden` shows that agreement is then possible.
- `EndToEnd.QueryIsMock`: asks that no accepted row meets a NaN in the skipping filter; `Pruning.PruneExact` says that these are exactly the rows that a dropped block can hold.
- `LsmTree.LSMTree.ScanRange`: drains the cursor of every table while the lock is held, and composes the rows; the cursors themselves read on demand (`TableCursors.MakeSSTableCursor`), which the shared caches allow because they stay true across every step.
