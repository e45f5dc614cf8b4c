# GlanceDB in Dafny

A model of the storage, table, index and query layers of GlanceDB, with proofs about whole runs,
about every input, and about one component refining another.

**Tables.** A table is a directory of files: one manifest per version, one data file per fragment
and column, and a `_latest` pointer (`Store`, `ManifestStore`). `Table` is the synchronous writer,
`AsyncWriter` the queued one. Both are classes whose methods change the same fields as the
original, over an `ObjectStore` whose every write may fail; each method is proved against a
predicate on the files and memory before and after. `TableRuns` turns these predicates into a state
machine: inserts, column changes, re-opens, and phases of an async writer in which clients, the
arms of the background loop, the timer and `Close` interleave freely. Its theorems hold in every
state of every run; `SchemaHistory` follows the schema through them. `CommitProtocol` splits `ManifestStore.Commit` into its store accesses, with
crashes between any two, and lets any number of committers compete.

**Search.** `Metrics`, `KMeans`, `IvfFlatIndex`, `FlatIndex`, `SearchResults`, `ScanFilter`,
`BruteForce` and `HybridSearch` hold the loops of the original, proved against recursive or
quantified specifications. An unstable sort is only known to give *some* sorted permutation, so
two plans are compared by their score sequences. `MetricLaws`, `IndexLaws` and `FilterLaws` say
what metrics, searches and operators mean to a caller. `TableScans` joins search to the table: a
query over the fragments of any version answers like a query over one in-memory table, the batches
committed up to that version.

**Codec and cache.** `MiniBlock` is the page codec as functions on bytes, `MiniBlockCodec` its
loops, `PageFormat` what lies at which byte; `BufferPool` is the byte-capacity LRU pool, `VersionManager` the evicting manifest cache.

Values are modelled as follows. Files are a `map<Path, Content>`, with paths a datatype, so
distinct names are distinct paths. Distances are over `real`, with the square root a parameter
assumed to be the non-negative root. In the codec a float is its IEEE bit pattern; filters and
vector scans read the pattern through a parameter. What a filter makes of integers is exact:
`Float64` gives the float64 an integer converts to. 32-bit lengths and counts, two's complement and
byte order are explicit. `math/rand` is any index; compression is a pair of functions with
`Decompress(Compress(x)) == x`, and the identity for no compression.

## Results that fail, and exactly when they hold

- A page round trip needs every string length and the number of blocks to fit in 32 bits, and
  without compression nothing else: `MiniBlock.UncompressedRoundTripExact`. A string of 2^31 bytes
  is encoded without an error and its page panics when it is decoded, or reads as an empty column if
  the number of blocks overflows too: `MiniBlock.OversizedStringIsLost`.
- A search of the IVF index is exact if NProbes covers all partitions; asked for all results, exactly
  if it probes the partition of every vector: `IvfFlatIndex.SearchIsExact`, `IvfFlatIndex.FindsAllWhen`.
- `Commit` does not check that the proposed version is above the expected one. From any state with
  nobody inside it, a commit leaves "one success per expected version, no committed manifest lost"
  safe forever if and only if it is: `CommitProtocol.GrowingIsExact`.
- A close that returned nil keeps exactly the batches accepted before the loop stopped. A later write
  that skips the table's lock still returns nil and is lost: `TableRuns.CloseKeepsExactly`,
  `TableRuns.RacingWriteIsLost`; through the table there is none, `TableRuns.LockPreventsRaces`.
- The synchronous table and an async writer each keep their own counters. In any state of any run
  the table's next committed insert, as a single step, adds its fragment, drops none and changes no
  snapshot if and only if the table's cached latest version is the newest on disk, and so does a
  column change: `StaleTable.InsertSafeExactly`, `StaleTable.ChangeSafeInRun`. Otherwise the newest
  manifest either lacks the flushed fragments or lacks the inserted one, depending on the version
  number the insert uses: `StaleTable.InsertOutcomeExact`.
- A flush is safe in the same sense if and only if the writer's next version is above the newest on
  disk and none of its paths holds other data that a manifest refers to:
  `StaleTable.FlushSafeExactly`. It commits the schema its writer was started with, and so undoes a
  column change made since. So while a writer runs, nothing that the table commits is safe
  together with the writer's next flush, which rewrites the same version or stays unlisted below it:
  `StaleTable.NoInsertBesideWriter`, `StaleTable.NoSchemaChangeBesideWriter`,
  `StaleTable.FlushBelowNewest`.
- Batches with different columns are joined without an error but rows can move apart. They stay
  together exactly when each of two accumulated batches that has rows has all columns of the other,
  and exactly when each merged batch that has rows has all columns of the first:
  `Batches.AccumulateAligned`, `Batches.MergedExactly`, for columns of any width. Two batches that
  fail, one with a vector column of dimension 2: `Batches.RowsMoveApart`. An insert drops the values
  of a column exactly if a later batch has some and the first lacks the column:
  `TableRuns.InsertedExactly`.
- A failed pointer write leaves a manifest that is listed as newest above the last commit. After a
  first success the newest listed version is the last commit exactly when no version from before, left
  behind like this or in progress lies above it: `CommitProtocol.FailedPointerLeads`, `CommitProtocol.NewestIsLastCommit`.
- The column added after dropping another gets its ID exactly if every remaining ID is smaller and the
  one just below remains: `TableRuns.IdComesBackExactly`. In old fragments it then shows the bytes of
  the dropped column, read as its own type, and the dropped values themselves exactly if both types
  have the same Go slice: `TableRuns.ReusedIdShowsOldData`.
- A column that one fragment writer writes twice reads back as the second data exactly if both pages
  have the same size, and as an error otherwise: `Fragments.RewrittenColumnReads`.
- Search-first fails on rows that filter-first never looks at; it succeeds exactly when filter-first
  and the full scan both do: `HybridSearch.SearchFirstSucceedsWhen`. Over a table, filter-first
  answers where search-first fails exactly when every matching row has a distance and another row has
  none: `TableScans.PlansPartWhen`, with a stored table of two rows in `SampleQuery.PlansPart`.
- A filter on integers compares their float64 roundings. Conditions of every operator are exact on
  all integers up to a bound if and only if the bound is at most 2^53; beyond it 2^53 equals
  2^53 + 1: `ScanFilter.ExactExactlyUpTo`. What each operator makes of any two integers:
  `ScanFilter.RoundingOnlyMerges`.

`SampleRun` gives one concrete run, from `Create` to a stopped writer, in which a stale insert, a
flush that rewrites an insert, and the lost write all happen.

## Where the code and its comments differ

- `Filter` is documented as "match all conditions"; without conditions it selects no row rather than
  every row (query/scan_filter.go:25-27), and the model follows the code.
- A flush whose data write fails is retried under the same fragment ID, because the counter moves
  only after `Finish`; one whose manifest write fails is retried under a fresh one
  (table/async_writer.go:241-251). Neither can touch a file that a manifest refers to.
- An insert whose manifest write fails uses up its version and fragment numbers
  (table/table.go:199-221).

- Batches merged by one insert are said to need the same columns; different ones are not refused, and
  columns that the first batch lacks are dropped (table/async_writer.go:351-387).

## Model

| member | source | states |
|---|---|---|
| TableRuns.SnapshotIsolation | table/table.go:183-331 | in every run, with writes failing anywhere, no manifest on disk and no data file it refers to ever changes again |
| TableRuns.RunKeepsInv | table/table.go:46-91 | in every state of every run, versions and fragment IDs in use lie below the counters, later versions only append fragments, and those are the committed batches, on disk, in order |
| TableRuns.EventKeeps | table/table.go:183-331 | every single event, whatever fails inside it, keeps that invariant and freezes every snapshot |
| TableRuns.LatestManifestIsNewest | table/table.go:111-146 | in every state, also behind an async writer, `LatestManifest` and `CheckoutVersion` return what a plain read of the disk returns, whatever was evicted |
| TableRuns.ReadingGivesCommittedBatches | table/fragment_reader.go:39-60 | a column kept throughout, read fragment by fragment at any version, is the concatenation of the batches committed up to it |
| TableRuns.RowIdsAreStable | query/brute_force.go:54-87 | the RowID of a fragment's first row is the number of rows committed before it, the same in every later version of every later state |
| TableRuns.LogGrows | table/table.go:183-235 | committed batches stay committed and in place for the rest of the run |
| TableRuns.InsertAppendsRows | table/table.go:183-235 | a committed insert adds one fragment to the newest manifest, the rows of all its batches to the table, and to every column the values of all its batches if the first has the column, else none; any other outcome leaves the newest manifest as it was |
| TableRuns.InsertedExactly | table/async_writer.go:353-387 | an insert takes all values of a column exactly if its first batch has the column or no batch has values for it |
| TableRuns.DroppedIdComesBack | table/table.go:247-260 | a column added right after another was added and dropped always gets its ID |
| TableRuns.IdComesBackExactly | table/table.go:247-260 | in any schema, the column added after a drop gets the dropped ID exactly if every remaining ID is smaller and the one just below remains, or the ID was 1 |
| TableRuns.ReusedIdShowsOldData | table/fragment_reader.go:39-60 | a column of any schema and any type reads, in an old fragment, as the bytes stored under its ID taken as that type; as the stored values exactly if the types have the same Go slice; as an error if nothing is stored |
| TableRuns.AsyncConservation | table/async_writer.go:153-284 | in every state: the accepted batches are those in committed groups, then those accumulated, then the queue, and so are their rows and values, column by column |
| TableRuns.AsyncConservationOnDisk | table/async_writer.go:153-284 | on disk: a kept column, read from this writer's fragments of the newest manifest, then the accumulating batch, then the queue, gives exactly the accepted values in order |
| TableRuns.RowsAreConserved | table/async_writer.go:212-284 | the step from batches to rows and values, for any state that satisfies the writer's invariant |
| TableRuns.FlushBarrier | table/async_writer.go:117-134 | once `Flush` returned nil, every batch with rows whose `Write` returned nil before the call is in the newest manifest, with its data on disk |
| TableRuns.CloseBarrier | api/table.go:280-298 | once the table's `Close` saw nil, every batch with rows that `InsertAsync` accepted is in the newest manifest |
| TableRuns.CloseKeepsExactly | table/async_writer.go:179-182 | once the writer's `Close` saw nil, an accepted batch with rows is in the newest manifest if and only if it was accepted before the loop stopped |
| TableRuns.StoppedForGood | table/async_writer.go:179-182 | a stopped loop stays stopped and that number stays what it is, while clients may go on writing |
| TableRuns.LockPreventsRaces | api/table.go:192-203 | when all writes go through the table, a stopped loop has seen every accepted batch |
| TableRuns.RacingWriteIsLost | table/async_writer.go:99-113 | without the lock, a stopped writer with room accepts a batch that is in no newest manifest and that no event takes out of the queue |
| StaleTable.InsertSafeExactly | table/table.go:212-224 | in any state of any run, behind an async writer or not, a committed insert, as a single step, adds its fragment, drops none and changes no snapshot if and only if the table's cached latest version is the newest on disk |
| StaleTable.InsertOutcomeExact | table/table.go:212-224 | the newest manifest after a committed insert of any table, stale or not; it is the old one plus the fragment exactly if the version is not below the newest and the cached fragments are the newest |
| StaleTable.InsertFreezesExactly | table/table.go:199-224 | under an unused fragment ID, a committed insert changes no snapshot exactly if its version was not on disk |
| StaleTable.CommitFreezesExactly | table/fragment_writer.go:128-175 | writing a fragment and a manifest under any numbers changes no snapshot exactly if the version was not on disk, or held that manifest, and no data file that a manifest refers to gets other contents |
| StaleTable.FlushSafeExactly | table/async_writer.go:236-284 | the newest manifest after a committed flush with any counters, with the schema of the writer; the flush adds its fragment, drops none and changes no snapshot if and only if its version is above the newest and its paths hold no other referred data |
| StaleTable.FlushBelowNewest | table/async_writer.go:254-275 | a flush whose version is the newest on disk rewrites it, and one below it leaves the newest manifest without its fragment |
| StaleTable.ChangeSafeExactly | table/table.go:262-287 | a committed column change of any table becomes the newest version over all fragments and changes no snapshot exactly if its version is above the newest, or its manifest is the newest already, and its cached fragments are the newest |
| StaleTable.ChangeSafeInRun | table/table.go:262-287 | in any state of any run that is so exactly if the cached latest version is the newest on disk |
| StaleTable.NoInsertBesideWriter | table/async_writer.go:236-284 | in any state of any run with a writer, a committed insert and the writer's next committed flush are never both safe |
| StaleTable.NoSchemaChangeBesideWriter | api/table.go:246-275 | nor are a committed column change and the writer's next committed flush |
| SampleRun.ReachesStop | table/async_writer.go:153-194 | a concrete run from `Create` to a stopped writer and a racing write |
| SampleRun.LimitsAreReached | table/async_writer.go:99-113 | in it the stale insert is unsafe, the batch from before the close is kept and the racing one is lost |
| SampleRun.FlushRewritesInsert | table/async_writer.go:254-275 | in it an insert beside the writer is safe as a step, and the writer's next flush rewrites the version it committed |
| TableRuns.QueueNeverStuck | table/async_writer.go:197-209 | in every run a queued batch can be merged, so draining never stops half way |
| TableRuns.FlushKeepsDisk | table/async_writer.go:236-284 | a flush, whatever fails inside it, keeps the disk invariant and freezes what is there |
| TableRuns.FlushRetry | table/async_writer.go:236-278 | what a failed flush leaves to the next: the same version and batch, under the same fragment ID if the data could not be written and the next one otherwise |
| TableInvariant.InsertKeeps | table/table.go:183-235 | an insert, whatever fails inside it, keeps disk and cache in agreement and appends its batch exactly if it committed |
| TableInvariant.InsertOnDisk | table/table.go:183-235 | the newest manifest gains exactly the inserted fragment if the insert committed, and is unchanged whatever failed otherwise |
| TableInvariant.SchemaChangeKeeps | table/table.go:239-331 | the same for `AddColumn` and `DropColumn`, which leave the committed batches alone |
| TableInvariant.OpenKeeps | table/table.go:63-91 | opening at whatever point the last process stopped gives unused counters and a cache that agrees with the disk |
| TableInvariant.ReopenAfterInsert | table/table.go:63-91 | a table opened after a committed insert goes on with the counters, the schema and the newest version of the one that made it |
| TableInvariant.FailedInsertLeavesGap | table/table.go:199-224 | an insert whose manifest write fails uses up its version and fragment ID: the next one that commits leaves a gap in both |
| TableInvariant.CacheSize | table/table.go:32-42 | at most ten manifests are cached, and none goes while there are fewer |
| TableInvariant.CreateKeeps | table/table.go:46-60 | a new table satisfies the invariant with no batches |
| TableInvariant.CacheRefinesDisk | table/table.go:111-146 | reading through the cache is reading the disk |
| TableInvariant.CachedLatestIsNewest | table/table.go:206-212 | the cached latest manifest that an insert extends is the newest one on disk |
| TableState.FragmentCommitKeepsDisk | table/table.go:206-235 | committing a batch as a new fragment of a new version keeps the disk invariant with one more batch |
| TableState.SchemaCommitKeepsDisk | table/table.go:262-287 | committing a version with the same fragments keeps it with the same batches |
| TableState.DataWriteKeepsDisk | table/fragment_writer.go:128-175 | data written under an unused fragment ID without a manifest disturbs no version |
| TableState.VersionReadsLog | table/fragment_reader.go:39-60 | at any version, each fragment of a kept column reads back as the batch that was committed in its place |
| TableState.RowIdIsPosition | query/brute_force.go:54-87 | the offset a scan gives to a fragment is the number of rows committed before it |
| TableState.RectangularRows | table/fragment_writer.go:155-184 | a fragment records the rows of its batch if every column holds that many whole rows |
| TableState.FullIsRectangular | table/fragment_writer.go:113-121 | as every batch does whose columns have the dimension, or one, times as many values |
| Table.Table.Create | table/table.go:46-60 | writes version 1 and caches it, or leaves nothing |
| Table.Table.Open | table/table.go:63-91 | fails exactly without a readable newest version; else takes schema and counters from it |
| Table.Table.LatestManifest | table/table.go:111-129 | the newest version on disk, from the cache if it is there |
| Table.Table.CheckoutVersion | table/table.go:133-146 | any version, from the cache if it is there |
| Table.Table.Insert | table/table.go:176-178 | inserts a single batch |
| Table.Table.BatchInsert | table/table.go:183-235 | files, counters and cache after each of the five ways an insert can end |
| Table.Table.AddColumn | table/table.go:239-287 | refuses exactly a taken name or an empty cache; else commits the schema with the whole field added under the largest ID plus one |
| Table.Table.DropColumn | table/table.go:291-331 | refuses exactly an unknown name or an empty cache; else commits the schema without the field |
| SchemaHistory.AddedIsFound | table/table.go:243-262 | an added column is found under its name with its own type and dimension, under an ID that no column had; every other name and ID gives what it gave |
| SchemaHistory.DroppedIsGone | table/table.go:295-306 | a dropped name is gone, and every other name and column gives what it gave |
| SchemaHistory.SchemaOfRun | table/table.go:46-91 | in every state of every run, the newest manifest, the table in memory and its writer have the schema that the committed column changes make of the first one, through inserts, flushes and re-opening |
| SchemaHistory.AddedStays | table/table.go:239-287 | until it is dropped, an added column has its own type and dimension in the newest manifest, in memory and in any table opened from it |
| SchemaHistory.NamesStayUnique | table/table.go:239-262 | a run never makes two columns share a name or an ID |
| SchemaHistory.RefusedExactly | table/table.go:243-245 | in a run a column is refused exactly if its name is taken, and a drop exactly if the name is unknown |
| SchemaHistory.FindsFirst | table/schema.go:33-50 | lookups give the first field of a name or an ID |
| AsyncInvariant.EventKeepsWriter | table/async_writer.go:153-284 | every event of every interleaving keeps: accepted batches are conserved in order, the current batch is what accumulating the pending ones gives, and nil answers are kept promises |
| AsyncInvariant.FlushMakesDurable | table/async_writer.go:236-284 | after a flush that returned nil every accepted batch with rows outside the queue is in a committed fragment |
| AsyncInvariant.DrainIsEvents | table/async_writer.go:197-209 | `drainPending` inside one arm of the loop is a row of single merges |
| AsyncInvariant.TakeAtLimit | table/async_writer.go:166-175 | after the batch arm the current batch is below the size limit unless its flush failed, and nothing is flushed while it stays below |
| AsyncInvariant.QueueBound | table/async_writer.go:99-113 | a batch is accepted exactly while fewer than 256 wait |
| AsyncWriter.AsyncWriter.Start | table/async_writer.go:74-94 | counters from the newest manifest on disk |
| AsyncWriter.AsyncWriter.Write | table/async_writer.go:99-113 | enqueues at the back, or refuses only if the queue is full or the writer closed or gone |
| AsyncWriter.AsyncWriter.Accumulate | table/async_writer.go:212-232 | merges all columns and counts the rows, or stops having merged some columns and no rows |
| AsyncWriter.AsyncWriter.DrainPending | table/async_writer.go:197-209 | merges the queue in order, up to and half way into the first batch that does not fit |
| AsyncWriter.DrainMergesAll | table/async_writer.go:197-209 | when every batch fits, draining has exactly one outcome: all of them merged |
| AsyncWriter.AsyncWriter.TakeBatch | table/async_writer.go:166-175 | the batch arm: one merge, and a flush exactly once the size limit is reached |
| AsyncWriter.AsyncWriter.HandleFlush | table/async_writer.go:176-178 | the flush arm: drains, flushes and answers |
| AsyncWriter.AsyncWriter.HandleClose | table/async_writer.go:179-182 | the close arm: drains, flushes and stops |
| AsyncWriter.AsyncWriter.HandleTimer | table/async_writer.go:187-191 | the timer arm: flushes what has accumulated, and never the queue |
| AsyncWriter.AsyncWriter.Flush | table/async_writer.go:236-284 | files and memory after each of the five ways a flush can end |
| Batches.MergeKeepsValues | table/async_writer.go:353-387 | merging batches of one shape succeeds, and every column holds the values of all batches in order |
| Batches.MergesWhen | table/async_writer.go:353-387 | batches merge exactly if there is one, and several carry one schema object and give every column of the first one type |
| Batches.GatherKeepsValues | table/async_writer.go:212-232 | so does accumulating them one by one |
| Batches.AccumulateAligned | table/async_writer.go:212-232 | accumulating keeps the rows of the columns together, whatever their widths, exactly when each batch that has rows has all columns of the other |
| Batches.MergedExactly | table/async_writer.go:353-387 | a merged batch has the columns of the first batch and in them the values of all batches; its rows stay together exactly when each batch that has rows has all columns of the first |
| Batches.RowsMoveApart | table/async_writer.go:212-232 | two batches, one with a vector column of dimension 2, that both ways of joining them leave with two rows and one vector |
| Batches.MergeAppends | table/async_writer.go:296-349 | merging two columns appends their values and keeps the type |
| Batches.MergeRecordBatches | table/async_writer.go:353-387 | the loops succeed exactly if every column merges, and give the merged batch |
| Fragments.ReadsWhatWasWritten | table/fragment_reader.go:39-60 | a column that was written reads back unchanged through any later schema that keeps its type |
| Fragments.ReadsStoredBytes | table/fragment_reader.go:39-60 | through any later schema a column reads as the stored bytes taken as the type that schema declares |
| Fragments.InferredExactly | table/fragment_writer.go:62-125 | the row count recorded for a column is its number of whole rows, the dimension many values each for a vector column; there is none exactly for a wrong type or a dimension that is not positive |
| Fragments.RewrittenColumnReads | table/fragment_reader.go:29-60 | a column listed twice reads as the second data exactly if both pages have the same size, and as an error otherwise |
| Fragments.FragmentWriter.WriteColumn | table/fragment_writer.go:128-165 | touches only its own path; on success the page is on disk and listed last with the number of whole rows, also for a column written before, and the row count stays the largest of all |
| Fragments.FragmentWriter.WriteBatch | table/fragment_writer.go:168-175 | appends every column of the batch once, in any order, to whatever was written before |
| Fragments.FragmentWriter.Finish | table/fragment_writer.go:178-184 | a fragment with the largest row count of its files; the fragment of a batch if the files list the columns of that batch |
| Fragments.FragmentReader.ReadBatch | table/fragment_reader.go:63-77 | succeeds exactly if every column reads, and holds exactly those columns |
| Fragments.FindsTheFile | table/fragment_reader.go:29-36 | the data file of a column listed once is found |
| ManifestStore.ManifestStore.Commit | table/manifest_store.go:157-177 | the store after each of the five ways a commit can end |
| ManifestStore.ManifestStore.Write | table/manifest_store.go:38-48 | one file for one version, or no trace |
| ManifestStore.ManifestStore.ListVersions | table/manifest_store.go:86-113 | exactly the versions on disk, ascending |
| ManifestStore.ManifestStore.LatestVersion | table/manifest_store.go:74-83 | the largest version on disk, if any |
| CommitProtocol.OneSuccessPerVersion | table/manifest_store.go:157-177 | over any interleaving with crashes, at most one commit succeeds per expected version and the successes form one strictly increasing chain |
| CommitProtocol.CommittedManifestsStay | table/manifest_store.go:157-177 | no successful commit's manifest is ever overwritten |
| CommitProtocol.PointerAlwaysValid | table/manifest_store.go:134-177 | at every point of a run `_latest` is absent or names a written manifest |
| CommitProtocol.PointerIsLastCommit | table/manifest_store.go:134-152 | at every point of a run the pointer reads as the version of the last successful commit, and as 0 before the first |
| CommitProtocol.StepKeepsInv | table/manifest_store.go:157-177 | every store access of every committer keeps the protocol's invariant |
| CommitProtocol.MutualExclusion | table/manifest_store.go:157-159 | at most one committer is inside `Commit` |
| CommitProtocol.VersionsAccounted | table/manifest_store.go:157-177 | at every point of a run, the versions on disk are those from before, the committed ones, those that a failed pointer write or a crash left behind, and the one in progress |
| CommitProtocol.NewestIsLastCommit | table/manifest_store.go:74-83 | after a first success, the newest version listed is that of the last commit if and only if none is in progress and none from before or left behind lies above it |
| CommitProtocol.FailedPointerLeads | table/manifest_store.go:170-175 | right after a failed pointer write the newest version listed is above the last commit |
| CommitProtocol.CommitRefinesSteps | table/manifest_store.go:157-177 | the method does what its steps do, and counts as a success exactly when it returns nil |
| CommitProtocol.GrowingIsExact | table/manifest_store.go:157-177 | from any state with nobody inside `Commit`, a successful commit leaves the guarantee safe under every growing continuation if and only if its version is above the expected one |
| CommitProtocol.StagnationRepeats | table/manifest_store.go:157-177 | after a commit that did not grow, growing commits lead to a second success for the same expected version |
| VersionManager.CacheIsTopOfHistory | table/version_manager.go:30-75 | after any publishes, in any order and with repeats, the cache holds exactly the limit-many largest versions, each with its last-published manifest |
| VersionManager.TopIsUnique | table/version_manager.go:43-54 | that description leaves only one possible set of cached versions |
| VersionManager.LatestTracksCache | table/version_manager.go:110-137 | after any mix of publishes, removals and clearing, latest is the largest cached version or -1 |
| VersionManager.CacheHoldsLastWord | table/version_manager.go:30-137 | after any mix of operations the cache holds nothing but the manifest last published under a version and not removed since; without a limit, all of them |
| VersionManager.PublishEvictsOldest | table/version_manager.go:43-64 | a publish evicts at most the oldest version, and the loop never meets its latest-version guard |
| VersionManager.VersionManager.Publish | table/version_manager.go:30-39 | the cache after a publish |
| VersionManager.VersionManager.Evict | table/version_manager.go:43-54 | the loop evicts oldest first down to the limit, but never the latest |
| VersionManager.VersionManager.OldestVersion | table/version_manager.go:58-64 | the smallest cached version, or -1 |
| VersionManager.VersionManager.Remove | table/version_manager.go:110-118 | the cache after a removal |
| VersionManager.VersionManager.Clear | table/version_manager.go:131-137 | the empty cache |
| VersionManager.VersionManager.RecomputeLatest | table/version_manager.go:122-128 | the largest cached version, or -1 |
| VersionManager.VersionManager.Latest | table/version_manager.go:89-98 | in every reachable cache, the manifest of the newest cached version |
| KMeans.LloydRunDescends | index/ivf_flat.go:108-159 | Lloyd's descent: over a whole K-Means run the sum of squared distances to the assigned centroids never increases |
| KMeans.LloydDescent | index/ivf_flat.go:110-148 | one iteration of it: mean step, any re-seeding of empty clusters, re-assignment |
| KMeans.MeanIsOptimal | index/ivf_flat.go:137-139 | no point serves the members of a cluster better than their mean |
| KMeans.ParallelAxis | index/ivf_flat.go:120-139 | what moving a cluster's centroid costs, as an identity |
| KMeans.NearestIsOptimal | index/ivf_flat.go:57-75 | no other assignment has a smaller sum than the nearest centroids |
| KMeans.NearestCentroid | index/ivf_flat.go:57-75 | the first of the nearest centroids, or failure exactly if some distance call fails |
| KMeans.FirstNearestUnique | index/ivf_flat.go:60-73 | there is only one first nearest centroid |
| KMeans.AssignVectors | index/ivf_flat.go:57-75 | every vector under its first nearest centroid |
| KMeans.SumClusters | index/ivf_flat.go:115-125 | component sums and sizes of all clusters |
| KMeans.NewCentroid | index/ivf_flat.go:128-148 | the mean of a cluster and how far it moved; some data vector, not counted as moved, for an empty one |
| KMeans.MeanStep | index/ivf_flat.go:115-148 | all new centroids and their total movement |
| IvfFlatIndex.BuildDescends | index/ivf_flat.go:78-173 | the final clustering of a build, after the early break or the last iteration, is no worse than the starting one |
| IvfFlatIndex.BuildStops | index/ivf_flat.go:101-148 | a build makes at most 25 mean steps, and stops earlier exactly at the first one that moves the centroids by less than a millionth |
| IvfFlatIndex.SpreadEvenly | index/ivf_flat.go:94-99 | it starts from the first vectors of as many consecutive groups as there are partitions, whose sizes differ by at most one |
| IndexLaws.MovedNothing | index/ivf_flat.go:126-149 | a step moves the centroids by 0 exactly if it leaves all centroids with members in place |
| IndexLaws.MovedOne | index/ivf_flat.go:126-149 | and by the Euclidean distance that one goes if it moves alone, or by 0 if its cluster has no members |
| IvfFlatIndex.PartitionByNearest | index/ivf_flat.go:151-159 | a partition holds exactly the vectors whose first nearest final centroid is its own |
| IvfFlatIndex.PartitionsCoverOnce | index/ivf_flat.go:151-172 | probing every partition, in any ranking, visits every vector exactly once |
| IvfFlatIndex.ProbedOnce | index/ivf_flat.go:218-229 | a probe visits a vector once if its partition is probed and not otherwise |
| IvfFlatIndex.RankDomination | index/ivf_flat.go:190-231 | no i-th IVF score is better than the i-th flat score, and over all partitions the score sequences are equal |
| IvfFlatIndex.MoreProbesNeverWorse | index/ivf_flat.go:190-231 | scanning more partitions of a ranking never makes an i-th score worse |
| IvfFlatIndex.MoreProbesAnyRanking | index/ivf_flat.go:190-231 | the same for two searches that rank tied centroids differently, unless a tie runs across the last place the first one probes |
| IvfFlatIndex.SearchIsExact | index/ivf_flat.go:190-231 | with NProbes at least the number of partitions, or not set and at most ten of them, a search returns the scores of exhaustive search, which then succeeds too |
| IvfFlatIndex.ScansAsSet | index/ivf_flat.go:190-199 | a search scans all partitions in those cases, else as many of the nearest as NProbes says, else the ten nearest |
| IvfFlatIndex.RaisingProbes | index/ivf_flat.go:190-231 | raising NProbes, or setting it to ten or more, never makes an i-th score worse, unless the two searches rank tied centroids differently across the last place the first one probes |
| IvfFlatIndex.FindsAllWhen | index/ivf_flat.go:218-231 | asked for all results, a search has the scores of exhaustive search exactly if it probes the partition of every vector |
| IndexLaws.FindsSelf | index/ivf_flat.go:201-231 | a search for an indexed vector, with the metric of the build, scans that vector if no other centroid is as near as its own, or if it covers all partitions, and so scores no worse than the distance of the vector to itself |
| IndexLaws.OwnRowFirst | index/ivf_flat.go:201-231 | and returns its row first if no other vector is as near |
| IndexLaws.ResultIsVector | index/ivf_flat.go:218-229 | every result is the row of a vector in a probed partition, with the distance of that vector |
| IndexLaws.NoRowTwice | index/ivf_flat.go:218-231 | if rows are distinct no search returns one twice |
| IndexLaws.DuplicateIsEmpty | index/ivf_flat.go:57-75 | of two equal centroids the later one gets no vectors |
| IvfFlatIndex.IVFFlatIndex.constructor | index/ivf_flat.go:33-41 | at least one partition, and an empty index |
| IvfFlatIndex.IVFFlatIndex.Build | index/ivf_flat.go:78-173 | on success the fields hold the outcome of a finished K-Means run from evenly spread centroids; on failure the input was misshapen or K-Means reached centroids to which a distance call fails |
| IvfFlatIndex.IVFFlatIndex.Search | index/ivf_flat.go:176-232 | when it succeeds, that it then returns a top k of the partitions that NProbes asks for, nearest centroids first, and that it is exact if those are all |
| IvfFlatIndex.Cluster | index/ivf_flat.go:101-155 | runs rounds until the first one that moves less than the threshold or the 25th |
| IvfFlatIndex.Partition | index/ivf_flat.go:156-159 | lists, per cluster, the vectors assigned to it |
| IvfFlatIndex.RankCentroids | index/ivf_flat.go:201-216 | the centroids by distance to the query, each once |
| IvfFlatIndex.ScanProbes | index/ivf_flat.go:218-229 | the hits of the probed partitions, or failure exactly if some distance call fails |
| FlatIndex.FlatIndex.Build | index/flat.go:35-59 | succeeds exactly on non-empty vectors of one positive dimension |
| FlatIndex.FlatIndex.Search | index/flat.go:62-84 | when it succeeds, and that it then returns a top k of all vectors |
| IndexLaws.FlatResultIsVector | index/flat.go:72-83 | every result is the row of an indexed vector with its distance |
| FlatIndex.CheckShape | index/flat.go:35-50 | the shape checks that both indexes make |
| Metrics.CosineRange | distance/distance.go:17-30 | the cosine distance lies in [0, 2], by Cauchy-Schwarz |
| Metrics.CosineIdentical | distance/distance.go:17-30 | it is 0 from a vector to itself |
| Metrics.EuclideanTriangle | distance/distance.go:31-37 | the triangle inequality |
| Metrics.EuclideanOrder | distance/distance.go:31-37 | ranking by distance is ranking by its square |
| Metrics.DistanceSymmetric | distance/distance.go:13-48 | the three metrics are symmetric |
| Metrics.DistanceFailsWhen | distance/distance.go:13-48 | a call fails exactly on a length mismatch, an unknown metric, or a zero vector under cosine |
| MetricLaws.DotProductOrder | distance/distance.go:39-44 | under the dot product smaller is more similar: b ranks no later than c exactly if its dot product with the query is no smaller |
| MetricLaws.DotProductSelf | distance/distance.go:39-44 | a vector that is not zero has the negative square of its length as the distance to itself |
| MetricLaws.DotFromEuclidean | distance/distance.go:31-44 | Euclidean distances decide the dot product distance |
| MetricLaws.CosineLaw | distance/distance.go:17-37 | the law of cosines: Euclidean distances decide the cosine distance |
| MetricLaws.CosineOrthogonal | distance/distance.go:17-30 | it is 1 exactly for orthogonal vectors, and below 1 exactly for those on the same side |
| MetricLaws.CosineOfMultiple | distance/distance.go:17-30 | it is 0 for vectors of one direction and 2 for opposite ones, whatever their lengths |
| MetricLaws.EuclideanOnLine | distance/distance.go:31-37 | on a line the Euclidean distance is the difference |
| MetricLaws.EuclideanPythagoras | distance/distance.go:31-37 | over groups of components it adds up as squares |
| MetricLaws.EuclideanZero | distance/distance.go:31-37 | it is 0 exactly between equal vectors |
| MetricLaws.MetricsRankAlike | distance/distance.go:13-48 | among vectors of one length, such as normalised ones, all three metrics rank alike |
| Metrics.Measure | distance/distance.go:13-48 | the accumulating loops compute the closed form |
| SearchResults.ShardedTopK | query/reranker.go:14-26 | top k of each source and then a merge has the score sequence of the top k of everything |
| SearchResults.ShardedTopKFromSources | query/reranker.go:14-26 | the merged list is sorted and a sub-multiset of the sources |
| SearchResults.MergeCounts | query/reranker.go:14-26 | for every threshold a merge holds as many scores at most it as the sources, up to k, and all of them for a non-positive k |
| SearchResults.TopKCounts | distance/distance.go:65-78 | a top k without sorting: for every threshold, as many scores at most it as the input has, up to k |
| SearchResults.TopKScoresUnique | distance/distance.go:65-78 | however ties are broken, the score sequence is the same |
| SearchResults.TopKOfPartDominated | distance/distance.go:65-78 | choosing from fewer results never gives a better i-th score |
| SearchResults.TopK | distance/distance.go:65-78 | copies, sorts and cuts |
| SearchResults.MergeTopK | query/reranker.go:14-26 | concatenates, sorts and cuts; keeps everything for a non-positive k |
| TableScans.QuerySeesTable | query/hybrid_search.go:37-162 | end to end: at any version of any run, a query over kept columns, with a vector, a filter, both or neither and by either plan, answers like the same query over all batches committed up to that version, with a row's position as its ID; the rows of a vector answer are rows of that ranking with their distances, so only tied rows can stand for each other |
| TableScans.QueryIsRepeatable | query/hybrid_search.go:37-162 | a query at a version has the same scores in every later state of the run, and without a limit the same results |
| TableScans.QuerySeesBatches | query/hybrid_search.go:37-162 | the same for any fragments that hold given batches |
| TableScans.RankingMeaning | query/brute_force.go:54-87 | the ranking that answers are taken from holds, for each wanted row, its position in the table and its distance, and nothing else |
| TableScans.QuerySucceedsWhen | query/hybrid_search.go:37-162 | filter-first succeeds exactly if the matching rows have a distance; search-first and a plain vector query exactly if all rows have one; a filter alone always |
| TableScans.QueryMustFit | query/hybrid_search.go:37-162 | no query succeeds whose filter names an unknown column, or that scans a column that is not a vector column of its own dimension |
| TableScans.PlansPartWhen | query/hybrid_search.go:69-162 | over a table, filter-first answers where search-first fails exactly when every matching row has a distance and another row has none, which the metric and the zero vectors decide |
| SampleQuery.PlansPart | query/hybrid_search.go:69-162 | a stored table of two rows on which filter-first answers and search-first fails, under cosine with a zero vector in the row that does not match |
| TableScans.FilterSeesTable | query/scan_filter.go:24-72 | a filter over fragments selects exactly the positions of the concatenated columns whose values meet every condition |
| TableScans.ScanSeesTable | query/brute_force.go:54-87 | a scan over fragments computes the distances of the rows of the concatenated column, whatever the fragmentation |
| TableScans.VersionIsBacked | table/fragment_reader.go:39-60 | the fragments of any version of any run hold the batches committed up to it |
| HybridSearch.PlansAgree | query/hybrid_search.go:69-162 | the two plans have the same score sequence at every limit, and without a limit the same multiset of results |
| HybridSearch.StrategyInvisible | query/hybrid_search.go:37-66 | so does every pair of strategies, for every shape of query |
| HybridSearch.SearchFirstRefines | query/hybrid_search.go:140-162 | filtering the sorted results in place is one possible outcome of sorting the filtered ones |
| HybridSearch.FilterFirstUnique | query/hybrid_search.go:69-137 | the answer is unique up to ties |
| HybridSearch.SearchFirstSucceedsWhen | query/hybrid_search.go:69-162 | search-first succeeds exactly when filter-first and the full scan both do |
| HybridSearch.FilterFirstSucceedsAlone | query/hybrid_search.go:69-162 | and when some row matches, what can stop it alone is a row without a distance |
| HybridSearch.TableHitsFiltered | query/hybrid_search.go:94-131 | scanning only matching rows, with its skip and break, gives the matching hits of the full scan in order |
| HybridSearch.SearchWithStrategy | query/hybrid_search.go:37-66 | when each kind of query succeeds, and its answer |
| HybridSearch.RunFilterFirst | query/hybrid_search.go:69-137 | when it succeeds, and that it then returns the first results of a sort of the matching rows' hits |
| HybridSearch.RunSearchFirst | query/hybrid_search.go:140-162 | when it succeeds, and that it then returns the first matching results of a sort of all hits |
| HybridSearch.ScanMatching | query/hybrid_search.go:113-129 | the inner loop, which skips other rows and stops at the first matching row without a vector |
| HybridSearch.Compact | query/hybrid_search.go:155-160 | compaction in place keeps exactly the wanted results, in order |
| HybridSearch.ApplyLimit | query/hybrid_search.go:165-170 | a prefix, of the limit's length for a positive limit |
| BruteForce.Search | query/brute_force.go:41-94 | when it succeeds, and that it then returns a sorted permutation of the hits of all rows |
| BruteForce.ScanFragment | query/brute_force.go:71-86 | the inner loop, which stops at the first row without a vector |
| BruteForce.NothingAfterMissing | query/brute_force.go:71-86 | stopping there misses nothing, for the full scan and for any choice of rows |
| ScanFilter.FilterMeaning | query/scan_filter.go:24-72 | the row IDs are strictly increasing, and an ID is there exactly if it is the position of a row that meets every condition |
| ScanFilter.Filter | query/scan_filter.go:24-72 | succeeds exactly if every condition can be evaluated on every fragment or there are none, and gives those IDs; none without conditions |
| ScanFilter.FilterFragment | query/scan_filter.go:36-61 | the mask of the rows of one fragment that meet all conditions |
| ScanFilter.EvaluateColumn | query/scan_filter.go:75-122 | the mask of one condition; rows beyond the column's data never match |
| ScanFilter.MatchesCondition | query/scan_filter.go:125-150 | every operator in terms of order and equality |
| ScanFilter.ValuesEqual | query/scan_filter.go:168-181 | equality of numbers of any type, and of strings |
| ScanFilter.CompareNumeric | query/scan_filter.go:183-199 | the sign of a comparison, or none for values that are not numbers |
| ScanFilter.InSet | query/scan_filter.go:201-212 | membership in a slice |
| ScanFilter.BetweenRange | query/scan_filter.go:214-230 | both bounds of a slice of two numbers |
| FilterLaws.NumbersCompare | query/scan_filter.go:125-199 | EQ, NE, LT, GT, LE and GE hold of two numbers, integers or floats in any mix, exactly if the relation holds of the floats and of the nearest float64 of the integers |
| FilterLaws.TextsCompare | query/scan_filter.go:168-181 | strings are equal as bytes, and no order operator holds of them |
| FilterLaws.OthersDiffer | query/scan_filter.go:168-199 | a number and a string, or any other values, are unequal and have no order |
| FilterLaws.InFindsNumber | query/scan_filter.go:201-212 | In finds exactly an equal number, whatever else the slice holds |
| FilterLaws.InFindsText | query/scan_filter.go:201-212 | and exactly the same string |
| FilterLaws.BetweenBounds | query/scan_filter.go:214-230 | Between takes both ends in |
| FilterLaws.NeverMatch | query/scan_filter.go:125-230 | no value meets an unknown operator, a slice operator without a slice, or Between on anything but two numbers |
| FilterLaws.RowsCompare | query/scan_filter.go:75-166 | a row of an integer or float column meets a condition on a number exactly if its own number does |
| FilterLaws.TextRowsCompare | query/scan_filter.go:75-122 | and a row of a string column exactly if its bytes do |
| FilterLaws.NoRow | query/scan_filter.go:75-122 | data that is too short, or of a type that filters cannot compare, has no matching row |
| FilterLaws.NoConditionsNoRows | query/scan_filter.go:24-27 | without conditions no row is selected, although every row meets all of them |
| ScanFilter.RoundingOnlyMerges | query/scan_filter.go:125-166 | EQ, NE, LT, GT, LE and GE compare integers as they are, except that two with the same nearest float64 compare as equal |
| ScanFilter.RoundingOnlyMergesInSlices | query/scan_filter.go:201-230 | the same for In and Between |
| ScanFilter.ExactExactlyUpTo | query/scan_filter.go:125-230 | conditions of every operator decide as if integers were not rounded, on all integers up to a bound, if and only if the bound is at most 2^53 |
| Float64.RoundedIsFloat | query/scan_filter.go:154-159 | the modelled conversion gives a value that a float64 can have |
| Float64.RoundedIsNearest | query/scan_filter.go:154-159 | and no value that a float64 can have is nearer |
| Float64.RoundedMonotone | query/scan_filter.go:154-159 | it never swaps two integers |
| MiniBlock.PageRoundTrip | encode/miniblock.go:28-111 | decoding an encoded page gives the column back, for every type, block size and lossless compression, and ignores what follows the page |
| MiniBlock.PageReadAs | encode/miniblock.go:54-92 | a page decoded as any type is the serialised data taken as that type |
| MiniBlock.RetypedRead | encode/miniblock.go:156-173 | data serialised as one type and read as another comes back exactly if both are the same Go slice; as a type that cannot be stored it is an error |
| MiniBlock.RetypedWords | encode/miniblock.go:194-279 | between integers and floats of one width the words stay |
| MiniBlock.PagePrefixFails | encode/miniblock.go:54-92 | decoding fails on every proper non-empty prefix of a page |
| MiniBlock.UncompressedRoundTripExact | encode/miniblock.go:28-111 | without compression the round trip holds exactly if string lengths and the number of blocks fit in 32 bits |
| MiniBlock.OversizedStringIsLost | encode/miniblock.go:226-234 | a string of 2^31 bytes is encoded without an error; its page panics in the decoder, or reads as empty if the number of blocks overflows too |
| MiniBlock.ColumnRoundTrip | encode/miniblock.go:113-173 | serialised values survive exactly if string lengths fit |
| MiniBlock.StringsRoundTrip | encode/miniblock.go:281-299 | strings survive exactly if their lengths fit |
| MiniBlock.StringsOfPrefix | encode/miniblock.go:281-299 | any prefix of serialised strings reads as exactly the strings wholly inside it |
| MiniBlock.WholeWithinIsMaximal | encode/miniblock.go:281-299 | no further string lies wholly inside the prefix |
| MiniBlock.ShortenedColumn | encode/miniblock.go:245-319 | losing bytes at the end of a serialised column loses values |
| MiniBlock.BlocksJoin | encode/miniblock.go:94-111 | the blocks, cut regardless of elements, join to the bytes |
| PageFormat.Layout | encode/miniblock.go:28-51 | a page is the encoding, the number of blocks and the block size asked for, four bytes each, lowest first, and then the compressed blocks of that size, or of 4096 bytes if it is not positive |
| PageFormat.NumberFormat | encode/miniblock.go:194-224 | value i of a number column lies at i times its width, lowest byte first, integers in two's complement |
| PageFormat.StringFormat | encode/miniblock.go:226-243 | string i, and block i of a page, lies behind those before it, with its length in the four bytes in front |
| PageFormat.BlockAt | encode/miniblock.go:94-111 | block i is the i-th stretch of the block size, the last one whatever is left |
| PageFormat.BlockCount | encode/miniblock.go:94-111 | no more blocks than the bytes need |
| PageFormat.StoredExactly | encode/miniblock.go:113-154 | a column is stored exactly if the codec knows its type and it is a slice of it |
| PageFormat.EmptyPage | encode/miniblock.go:54-57 | no bytes read as a column of no rows, for exactly the types that can be stored |
| MiniBlockCodec.EncodePage | encode/miniblock.go:28-51 | the loop writes the specified page |
| MiniBlockCodec.DecodePage | encode/miniblock.go:54-92 | the loop reads what the specification reads, with its errors and panics |
| MiniBlockCodec.CutBlocks | encode/miniblock.go:94-111 | the loop cuts the specified blocks, also for non-positive sizes |
| MiniBlockCodec.SerializeColumn | encode/miniblock.go:113-154 | the type dispatch and its loops |
| MiniBlockCodec.DeserializeColumn | encode/miniblock.go:156-173 | the type dispatch and its loops |
| MiniBlockCodec.PutStrings | encode/miniblock.go:226-243 | length-prefixed strings |
| MiniBlockCodec.GetStrings | encode/miniblock.go:281-319 | reads until the first incomplete string |
| BufferPool.Inclusion | storage/buffer_pool.go:35-108 | on any read-through accesses the smaller pool's recency list is a prefix of the larger one's |
| BufferPool.HitInclusion | storage/buffer_pool.go:35-74 | every hit in the smaller pool is a hit in the larger |
| BufferPool.InclusionBySize | storage/buffer_pool.go:35-108 | for keys and hits a fixed size for each key is enough, whatever its contents |
| BufferPool.FitIsLongest | storage/buffer_pool.go:97-108 | eviction keeps the longest recent prefix that fits |
| BufferPool.AccessForm | storage/buffer_pool.go:35-74 | hit or miss, the key ends up in front and nothing is evicted without need |
| BufferPool.PoolHoldsLastPut | storage/buffer_pool.go:35-108 | after any gets, puts and removals there is at most one entry for a key, the one last put and not removed since, and never more bytes than the capacity |
| BufferPool.PutThenHeld | storage/buffer_pool.go:50-74 | what was put is the most recent entry exactly if it fits the pool at all, and empties it otherwise |
| BufferPool.NothingEvicted | storage/buffer_pool.go:97-108 | while all that was put fits, a key is held exactly if it was put and not removed since |
| BufferPool.BufferPool.Get | storage/buffer_pool.go:35-47 | the contents of a key, which moves to the front |
| BufferPool.BufferPool.Put | storage/buffer_pool.go:50-74 | the recency list after a new or replaced key; map, list and byte counter stay in step |
| BufferPool.BufferPool.Remove | storage/buffer_pool.go:77-87 | takes out one key |
| BufferPool.BufferPool.Stats | storage/buffer_pool.go:90-94 | the byte counter is the size of everything held |
| BufferPool.BufferPool.Evict | storage/buffer_pool.go:97-108 | drops entries from the back until the rest fits |

## Left out

- IvfFlatIndex.MoreProbesNeverWorse: for two searches with one ranking; with two rankings, MoreProbesAnyRanking needs that no tie of centroids runs across the last place probed.
- TableRuns.AsyncConservation: batches share one set of columns and types, because a merge that fails half way counts no rows; the half merge is in the contract of Accumulate, not in the runs.
- TableRuns.SnapshotIsolation: one writer at a time; an async writer's phase ends with a re-open.
- TableRuns.CloseBarrier: the writer's context is never cancelled.
- TableScans.QuerySeesTable: vector columns whose data length is the number of rows times the dimension; shorter data is covered by the contracts of the scans.
- ScanFilter.Filter: which of error and panic is reported is stated one way only, a panic needs a read that panics.
- The background loop is its arms and one event for each, not an endless loop; a timer may fire at any time.
- Reads of the store that fail other than by absence or unreadable contents; listing always succeeds.
- Wrap-around of 32-bit and 64-bit version, fragment, column and row numbers.
- Floating-point rounding of distances, NaN and infinities; only integers in filters are rounded.
- Cancellation of contexts, and the results channel.
- Bodies of zstd and lz4; JSON of manifests and indexes, taken as the identity; `Save` and `Load` of indexes.
- Creating a table over an existing one, and deleting a version during a run.
- Timestamps, tags, deletion files, row counts, and slices that share memory after append.
- The local file system, configuration, logging, the query builder and the database directory.
- The constant encoder and the file footer, which are easy next to the page codec.
- Two manifest stores over one directory: the mutex belongs to one of them.
