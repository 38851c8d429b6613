# XVector hand-over, catalog and search: a verified model

XVector runs an embedded vector engine behind two processes that share one data
directory.  The **Writer** opens partition directories read-write, one at a
time; the **Reader** keeps read-only handles and serves searches.  A partition
must never be opened read-only while a write-ahead log file (`*.wal`) is left
in it, and a write must not meet a Reader handle.  Both processes share a
catalog that the Writer keeps in an engine store and publishes as a JSON
snapshot.  This project models that code and proves what it keeps.

`dafny verify dfyconfig.toml` checks everything.

## What is modelled, file by file

| files | part of the system |
|---|---|
| `Partitions.dfy`, `KeyText.dfy`, `LockText.dfy` | the handle cache and the fence set as values; the two locked blocks of `open_partition`; the string keys and their prefixes; the text of the pending-log error and the test for lock conflicts |
| `CollectionManager.dfy` | `CollectionManager` as a class that mutates `handles` and `fenced`, with the retry loop and the seal |
| `HandOver.dfy` | the Reader's handlers and refresh pass, `_maybe_refresh`, and the Writer's insert/upsert/delete under `with_reader_released`, run without interference on shared directories, with every failure they can meet |
| `Protocol.dfy` | the same handlers as a step system: one step for each locked block and each stretch between awaits, any number of tasks, every interleaving |
| `FenceWindow.dfy`, `Freshness.dfy`, `Notices.dfy`, `RefreshPasses.dfy`, `ReadYourWrites.dfy`, `WriteOutcomes.dfy` | theorems over all runs of that system |
| `Overlap.dfy`, `StarFence.dfy` | two concrete runs in which it does less than one expects |
| `Naming.dfy` | document ids: the encoding of a type and a path of names in one string |
| `Relations.dfy`, `CatalogEffects.dfy`, `CatalogIntegrity.dfy`, `CatalogUndo.dfy` | the catalog as a set of typed documents, all service operations on it, what each of them leaves, referential integrity, and what one operation undoes of another |
| `CatalogSteps.dfy` | the same operations document by document, stopped after any of their writes |
| `Crash.dfy`, `MetaStore.dfy` | the metadata store: engine write, cache, temporary file, replace; crashes after any step; what a Reader observes |
| `FlatStore.dfy`, `CatalogService.dfy` | the catalog and services as they work on the flat string-keyed store, refining `Relations.dfy` by exactly the writes of `CatalogSteps.dfy` |
| `Search.dfy` | the merge of a multi-partition search |
| `Fusion.dfy`, `RankFusion.dfy`, `WeightedFusion.dfy` | hybrid search: reciprocal rank fusion and weighted fusion |
| `Bits.dfy`, `Snowflake.dfy` | bit packing, automatic Int64 keys |
| `EntityCodec.dfy` | entities to engine documents and back |
| `ImportJob.dfy` | the batched import job |
| `HalfFloat.dfy` | `toFloat16` of the search tab, on bit patterns |
| `Wrappers.dfy` | options and results |

## How to read the model

* **Versions and time.** Every event of the step system has a number.  The
  version of a partition is the number of the last write to it; a handle
  records the event that opened it and the version it found.
* **What the environment may do** is a parameter of the step: whether an engine
  open succeeds, meets a lock conflict or breaks, whether a log file appears or
  disappears, whether a notification is delivered or lost.  Theorems quantify
  over all of it.
* **The engine's lock** is shared by read-only handles and exclusive for the
  Writer.  In the step system the Writer's open, write and close is one step: it
  is refused, and the operation raises, while a Reader handle is on that
  directory.  A handle on a directory that was dropped and made anew is on
  another directory.
* **`coord_lock`** of the Reader is not used: it only removes interleavings, so
  every theorem holds for more runs than the program has.
* **Partition lists.** `[]` stands for a missing or empty list.
* **Names**, but for those of indexes, contain no `/`; where a theorem needs the
  id encoding to be injective, it says which names must hold no `__` and not end
  in `_`.

## Where the code does less than it promises

Each of these is a theorem about a concrete input, beside the condition under
which the promise holds.

* A fence request that spells the partition name `*` fences the collection
  without closing it (`Partitions.LiteralStarBreaksExclusion`,
  `Partitions.FenceKeepsExclusionIff`); the refresh loop then passes over the
  handles left (`StarFence.PassMissesStarFenced`,
  `RefreshPasses.CompletedPassBoundsStaleness`).  `*` is not a valid partition
  name but the request is not checked.
* Fences are not counted: the first of two overlapping writes on one collection
  lifts the fence of the second, the Reader reopens, and the second write cannot
  get the engine's lock and raises, although every notice was delivered
  (`Overlap.OverlapRefusesWrite`; that it takes another task's unfence is
  `WriteOutcomes.RefusedMeansLifted`).  No stale read comes of it
  (`ReadYourWrites.NoStaleHandleSurvives`).
* `insert` leaks its Writer handle exactly when an entity cannot be converted
  (`HandOver.InsertLeaks`, `HandOver.InsertBody`); `upsert` and `delete` do not.
* The error for a pending log file says "blocks", so it passes for a lock
  conflict exactly when the key mentions "collection", or itself says that
  something cannot be locked, which takes a space (`LockText.WalErrorInputs`,
  `LockText.WalErrorPassesIff`, `LockText.WalErrorPassesForNamesIff`).  The
  Reader calls with `retries=0`, so nothing follows.
* The name pattern alone does not keep ids apart: `a_`/`b` and `a`/`_b` share
  one (`Naming.ValidNamesCollide`, `Naming.ParseJoinedIff`).  The pattern also
  admits one final newline.  Index names are not validated: `a/b` and `a__b` are
  one index (`FlatStore.IndexNamesCollide`, `FlatStore.IndexIdsCollideIff`), and
  creating the one replaces the other (`CatalogUndo.CreateIndexReplacesIff`).
* Dropping or renaming a collection deletes its own document first.  Stopped
  before everything that needs it is deleted too, it leaves documents of a
  collection that does not exist, and a rename has lost the collection under
  both names (`CatalogSteps.HalfRemovalBreaks`,
  `CatalogSteps.CutKeepsIntegrityIff`, `CatalogSteps.RenameLosesIff`).  Creating
  the collection again repairs it (`CatalogSteps.CreatingAgainRepairs`).  Every
  other operation may stop anywhere.
* A crash inside a change, then a start whose engine scan fails, then further
  changes, then a start whose scan works: a change that had been lost comes
  back (`Crash.FailedScanResurrects`, `Crash.RecoversInSyncIff`; over whole runs
  `Crash.HistoryIsExactIff`).
* A delete on a metadata store that has been closed goes past the missing engine
  handle and publishes an empty snapshot (`MetaStore.DeleteAfterCloseEmpties`).
* A result item in flattened form loses fields called `id`, `score` or
  `distance` (`EntityCodec.FlatLosesScore`, `EntityCodec.FlatRoundTripIff`).
* A hybrid search may ask for a negative rank constant; dominance then fails
  for every k below -2 (`RankFusion.NegativeKBreaksDominance`,
  `RankFusion.RrfDominanceIff`).
* A clock that goes back repeats ids (`Snowflake.BackwardsClockRepeats`,
  `Snowflake.IncreasesIff`).
* `toFloat16` loses a carry when the significand rounds up at an odd exponent
  and returns half of the nearest value (`HalfFloat.LostCarryRoundsDown`,
  `HalfFloat.ErrorWithinHalfUlpIff`); it turns NaNs into infinities
  (`HalfFloat.AboveThreshold`).

## Model

| member | source | states |
|---|---|---|
| `FenceWindow.NamedFenceWindow` | xvector/engine/collection_mgr.py:99-142 | in every interleaving, from the step that fences a partition by name until a step that lifts that fence, the partition has no Reader handle |
| `FenceWindow.WholeFenceWindow` | xvector/engine/collection_mgr.py:110-142 | the same for a collection-wide fence, until any unfence in the collection (which always drops it) |
| `FenceWindow.ExclusionAlways` | xvector/engine/collection_mgr.py:140-142 | in every run without a literal `*` fence, no cached Reader handle is fenced in any way |
| `FenceWindow.NamedExclusionAlways` | xvector/engine/collection_mgr.py:99-142 | in every run whatsoever, no cached Reader handle is fenced under its own name |
| `FenceWindow.EveryOpenIsClean` | xvector/engine/collection_mgr.py:209-216 | every handle the Reader obtains in any run is opened on an unfenced partition without a log file and shows the version then on disk |
| `Partitions.ReaderOpensOnlyCleanUnfenced` | xvector/engine/collection_mgr.py:204-223 | exactly when the second locked block of open_partition opens on the Reader, and with what |
| `Partitions.FenceCloses` | xvector/engine/collection_mgr.py:99-121 | after a fence every partition it names, or the whole collection, is closed and fenced |
| `Partitions.FenceKeepsExclusionIff` | xvector/engine/collection_mgr.py:99-121 | a fence keeps "no handle under a fence" exactly when it does not spell `*`, or leaves nothing for that wildcard to cover |
| `Partitions.LiteralStarBreaksExclusion` | xvector/engine/collection_mgr.py:105-109 | a fence that names `*` leaves an open handle under a fence |
| `Partitions.UnfenceUndoesFenceIff` | xvector/engine/collection_mgr.py:99-138 | unfencing what was fenced restores the fences exactly when none of those it drops stood before: fences are not counted, and the collection-wide one always goes |
| `Protocol.EventFrame` | xvector/engine/collection_mgr.py:174-230 | one event adds only clean handles, and versions on disk never go back |
| `Freshness.RefreshedReadsAreFresh` | xvector/services/vector.py:47-74 | a refreshed read uses only handles opened after it began, each showing at least what was on disk then, and if it returns it has read every partition asked for |
| `Freshness.SeenAlways` | xvector/services/vector.py:56-74 | in every run, what a request has closed stays closed or is held by a handle opened since the request began and not older than the disk at that moment |
| `Notices.CloseNoticeCloses` | xvector/api/reader_app.py:156-170 | in every run, a close notice that has been answered has closed each partition it is about, and with a fence fenced it in the same step |
| `Notices.NoticeLifts` | xvector/api/reader_app.py:130-148 | a notice to open or to unfence that has been answered has lifted the fences of what it names |
| `Notices.OpenNoticeOpens` | xvector/api/reader_app.py:130-154 | a notice to open that returns has opened each partition it names or found a log file in it |
| `Notices.OperationFencesAndLifts` | xvector/services/context.py:124-178 | an operation that is over, however it ended, has fenced and closed what it is about if its close notice was delivered, and lifted the fences of what it reopens if its last notice was |
| `Notices.PassReopensAll` | xvector/api/reader_app.py:67-93 | a refresh pass that has run to its end has found each partition it came to fenced, or closed it and come to reopen it |
| `Notices.ReloadReplacesAll` | xvector/api/reader_app.py:181-221 | a reload that has been answered has closed every partition that was open when it read the keys, and then come to reopen each, where only a fence, a log file, a missing directory or the engine kept it closed |
| `RefreshPasses.CompletedPassBoundsStaleness` | xvector/api/reader_app.py:57-93 | no partition's failure ends a refresh pass, only a catalog read that raises; whatever it has closed is closed or reopened since it began; once it has run to its end, handles of collections visited as not loaded are no older than the pass, and so are those of visited partitions, but for those it found fenced and yet open |
| `RefreshPasses.RaisedOnRead` | xvector/api/reader_app.py:57-93 | a pass that raises has failed to read the catalog |
| `RefreshPasses.MissedNeedsStar` | xvector/api/reader_app.py:67-93 | which happens in no run without a literal `*` fence |
| `StarFence.PassMissesStarFenced` | xvector/api/reader_app.py:67-93 | and happens in a run with one |
| `ReadYourWrites.HandlesAlwaysCurrent` | xvector/engine/collection_mgr.py:20-31 | in every run, whatever overlaps and whatever notices are lost, a Reader handle on the directory on disk shows exactly what is there, with no log file beside it |
| `ReadYourWrites.AttachedUnlessDropped` | xvector/engine/collection_mgr.py:20-31 | a Reader handle is on the directory on disk unless the partition was dropped since it was opened |
| `ReadYourWrites.NoStaleHandleSurvives` | xvector/services/context.py:124-178 | in every run: once a version is written, every next open of the Reader shows at least it, and so does every cached handle unless the partition was dropped since it was opened; a pending log file makes the open fail |
| `ReadYourWrites.RefusedOnlyUnfenced` | xvector/services/context.py:124-130 | a write that meets a Reader handle meets it where no fence of that name stands |
| `WriteOutcomes.RefusedMeansLifted` | xvector/api/reader_app.py:130-148 | if the close notice was delivered and a write is refused although partition and engine are fine, another task has lifted the operation's fence since |
| `WriteOutcomes.ReturnedWroteAll` | xvector/services/vector.py:187-208 | an operation that has returned has written every partition it was to write |
| `WriteOutcomes.ReturnedIsVisible` | xvector/services/context.py:124-178 | after it has returned, in every run, the Reader shows at least what it wrote through any handle it has or opens next, unless the partition was dropped since that handle was opened |
| `ReadYourWrites.NoWriteIsRefused` | xvector/services/context.py:124-178 | with operations on one collection that do not overlap and delivered close notices, every write goes through when the partition exists and the engine works |
| `Overlap.OverlapRefusesWrite` | xvector/services/context.py:124-130 | a run of two overlapping operations with all notices delivered in which the second raises without having written |
| `KeyText.TextInjective` | xvector/engine/collection_mgr.py:40-42 | distinct partitions have distinct cache keys when names hold no slash |
| `KeyText.PrefixIsMembership` | xvector/engine/collection_mgr.py:297-305 | a key starts with a collection's prefix exactly when it belongs to the collection |
| `KeyText.SlashConfusesCollections` | xvector/engine/collection_mgr.py:40-42 | with a slash in a name both fail |
| `LockText.WalErrorPassesIff` | xvector/engine/collection_mgr.py:44-49 | the pending-log error passes the test for lock conflicts exactly when the key mentions "collection", "can't lock" or "cannot lock" |
| `LockText.WalErrorPassesForNamesIff` | xvector/engine/collection_mgr.py:208-213 | without a space in the key exactly when it mentions "collection" |
| `LockText.WalErrorInputs` | xvector/engine/collection_mgr.py:44-49 | two keys whose error passes, and one whose does not |
| `CollectionManager.OpenPartitionMeaning` | xvector/engine/collection_mgr.py:174-230 | when open_partition succeeds, with which handle, and with which error it fails: through lock conflicts up to `retries`, past nothing else, never under a fence or over a log file on the Reader |
| `CollectionManager.OpenRunTouches` | xvector/engine/collection_mgr.py:174-230 | without force_reopen nothing but this partition's log flag changes on disk |
| `CollectionManager.CollectionManager.OpenPartition` | xvector/engine/collection_mgr.py:174-230 | the retry loop with its two locked sections ends in the state and result of the specification, or NotFound with nothing changed |
| `CollectionManager.CollectionManager.FencePartitions` | xvector/engine/collection_mgr.py:99-121 | the new handles and fences, and which log flags the released Writer handles leave |
| `CollectionManager.CollectionManager.UnfencePartitions` | xvector/engine/collection_mgr.py:123-138 | exactly the named fences and always the collection-wide one are gone |
| `CollectionManager.CollectionManager.ClosePartition` | xvector/engine/collection_mgr.py:232-245 | one handle is gone; it is flushed by default on the Writer only |
| `CollectionManager.CollectionManager.CloseAllPartitions` | xvector/engine/collection_mgr.py:297-305 | exactly the handles of the collection are gone |
| `CollectionManager.FlushedAllIs` | xvector/engine/collection_mgr.py:297-305 | each released Writer handle leaves the log flag of its own flush, and no other partition changes |
| `Partitions.CloseCollectionCloses` | xvector/engine/collection_mgr.py:297-305 | the handles of the collection go, all others and all fences stay |
| `CollectionManager.CollectionManager.LockedLookup` | xvector/engine/collection_mgr.py:186-202 | the first critical section |
| `CollectionManager.CollectionManager.LockedOpen` | xvector/engine/collection_mgr.py:203-223 | the second critical section: fence and cache are checked again |
| `CollectionManager.CollectionManager.OpenForWriting` | xvector/services/vector.py:129-131 | the Writer's open: success, handle and untouched rest, with retries; NotFound exactly for a missing directory, and a failure changes no file |
| `CollectionManager.CollectionManager.FlushPartition` | xvector/engine/collection_mgr.py:247-295 | seal: on an idle partition a normal return leaves no handle and no log file; in use, the very same handle stays cached; and exactly when it raises, with which error, and which log flag it leaves |
| `CollectionManager.CollectionManager.InternalFlush` | xvector/api/writer_app.py:63-81 | the seal endpoint reports an error for exactly the partitions that failed |
| `HandOver.Reopen` | xvector/api/reader_app.py:149-153 | one forced reopen on the Reader succeeds exactly on an existing, unfenced partition without a log file that the engine opens at once; no other partition is touched |
| `HandOver.InternalOpen` | xvector/api/reader_app.py:130-154 | fences lifted; what was closed is closed or current; success means every partition without a log file is open; it succeeds whenever the engine lets it open what is there |
| `HandOver.InternalClose` | xvector/api/reader_app.py:156-170 | closed, and fenced unless the request says otherwise; other handles untouched |
| `HandOver.InternalReload` | xvector/api/reader_app.py:181-221 | unreadable catalog: nothing happens; otherwise every handle left was opened here, is current, unfenced and beside no log file; and when seals and openings work, what was open and is not fenced is open again |
| `HandOver.VisitPart` | xvector/api/reader_app.py:67-93 | one turn of the refresh loop leaves the partition closed or current; sealed and not fenced it is open again whenever the engine opens it |
| `HandOver.RefreshPass` | xvector/api/reader_app.py:57-93 | one pass makes everything it visited fresh, up to a catalog read that raises; when seals and openings work, everything it visited as loaded, and not also as not loaded, is open afterwards unless fenced |
| `HandOver.MaybeRefresh` | xvector/services/vector.py:47-74 | after a refresh every listed partition is closed or shows what is on disk through a handle opened here; it has a log file exactly when the seal left one, and without one, unfenced and opened by the engine, it is open; others untouched |
| `HandOver.UpsertBody` | xvector/services/vector.py:155-175 | success exactly when the open, every conversion and every write worked, with the error of the first that did not; the partition has a new version exactly when a write reached the disk, and the log flag that the close leaves; the Writer handle is closed on every path |
| `HandOver.LandedIff` | xvector/services/vector.py:161-170 | of the writes counted at least one reached the disk exactly when one of those tried did, up to and including the one that fails |
| `HandOver.InsertBody` | xvector/services/vector.py:128-143 | the outcome and the version as for an upsert, in one write; the Writer handle stays cached exactly when the open went through and a conversion raised |
| `HandOver.InsertLeaks` | xvector/services/vector.py:128-143 | an input on which it does |
| `HandOver.DeleteBody` | xvector/services/vector.py:187-208 | partitions in order up to the first failure, and which one it is; a partition has a new version exactly when a delete tried on it reached the disk, and the log flag of its last close; every handle opened is closed |
| `HandOver.EnterReleased` | xvector/services/context.py:132-140 | the close notice fences, if delivered |
| `HandOver.LeaveReleased` | xvector/services/context.py:141-176 | seal, then reopen or unfence, each with its own failures: the Reader ends closed or current, the fences are lifted exactly when the notice arrives, the Writer's cache is unchanged; after a reopening that worked a partition is open exactly when no log file is left in it |
| `HandOver.SealNamed` | xvector/api/writer_app.py:63-81 | the seal of the partitions written, beside a Reader whose handles keep showing what is on disk |
| `HandOver.SealQuietly` | xvector/engine/collection_mgr.py:247-295 | the log flag one seal leaves: that of the flush in place, or of the close, or the old one when the open does not get through in nine attempts |
| `HandOver.Upsert` | xvector/services/vector.py:146-176 | whatever fails in write, seal or reopen, whether the close notice was delivered or not: no stale Reader handle, no leaked Writer handle, success exactly when everything was written; a version of this call is on disk exactly when a write reached it, and after a reopening without a log file the Reader shows it |
| `HandOver.Insert` | xvector/services/vector.py:119-144 | the same for an insert, but for the Writer handle that a bad entity leaves |
| `HandOver.Delete` | xvector/services/vector.py:178-209 | the same for a delete over several partitions, partition by partition, on success and on failure |
| `Naming.TypeRecovered` | xvector/meta/docs.py:23-26 | the document type is recovered from any id, for any key |
| `Naming.SplitJoinIff` | xvector/meta/docs.py:23-26 | leftmost-separator splitting undoes one joining exactly when the first name holds no `__` and does not end in `_` |
| `Naming.ParseJoinedIff` | xvector/meta/docs.py:23-26 | leftmost-separator parsing is the inverse of the encoding exactly when all names but the last are of that kind |
| `Naming.MakeIdInjective` | xvector/meta/docs.py:23-26 | no two documents share an id on such names |
| `Naming.ValidNamesCollide` | xvector/common/paths.py:10-26 | two collections in two databases, all names valid, with one id |
| `Naming.ValidNameIff` | xvector/common/paths.py:10-26 | the valid names, by letters: a letter or underscore, up to 254 more letters, underscores and digits, possibly a final newline, and not the reserved name |
| `FlatStore.IdInjective` | xvector/meta/docs.py:8-26 | an id names one typed document key |
| `FlatStore.IndexIdsCollideIff` | xvector/meta/catalog.py:181-197 | two index names of a collection share an id exactly when they differ only in `/` for `__` |
| `FlatStore.IndexNamesCollide` | xvector/meta/docs.py:23-26 | an input |
| `FlatStore.LookupRefines` | xvector/meta/store.py:168-176 | a lookup by id answers for exactly that document key |
| `FlatStore.StoreRefines` | xvector/meta/store.py:137-166 | storing under an id replaces the document of that key and no other |
| `FlatStore.RemoveRefines` | xvector/meta/store.py:178-187 | removing an id removes the document of that key and no other |
| `CatalogIntegrity.ApplyKeepsIntegrity` | xvector/services/collection.py:42-70 | every service operation that does all its writes, or raises before or between them over files, keeps referential integrity |
| `CatalogIntegrity.IntegrityAlways` | xvector/meta/catalog.py:42-247 | aliases, partitions, indexes and loaded states name existing collections, and collections existing databases, after any sequence of such operations |
| `CatalogSteps.WritesAreApply` | xvector/meta/catalog.py:104-115 | the writes of an operation, one document at a time and in whatever order the lists come, add up to the operation |
| `CatalogSteps.CutKeepsIntegrityIff` | xvector/meta/catalog.py:104-115 | an operation stopped after any number of its writes leaves referential integrity exactly when it is no removal, or has not begun, or has deleted everything that needs the collection |
| `CatalogSteps.RemovalSafeIff` | xvector/meta/catalog.py:104-115 | a drop or rename may stop anywhere exactly when nothing needs the collection |
| `CatalogSteps.RenameLosesIff` | xvector/services/collection.py:121-140 | a rename has the collection under neither name exactly between its first delete and its first copy, and is refused when asked for again |
| `CatalogSteps.CreatingAgainRepairs` | xvector/services/collection.py:42-59 | after such a stop, creating the collection again restores referential integrity |
| `CatalogSteps.HalfRemovalBreaks` | xvector/meta/catalog.py:104-115 | the drop and the rename of a collection just created, stopped after the first delete |
| `CatalogSteps.IntegrityUnderCutsIff` | xvector/meta/store.py:137-187 | over any run of operations that may each stop after any write, every catalog has referential integrity exactly when every stop is harmless |
| `CatalogIntegrity.ResolutionIsSound` | xvector/meta/catalog.py:171-178 | from a seeded catalog: name resolution is idempotent, and an alias always resolves to a collection that exists |
| `CatalogIntegrity.DefaultDatabaseStays` | xvector/meta/catalog.py:52-61 | no operation removes the default database |
| `CatalogIntegrity.RenameRelabels` | xvector/services/collection.py:109-141 | after a rename partitions, index definitions and schema stand under the new name, nothing under the old one, all other documents untouched, aliases gone |
| `CatalogIntegrity.RenameKeepsLoadState` | xvector/services/collection.py:133-140 | in every catalog reached from the seeded one, the load state moves unchanged, replica number included |
| `CatalogIntegrity.ReplicatedAlways` | xvector/common/models/common.py:104-104 | no stored load state ever has less than one replica |
| `CatalogEffects.CreateDatabaseLeaves` | xvector/services/collection.py:19-24 | refused for an invalid or existing name; otherwise one document more |
| `CatalogEffects.DropDatabaseLeaves` | xvector/meta/catalog.py:52-61 | refused for the default database, an unknown one, and one with a collection; otherwise one document less |
| `CatalogEffects.CreateCollectionLeaves` | xvector/services/collection.py:42-59 | every refusal with its error; otherwise the schema, the default partition and a load state that says not loaded, or the first two when the directory fails, and nothing else changes |
| `CatalogEffects.DropCollectionLeaves` | xvector/services/collection.py:61-70 | through an alias too: exactly the documents that name the collection are gone |
| `CatalogEffects.RenameFailsIff` | xvector/services/collection.py:109-120 | exactly when a rename fails, and how |
| `CatalogEffects.RenameKinds` | xvector/services/collection.py:129-130 | each partition moves with the kind of its name, the default one included |
| `CatalogEffects.RenameLoads` | xvector/services/collection.py:133-140 | the load state moves unchanged, but a replica number 0 would become 1 |
| `CatalogEffects.LoadCollectionLeaves` | xvector/services/collection.py:143-149 | succeeds exactly when the collection that the name stands for exists; the load state is loaded, of the whole collection, with these replicas; nothing else changes |
| `CatalogEffects.ReleaseCollectionLeaves` | xvector/services/collection.py:159-164 | the same with the state not loaded |
| `CatalogEffects.LoadPartitionsLeaves` | xvector/services/partition.py:89-97 | succeeds exactly when that collection exists; the load state is loaded, with these partitions; nothing else changes |
| `CatalogEffects.ReleasePartitionsLeaves` | xvector/services/partition.py:106-118 | never fails; not loaded when the list is empty or names all partitions, otherwise nothing changes |
| `CatalogEffects.CreatePartitionLeaves` | xvector/services/partition.py:18-31 | every refusal with its error; otherwise one document more, kept when the directory fails |
| `CatalogEffects.DropPartitionLeaves` | xvector/services/partition.py:36-47 | never the default partition; otherwise one document less |
| `CatalogEffects.CreateAliasLeaves` | xvector/services/alias.py:17-26 | refused for the name of an alias or of a collection, and for an unknown target; otherwise one document more |
| `CatalogEffects.AlterAliasLeaves` | xvector/services/alias.py:36-44 | refused for an unknown alias or target; otherwise the alias has the new target |
| `CatalogEffects.DropAliasLeaves` | xvector/services/alias.py:28-34 | refused for an unknown alias; otherwise one document less |
| `CatalogEffects.CreateIndexLeaves` | xvector/services/index.py:19-74 | refused for an unknown collection and bad parameters; otherwise its document is in, also when the rebuild fails |
| `CatalogEffects.DropIndexLeaves` | xvector/services/index.py:140-151 | refused without a name or for an unknown one; otherwise one document less |
| `CatalogUndo.DropUndoesCreateDatabase` | xvector/meta/catalog.py:42-61 | dropping a database undoes creating it |
| `CatalogUndo.DropUndoesCreateCollectionIff` | xvector/services/collection.py:42-70 | dropping a collection undoes creating it exactly when no load state was stored for the bare name |
| `CatalogUndo.DropUndoesCreatePartition` | xvector/services/partition.py:18-52 | dropping a partition undoes creating it |
| `CatalogUndo.DropUndoesCreateAlias` | xvector/services/alias.py:17-34 | dropping an alias undoes creating it |
| `CatalogUndo.DropUndoesCreateIndexIff` | xvector/meta/catalog.py:181-210 | dropping an index undoes creating it, also after a failed rebuild, exactly when there was none under its id |
| `CatalogUndo.CreateIndexReplacesIff` | xvector/meta/catalog.py:181-197 | a new index replaces an old one exactly when their ids spell the same name |
| `CatalogUndo.AliasResolves` | xvector/services/alias.py:17-44 | a new or altered alias resolves to its collection at once, and no other name resolves differently |
| `CatalogUndo.LoadThenRelease` | xvector/services/collection.py:143-164 | loading and releasing set exactly the load state of the collection the name resolves to, and touch nothing else |
| `CatalogUndo.ReleasePartitionsIff` | xvector/services/partition.py:106-123 | a release of partitions unloads the collection exactly when it names all of them, or none |
| `CatalogSteps.ListsAsItGoes` | xvector/meta/catalog.py:104-115 | reading each list only after the deletions before it still finds exactly what was stored |
| `CatalogService.CatalogService.ListPartitions` | xvector/meta/catalog.py:137-144 | the loop over the documents of one type lists the stored partitions, and the default one of a collection |
| `CatalogService.CatalogService.ListIndexes` | xvector/meta/catalog.py:201-206 | exactly the indexes of the collection |
| `CatalogService.CatalogService.ListAliases` | xvector/meta/catalog.py:165-166 | exactly the aliases of the database |
| `CatalogService.CatalogService.ListCollections` | xvector/meta/catalog.py:97-102 | exactly the collections of the database |
| `MetaStore.MetaStore.ListByType` | xvector/meta/store.py:189-194 | exactly the documents of a type, on the Reader those of the snapshot |
| `CatalogService.CatalogService.DeleteCollectionMeta` | xvector/meta/catalog.py:104-115 | the code on the flat store removes exactly what belongs to the collection, by deleting the collection, partitions, indexes, aliases and load state in that order |
| `CatalogService.CatalogService.ResolveName` | xvector/meta/catalog.py:171-178 | resolution on the flat store is relational resolution |
| `CatalogService.CatalogService.GetLoadState` | xvector/meta/catalog.py:236-247 | the stored load state or the default one |
| `CatalogService.CatalogService.CreateDatabase` | xvector/meta/catalog.py:42-50 | refines the relational operation, errors included |
| `CatalogService.CatalogService.DropDatabase` | xvector/meta/catalog.py:52-61 | refines the relational operation, errors included |
| `CatalogService.CatalogService.CreateCollection` | xvector/services/collection.py:42-59 | refines the relational operation, errors and half-done files included |
| `CatalogService.CatalogService.DropCollection` | xvector/services/collection.py:61-70 | refines the relational operation, errors included |
| `CatalogService.CatalogService.RenameCollection` | xvector/services/collection.py:109-141 | delete and re-put on the flat store is the relational rename, in that order of writes |
| `CatalogService.CatalogService.LoadCollection` | xvector/services/collection.py:143-149 | refines the relational operation |
| `CatalogService.CatalogService.ReleaseCollection` | xvector/services/collection.py:159-164 | refines the relational operation |
| `CatalogService.CatalogService.CreatePartition` | xvector/services/partition.py:18-34 | refines the relational operation, errors included |
| `CatalogService.CatalogService.DropPartition` | xvector/services/partition.py:36-52 | refines the relational operation, errors included |
| `CatalogService.CatalogService.LoadPartitions` | xvector/services/partition.py:89-104 | refines the relational operation |
| `CatalogService.CatalogService.ReleasePartitions` | xvector/services/partition.py:106-123 | refines the relational operation, also for names that do not exist |
| `CatalogService.CatalogService.CreateAlias` | xvector/services/alias.py:17-26 | refines the relational operation, errors included |
| `CatalogService.CatalogService.AlterAlias` | xvector/services/alias.py:36-44 | refines the relational operation, errors included |
| `CatalogService.CatalogService.DropAlias` | xvector/services/alias.py:28-34 | refines the relational operation, errors included |
| `CatalogService.CatalogService.CreateIndex` | xvector/services/index.py:19-74 | refines the relational operation, errors included; the document stays when the rebuild fails |
| `CatalogService.CatalogService.DropIndex` | xvector/services/index.py:140-151 | refines the relational operation, errors included |
| `Crash.CrashRecoversBeforeOrAfter` | xvector/meta/store.py:51-106 | a crash after any step of a change, then open, recovers exactly the state before or after it |
| `Crash.RecoversInSyncIff` | xvector/meta/store.py:99-106 | engine, cache and snapshot agree afterwards exactly when the scan worked on a non-empty engine, or the crash left engine and snapshot equal |
| `Crash.OpenKeepsSnapshot` | xvector/meta/store.py:100-105 | a scan that fails or finds nothing leaves a snapshot that is there untouched at every step, and the cache is read from it |
| `Crash.FailedScanResurrects` | xvector/meta/store.py:217-231 | a failed scan between two crashes brings a lost change back |
| `Crash.SwallowedDeleteIff` | xvector/meta/store.py:178-187 | a delete that the engine refuses leaves the store in sync exactly when there was nothing to delete |
| `Crash.FallbackUpsertIff` | xvector/meta/store.py:137-166 | on engines without upsert, a crash between delete and insert is safe exactly when the document was new, or the only one, or the scan fails |
| `Crash.HistoryIsExact` | xvector/meta/store.py:137-231 | over any changes and crashes, also during recovery, as long as every episode is sound the catalog is the result of the changes in order, without those cut before their engine write |
| `Crash.HistoryIsExactIff` | xvector/meta/store.py:137-231 | the run is exact at every moment exactly when the engine refuses no delete of what is there, and no scan fails between the engine write and the publication of a change that changes something |
| `Crash.ReaderViewsAdvance` | xvector/meta/store.py:196-215 | the snapshots a Reader can observe during a change, crash and recovery are whole, and switch once from the state before to the state after |
| `Crash.ReaderWalksHistory` | xvector/meta/store.py:168-215 | over a whole sound run with crashes anywhere, the catalogs a Reader can observe are a non-decreasing walk through the Writer's history, never behind a change that is over |
| `MetaStore.MetaStore.Open` | xvector/meta/store.py:51-106 | Writer and Reader open, against the step model, also when the engine or the snapshot write fails; the engine handle stays when only the latter does |
| `MetaStore.MetaStore.Upsert` | xvector/meta/store.py:137-166 | all steps of a change; no step when the engine fails or there is no engine handle; the steps up to it when the snapshot write fails |
| `MetaStore.MetaStore.Delete` | xvector/meta/store.py:178-187 | the steps of a delete, also of one that the engine refuses or that has no engine handle; in sync afterwards exactly when there was nothing to delete, or engine and snapshot write both worked |
| `MetaStore.MetaStore.Get` | xvector/meta/store.py:168-176 | the Reader answers from the published snapshot, the Writer from its cache |
| `MetaStore.MetaStore.FlushSnapshot` | xvector/meta/store.py:196-202 | the snapshot is the cache and no temporary file is left, or the old snapshot stands beside what was written |
| `MetaStore.MetaStore.Close` | xvector/meta/store.py:108-118 | the last snapshot is published by an open Writer only |
| `MetaStore.DeleteAfterCloseEmpties` | xvector/meta/store.py:178-187 | a run in which a delete after close empties the published snapshot while the engine keeps everything |
| `Search.TruncatedMergeIsExact` | xvector/services/vector.py:445-497 | cutting each partition to its first `limit` rows before the merge gives the very list that ranking everything gives |
| `Search.RankedIsTopK` | xvector/services/vector.py:478-496 | distinct ids in score order, each with its best row, and no id left out is better than one returned |
| `Search.InNumbers` | xvector/services/vector.py:484-486 | the same in numbers, for smaller and for larger scores first |
| `Search.ConcatAround` | xvector/services/vector.py:447-476 | the rows are merged partition after partition |
| `Search.Merge` | xvector/services/vector.py:447-496 | the loops compute that list: growing scores, each id with its smallest, nothing smaller left out, or the mirror image; and how many rows, for a negative limit too |
| `Search.SortIsSortedPermutation` | xvector/services/vector.py:486-486 | the sort keeps all rows and orders them |
| `Search.SortIsStable` | xvector/services/vector.py:486-486 | rows with equal scores keep their order, in both directions |
| `Search.StableSortIsUnique` | xvector/services/vector.py:486-486 | order and stability determine the result |
| `Search.DedupeKeepsFirst` | xvector/services/vector.py:487-495 | what is kept is the first row of its id |
| `Fusion.FusedMeaning` | xvector/services/vector.py:536-551 | one row per id, its score the sum of its votes, its fields those of its last row, best first, ties in order of first occurrence |
| `Fusion.OrderIsFirstVotes` | xvector/services/vector.py:537-543 | the insertion order of the dictionary is the order of first occurrence |
| `Fusion.FusionConserves` | xvector/services/vector.py:536-572 | the fused scores add up to all votes |
| `RankFusion.RrfFuse` | xvector/services/vector.py:536-551 | the loops compute the tally, and raise exactly when some rank meets k + rank = 0 |
| `RankFusion.RrfConserves` | xvector/services/vector.py:539-542 | the fused scores add up to the reciprocal ranks of all list positions |
| `RankFusion.RrfOneList` | xvector/services/vector.py:539-542 | in one duplicate-free list the score at rank n, times k + n, is 1 |
| `RankFusion.RrfAdds` | xvector/services/vector.py:539-542 | one more list adds its own scores to those of the others |
| `RankFusion.RrfDominance` | xvector/services/vector.py:536-551 | an id ahead of another in every list where the latter occurs comes strictly earlier |
| `RankFusion.RrfDominanceIff` | xvector/services/vector.py:531-542 | that law holds for all inputs exactly for k >= -2 |
| `RankFusion.NegativeKBreaksDominance` | xvector/services/vector.py:531-542 | for each k below -2 it fails, on a list of two rows beside two lists of one |
| `RankFusion.SingleListKeepsOrder` | xvector/services/vector.py:536-551 | fusing one list keeps its order, for every k that does not raise |
| `WeightedFusion.WeightedFuse` | xvector/services/vector.py:553-572 | the loops compute the tally of the pairs of a list and a weight |
| `WeightedFusion.WeightedScoresBounded` | xvector/services/vector.py:556-563 | no fused score exceeds the absolute weights of the lists that contain its id |
| `WeightedFusion.WeightedOneList` | xvector/services/vector.py:559-563 | in one duplicate-free list a fused score is the weight times the score over the largest absolute score |
| `WeightedFusion.WeightedAdds` | xvector/services/vector.py:556-563 | one more list with its weight adds its own scores to those of the others |
| `WeightedFusion.WeightedPairsOff` | xvector/services/vector.py:556-556 | lists without a weight and weights without a list count for nothing |
| `WeightedFusion.WeightedDominance` | xvector/services/vector.py:553-572 | with positive weights an id scored higher than another in every list with either comes strictly earlier, absence counting as 0 |
| `WeightedFusion.WeightedKeepsOrder` | xvector/services/vector.py:559-564 | one list with a positive weight keeps the order of its scores |
| `WeightedFusion.WeightedIgnoresScale` | xvector/services/vector.py:559-562 | multiplying the scores of one list by a positive constant changes nothing in the output |
| `WeightedFusion.WeightedIsSortedPermutation` | xvector/services/vector.py:556-572 | one row for every id of the lists that have a weight, sorted by score |
| `WeightedFusion.MaxAbsBounds` | xvector/services/vector.py:559-559 | the norm is the largest absolute score, and attained |
| `Snowflake.Snowflake.NextId` | xvector/common/pk.py:19-31 | the new state and the id, also for a clock that goes back; the spin loop ends because the clock advances in the end |
| `Snowflake.IdsIncrease` | xvector/common/pk.py:19-31 | ids strictly increase over every run with a steady clock inside the window |
| `Snowflake.IncreasesIff` | xvector/common/pk.py:19-31 | the next id is larger exactly when the clock has not gone back |
| `Snowflake.Burst` | xvector/common/pk.py:22-29 | a new millisecond starts its sequence at 0 and has 4096 ids, and the next call takes the later reading |
| `Snowflake.BackwardsClockRepeats` | xvector/common/pk.py:27-31 | a clock that goes back one millisecond repeats an id |
| `Snowflake.IdRoundTrip` | xvector/common/pk.py:30-31 | an id is below 2^63 and decodes to its three fields, whatever the clock showed |
| `Snowflake.WorkersNeverCollide` | xvector/common/pk.py:12-31 | different workers never produce the same id |
| `EntityCodec.RoundTrip` | xvector/services/vector.py:76-117 | decoding an encoded entity gives its stored keys, its key in canonical form and the key under "id", in whatever order the engine returns fields |
| `EntityCodec.RoundTripIsIdentity` | xvector/services/vector.py:76-117 | with every key in the schema or dynamic fields on, that is the entity itself, plus "id" when it has none |
| `EntityCodec.LostIffDropped` | xvector/services/vector.py:99-107 | the keys that do not come back are exactly those outside the schema without dynamic fields, but for "id" |
| `EntityCodec.KeysArePartitioned` | xvector/services/vector.py:94-107 | every other key lands in exactly one of vectors, scalars and dynamic fields, or is dropped |
| `EntityCodec.EncodeFailsIff` | xvector/services/vector.py:82-92 | exactly when encoding fails, and with which error |
| `EntityCodec.KeyOfEntity` | xvector/services/vector.py:79-93 | which key a row is stored and returned under: its own, that of "id" only for another spelling of it, with auto ids the generated one, and otherwise it is refused |
| `EntityCodec.GeneratedIdsDiffer` | xvector/services/vector.py:87-92 | rows without a key have different ids when their generated keys differ |
| `EntityCodec.DocumentHolds` | xvector/services/vector.py:94-117 | what the document holds, name by name, and what its dynamic container is the text of |
| `EntityCodec.EntityToDoc` | xvector/services/vector.py:76-117 | the loop over the items, in any order, computes the encoding |
| `EntityCodec.ItemToEntity` | xvector/services/vector.py:609-655 | the loop over the fields computes the decoding, with score and output fields, for objects, dictionaries and the flattened form |
| `EntityCodec.DecodedAt` | xvector/services/vector.py:632-645 | what any item decodes to, name by name, with a container that is a dictionary, its text, or neither |
| `EntityCodec.FieldsRead` | xvector/services/vector.py:618-625 | when the items of a dictionary stand in for its fields, and which |
| `EntityCodec.DecodeSelects` | xvector/services/vector.py:646-655 | the score stands under both its names when asked for, and output fields keep exactly themselves, the key, "id" and an asked-for score |
| `EntityCodec.FlatRoundTripIff` | xvector/services/vector.py:618-625 | through the flattened form an entity comes back exactly when no stored value but the key is named `id`, `score` or `distance` |
| `EntityCodec.FlatLosesScore` | xvector/services/vector.py:618-625 | an input that loses its score field |
| `EntityCodec.IdRoundTrip` | xvector/common/pk.py:37-48 | going through the internal id gives the key in the type of its field |
| `EntityCodec.IntTextParses` | xvector/common/pk.py:40-47 | an integer printed in decimal parses back |
| `EntityCodec.IntTextShape` | xvector/common/pk.py:40-40 | the text is digits without a leading zero, after a minus sign exactly when negative |
| `EntityCodec.ParseIntIff` | xvector/common/pk.py:45-46 | digits parse, with or without a sign, and nothing else does |
| `ImportJob.ImportRun.Run` | xvector/services/import_job.py:93-163 | the documents stored and the chunks passed to insert, for every pattern of failures |
| `ImportJob.ImportRun.InsertAll` | xvector/services/import_job.py:134-150 | the batch loop: chunks in order up to the first failure, the count of rows that went in |
| `ImportJob.ChunksCover` | xvector/services/import_job.py:134-137 | the chunks concatenate to exactly the rows, and all but the last hold 500 |
| `ImportJob.AfterChunksIs` | xvector/services/import_job.py:146-150 | what is reported after k chunks: the number of rows they hold, and the whole percentage below it |
| `ImportJob.JobAdvances` | xvector/services/import_job.py:107-163 | progress and imported rows never go down, progress is at most 100, a completed or failed job stays as it is |
| `ImportJob.JobOutcome` | xvector/services/import_job.py:107-163 | Completed exactly when everything worked, and then imported equals total; otherwise Failed with the rows of the chunks before the failure |
| `ImportJob.StoredDocuments` | xvector/services/import_job.py:107-163 | how many documents the job stores in each state: one for each remote file tried, one before parsing, one before the import and after each chunk, and one at the end, or two when it failed |
| `ImportJob.ParseAllAround` | xvector/services/import_job.py:125-127 | the rows imported are those of the files, one file after the other |
| `HalfFloat.ToFloat16` | xvector_web/src/views/collection-detail/tabs/SearchTab.vue:65-107 | the two conversions computed one after the other |
| `HalfFloat.Normalise` | xvector_web/src/views/collection-detail/tabs/SearchTab.vue:93-98 | the renormalising loop ends, with the exponent and significand of the subnormal |
| `HalfFloat.HalvesAreFixed` | xvector_web/src/views/collection-detail/tabs/SearchTab.vue:65-107 | every zero, subnormal, normal and infinite binary16 value is a fixed point |
| `HalfFloat.RoundingIsIdempotent` | xvector_web/src/views/collection-detail/tabs/SearchTab.vue:65-107 | rounding twice is rounding once, on every bit pattern |
| `HalfFloat.WideningIsExact` | xvector_web/src/views/collection-detail/tabs/SearchTab.vue:85-106 | widening changes no finite value |
| `HalfFloat.ErrorWithinHalfUlpIff` | xvector_web/src/views/collection-detail/tabs/SearchTab.vue:71-84 | below the overflow threshold the error is at most half a unit in the last place exactly when no carry is lost; the sign is kept |
| `HalfFloat.LostCarryRoundsDown` | xvector_web/src/views/collection-detail/tabs/SearchTab.vue:82-84 | what a lost carry gives: the power of two below, where the one above was nearest |
| `HalfFloat.AboveThreshold` | xvector_web/src/views/collection-detail/tabs/SearchTab.vue:80-81 | from the threshold on, and for NaNs, the result is an infinity of the same sign |

## Left out

- The engine itself: index search, log contents, garbage collection. A partition is a birth, a version and a log flag; an open succeeds, meets a lock conflict or breaks. Of its native lock only one rule is used, that the Writer gets no handle on a directory while the Reader has one.
- `has_wal` and the engine open inside one locked block are one step; the file scan is not split further.
- `coord_lock`, HTTP, timeouts and authentication: a notification that times out counts as lost.
- `reopen_all`, `create_partition_collection`, `optimize`, and the rows that `get` and `query` return.
- ReadYourWrites.NoWriteIsRefused: assumes that operations on one collection do not overlap and that close notices are delivered; Overlap.OverlapRefusesWrite shows it false otherwise, WriteOutcomes.RefusedMeansLifted what must have happened. Index creation and the schema changes that also run under `with_reader_released` are not separate jobs: they are writes like any other. Retries of a write are one answer.
- ReadYourWrites.NoStaleHandleSurvives: a handle on a directory that was dropped and made anew shows the old one until it is closed; that is the exception in its statement.
- HandOver: the handlers there run one after the other; interleavings are the business of Protocol. Upsert, Insert and Delete assume of the engine that a write is refused while a Reader handle is open.
- Handles that are closed but still referenced by a running request: a request reads through the handle it obtained at the moment it obtained it.
- CatalogService: names that hold `__` or end in `_`, and names with a slash, are excluded where ids must be distinct, because Naming.ValidNamesCollide shows the encoding is not injective there. Engine and snapshot failures inside a service operation are the cuts of CatalogSteps; the methods of the class do all their writes.
- CatalogService.CatalogService.CreateIndex: of the rebuild of the partitions only its outcome is modelled.
- Crash.HistoryIsExact, Crash.ReaderWalksHistory: a document that is never removed (the default database) keeps the engine from being empty. A scan that silently returns only part of more than 100000 documents is not modelled.
- Users, roles, passwords and privileges appear only as opaque documents; timestamps in documents are dropped. The order in which lists are returned is left out.
- Search.TruncatedMergeIsExact: scores are exact numbers without NaN, and each partition returns its rows in metric order with distinct ids; the choice of the metric from the schema and the index is a parameter. A negative limit is modelled as the slice it is, but the theorem is about limits from 0 on.
- RankFusion and WeightedFusion compute with exact numbers, so floating-point rounding is left out; the choice of the strategy and its defaults are not modelled.
- Snowflake: the clock is a function from readings to milliseconds; strict increase is claimed for clocks that do not go back inside the 41-bit window. `uuid4` keys are not modelled.
- EntityCodec: `int` accepts plain decimal text only (no white space or underscores); vector values come back as they were stored; JSON encoding and decoding undo each other; the name of the dynamic container is not a schema field.
- ImportJob: reading, downloading and parsing files are outcomes; a failure while the job document itself is stored is left out; the percentage is computed by integer division. An insert either takes its whole chunk or raises.
- HalfFloat: starts from a binary32 pattern; the rounding of a double to binary32 before it is left out.
- Gateway, OpenAPI merge, index parameter tables, the Python client, and the web console apart from `toFloat16`.
