# fdb-extract: a verified model of its change capture and codecs

`fdb-extract` reads a Firebird database file page by page, without a server, and keeps a
PostgreSQL replica of its tables up to date. It has no log to read. A cycle looks at the page
generations, at the transaction numbers in the record headers, at the delete stubs and the
back versions behind them, and at a snapshot of encoded primary keys per page, and derives a
delta: rows to upsert, keys to delete. This project models that engine, the byte formats it
reads and writes, and the replica it feeds, and proves what a maintainer relies on.

## What is proved, in short

* **Change capture** (`Changes`, `RecordScan`, `Scan`, `ScanFacts`, `Places`, `ScanPlaces`,
  `FastPath`, `Express`, `Sync`, `Watch`). The scan is modelled on bytes, loop by loop, with its
  growing buffers and counters. What it writes is stated from the file alone: each slot of the
  page list gives at most one row, key or count, in order, and none is left out. Both of its COPY
  streams read back as exactly the rows and keys it counted; its fast path loses nothing; its
  express deletes are exactly the difference of two whole-table key sets.
* **Convergence** (`Live`, `OneCycle`, `Acceptance`, `Convergence`, `Runs`, `Loop`). One cycle is first
  described exactly, from any state, on any file, and for any pages one takes for the file:
  which keys the replica holds after it, and when they are the live rows of these pages. On a
  file that keeps stated promises the condition becomes one about rows: every live row is
  upserted or was there, and every vanished row was caught, by a stub or by a snapshot whose
  pages are still listed. When PostgreSQL accepts the delta, and so when a turn is done, is stated
  from the file too; the first turn of a table copies it. Both statements are carried over every run of one table, through failed
  deltas, commits whose answer is lost, crashes, restarts from whatever was saved last,
  half-written saves, lost snapshots and lost caches in any order, and over every run of the
  watch loop, which is such a run for each table. Tables with text keys, which keep no snapshot,
  are covered: only stubs catch their vanished rows.
* **Second looks** (`Replay`, `Watch`). An idle rescan finds nothing from any state. A delta that
  was applied but not saved, or not answered, is computed again by the next cycle over the same
  file. It is accepted again, and what it writes is there; whether it changes nothing is stated
  exactly, for any snapshot and watermark it starts from, and with those it had before it is the
  same delta and does not. Watermarks on disk never fall, over any run, and memory is never below
  them.
* **Where it misses** (`Replay`, `Convergence`, `OneRowTable`). Six ways the design can lose,
  delete or keep rows are stated with their exact condition and shown on concrete bytes: a failed
  delta overtaken by the global watermark (`Convergence.LiveRowOutcome`, `Replay.RetryUpserts`),
  a snapshot older than the recorded generations (`Replay.StaleSnapshotDeletes`), a page that
  leaves the page list (`Convergence.DiffedIffListed`), a row that came and went between the last
  save and a crash (`Replay.UnsavedRowStays`), a snapshot lost to a new file size, whose vanished
  rows stay until a replay from disk deletes them (`Replay.ReplayIsExact`,
  `OneRowTable.ReplayDeletesNeighbour`), and a data page added behind an unchanged first pointer
  page, which no turn looks at (`OneCycle.CycleIsExact`, `OneRowTable.RowOnNewPageIsMissed`).
* **Flat key sets** (`ChunkRows`, `ChunkHeap`, `FlatPk`). In-place heapsort, deduplication
  and binary search over one byte array.
* **Codecs** (`Sqz`, `Ods`, `Layout`, `Fields`, `Keys`, `Text`, `PgCopy`, `Extract`,
  `SnapshotFile`, `SnapshotExact`, `Wire`). Run-length decoding, page and record layout,
  fragments, field encodings, transcoding, the binary COPY grammar, full extraction, the snapshot
  file, the framed wire protocol: exactness, round trips, injectivity. A scan that sees every
  record as extraction does writes the same stream, byte for byte.

`Bytes` and `Arith` hold words, byte order and small arithmetic facts. Each module is in the
file of its name; `dafny verify dfyconfig.toml` checks all of them.

## How the model reads

Code that changes buffers or state step by step is a method with loops, proved against a
specification function or relation; the theorems are lemmas about the specification. The
flat key buffers are arrays changed in place. The watch loop, the target database, the byte
streams and the chunk reader and writer are classes. `sync_table` takes a table's
generations and cache by mutable reference; here they go in as values and come out changed.

Rows are sequences of encoded fields and a replica table is a map from key to row. Applying a
delta is an atomic update, deletes before upserts, that PostgreSQL accepts or refuses as a
whole. Everything outside the model (connection, permissions, disk) is a delta's fate: it
works, it breaks before the commit, or the commit takes effect and its answer is lost.

`OneCycle.CycleIsExact` and `Runs.RunExact` ask nothing of the file. The promises the other
convergence theorems ask of it, when a turn is done, are predicates of `Convergence`: a listed
data page with a current generation is as it was last seen (`GenerationsTell`), live keys are
unique and encode to the fixed length if there is one (`KeysUnique`), no back version above the
watermark stands on a changed page as a plain record (`NewRowsCurrent`), and a key named by a
new stub is gone or written again (`StubsTell`). What is remembered is a record of pages seen
before (`Remembers`); the replica may be anything, in step with these pages or ahead of them. Old
rows on changed pages (`OldRowsKnown`) and vanished rows (`VanishedCaught`) are not promised but
part of the condition. A turn looks at the cached page list, which is read anew only when the
first pointer page's generation moved (`Runs.ListIsCurrent`). The exact theorems compare the
replica with the file's present pages; the others with the pages looked at, and say when the two
are the same.

## Where code and documentation differ

* `load_snapshots` is documented never to panic (src/cdc.rs:86-87), but it passes counts read
  from the file to `HashMap::with_capacity` (src/cdc.rs:100, src/cdc.rs:115), which can abort on
  a damaged count. The model follows the parsing and has no capacity;
  `SnapshotFile.DamagedCountIsAsked` gives the 16-byte files that ask for any count and load as
  the empty map; `SnapshotFile.CountFitsFile` and `SnapshotFile.TableLength` bound the counts of
  every file that loads as anything else by its length.
* `flat_pk_sort_dedup` speaks of exotic strides falling through to a heapsort
  (src/cdc.rs:253-254); strides above 64 are left unsorted (src/cdc.rs:291).
  `FlatPk.SearchWorksIffStrideFits` states the consequence for the search and
  `WideKeys.LiveKeyDeletedBeyond64` that for the replica: a row that is still live is deleted.

## Model

| member | source | states |
|---|---|---|
| `Runs.RunConverges` | src/cdc.rs:1008-1193 | over every run of a table on files that keep their promises, with failures, lost answers, crashes and restarts from the last save, half written or not: after each done turn whose snapshot is of the pages last seen, the replica holds exactly the live rows of the pages looked at if and only if every live row was upserted or there and every vanished key was caught, and is then the table of the file's present pages exactly if these have the same rows; other events leave the rows alone unless a commit went unanswered |
| `Runs.RunExact` | src/cdc.rs:1008-1193 | over every run on any files, with nothing promised: after each turn whose delta took effect the replica holds exactly the live rows of the file's present pages, listed or not, if and only if each of them is written or was there and is neither overwritten nor dropped, and every other key is not written and is dropped if it was there |
| `Runs.RunStaysInStep` | src/cdc.rs:1008-1193 | without unsaved or unanswered cycles in between, replica, generations, snapshot and watermark stay in step over the whole run |
| `Loop.RunProjects` | src/cdc.rs:1048-1193 | every run of the watch loop is, for each table, a run of that table: its turns, the saves, the restarts and the dropped caches |
| `Loop.LoopConverges` | src/cdc.rs:1008-1193 | so `Runs.RunConverges` holds of each table over every run of the loop on files that keep their promises to it |
| `Loop.LoopExact` | src/cdc.rs:1008-1193 | and `Runs.RunExact` over every run of the loop |
| `OneCycle.CycleIsExact` | src/cdc.rs:683-922 | from any state, on any file and for any pages taken for the file, a cycle makes the replica their table if and only if every row live on them is written, or was there and is neither overwritten nor dropped, and every other key is not written and is dropped if it was there; dropped, up to stride 64, means named by a new stub or told vanished by the snapshots |
| `OneCycle.CycleKeepsIff` | src/merge.rs:118-152 | a cycle leaves the replica as it was if and only if the rows it writes are there and it drops no key it does not write |
| `OneCycle.TableOfBoth` | src/cdc.rs:480-490 | a replica that is the table of the pages looked at is the table of other pages exactly if these have the same rows |
| `WideKeys.WideKeyExpressed` | src/cdc.rs:882-922 | beyond stride 64, on a table of one page, a key is express-deleted if and only if it stood there and the search misses it among the page's present keys in slot order |
| `WideKeys.LiveKeyDeletedBeyond64` | src/cdc.rs:290-291 | so every scan of a page with two keys in falling order deletes the first from the replica although its row is live, if it stood there before and is not written again |
| `Runs.TurnRemembers` | src/cdc.rs:380-558 | after any turn, done, failed, skipped or unreadable, generations and watermark are those of the pages last scanned, and the snapshot if it was |
| `Runs.RemembersNext` | src/cdc.rs:540-558 | advancing generations makes them those of the pages just scanned, every record on them at or below the new watermark; so the snapshot, if it was one of the pages seen before |
| `Runs.StoreRemembers` | src/cdc.rs:976-1021 | so they stay over a save, a restart from the last save, with or without its snapshot, and the loss of the cache to a new file size |
| `Runs.FreshRemembers` | src/cdc.rs:1066-1081 | a table never synced satisfies the invariant over any filed replica, and is in step over an empty one only |
| `Runs.RestartRestores` | src/cdc.rs:976-1014 | a start, whatever happened since the last save, brings back the watermark, key, generations and pages seen of that save, and the cached snapshot if its file was written and can be read; else the snapshot of the save before, or none |
| `OneCycle.CycleOutcome` | src/merge.rs:118-152 | each key after the cycle: the written row if there is one, else what was there unless a stub or an express delete names it |
| `OneCycle.ExpressedIsDiffed` | src/cdc.rs:882-922 | up to stride 64 a key is express-deleted if and only if it stood on a rescanned page, is on none now, and no page not rescanned has it in its snapshot |
| `OneCycle.AcceptedIff` | src/merge.rs:85-178 | PostgreSQL accepts a scan's delta if and only if no upsert has a null key or, unless every column is a key, one that another upsert has |
| `OneCycle.DeltaMoves` | src/cdc.rs:516-534 | a delta PostgreSQL accepts changes the replica by exactly the scan's rows and keys, deletes before upserts |
| `Acceptance.AcceptedFromFile` | src/merge.rs:85-178 | PostgreSQL accepts a scan's delta if and only if no slot with a new row on a changed page gives a null key and, unless every column is a key, no two such slots give one key |
| `Acceptance.PromisingIsAcceptable` | src/cdc.rs:844-857 | with pages listed once and new rows current: if and only if no new current version has a null in its key and no two of them, on different slots, have one key |
| `Acceptance.TurnIsDone` | src/cdc.rs:516-579 | a turn with a key and a readable catalog that nothing in the world breaks is done if and only if the file's new records are acceptable, and otherwise failed |
| `Acceptance.WorkingTurnConverges` | src/cdc.rs:516-579 | so on a promising file with acceptable new records the turn is done, and converges exactly when the live rows arrive and the vanished keys are caught |
| `Acceptance.FirstTurnCopies` | src/cdc.rs:380-579 | the first such turn over an empty replica, with all live records above the watermark, makes the replica the file's table |
| `Convergence.Converges` | src/cdc.rs:683-922 | on a file that keeps its promises, with the replica in step or ahead, a cycle makes it equal to the file if and only if every live row was upserted or there, and each vanished row left a new stub or stood, by the snapshot, only on pages still listed |
| `Convergence.TextKeysConverge` | src/cdc.rs:882-882 | for a table whose key has no fixed length: if and only if every live row was upserted or there and every vanished row left a new stub |
| `Convergence.DiffedIffListed` | src/cdc.rs:882-922 | a row that vanished is express-deleted if and only if the snapshot held its key and every page that held it is still a data page of the list |
| `Convergence.LiveRowOutcome` | src/cdc.rs:844-857 | after a cycle a live row of the file is in the replica with its contents if and only if it was upserted or already there |
| `Convergence.GoneKeyOutcome` | src/merge.rs:118-143 | a key that is not live any more stays exactly if it was there and was not caught |
| `Convergence.OldKnownArrives` | src/cdc.rs:844-857 | a replica that held the rows of the pages last seen has every live row after a cycle, if it knew the rows at or below the watermark on changed pages |
| `Convergence.InStepCaught` | src/cdc.rs:882-922 | in step, a vanished key is caught if and only if a new stub names it, or there is a snapshot and every page that held the key is still a data page of the list |
| `Convergence.KeysAgree` | src/cdc.rs:542-548 | in step, replica keys, keys on the snapshots of the pages seen and live keys of the pages are one set, and every other key of the snapshot is under another page |
| `Live.PageKeysAreLive` | src/cdc.rs:729-742 | a page's snapshot is the set of encoded keys of the page's current versions |
| `Live.KeyedIffNoNull` | src/cdc.rs:737-742 | a current version enters the snapshot if and only if no key column of it is null |
| `Replay.IdleRescanIsEmpty` | src/cdc.rs:540-558 | for every file and every prior state, scanning again after a successful cycle yields no upsert, no stub and no express delete, however far the watermark was raised meanwhile |
| `Replay.ReplayIsExact` | src/cdc.rs:1017-1021 | a cycle repeated over the same pages and generations, with any snapshot and at a watermark that may have risen, changes nothing if and only if no key of the replica that it does not write again is named by a new stub or told vanished by the snapshot |
| `Replay.ReplayIsAccepted` | src/merge.rs:85-178 | and its delta is accepted by PostgreSQL again |
| `Replay.CrashReplay` | src/cdc.rs:1187-1192 | the same for a table's cycle after one that took effect but was not saved, or not answered, with any snapshot, page list and risen watermark; with the page list it had it is accepted and its rows are there, and with snapshot and watermark too nothing changes and the counts are the same |
| `Replay.ReplayChangesNothing` | src/merge.rs:85-178 | two scans of one file from one state carry the same delta as sets, and the second after the first is accepted and leaves the replica unchanged |
| `Replay.ScansAgree` | src/cdc.rs:882-922 | hash-map order can change only the order of the express deletes, and beyond stride 64 which they are, nothing else a scan reports |
| `Replay.RetryUpserts` | src/cdc.rs:1077-1078 | a retry at a watermark that has risen upserts exactly those rows of the failed cycle whose transactions are above it; the others are lost |
| `Replay.SnapshotDeletesIff` | src/cdc.rs:882-922 | a key of the replica that no new row or stub names is deleted if and only if it stood on a rescanned page, is on none now, and no page not rescanned has it in its snapshot |
| `Replay.StaleSnapshotDeletes` | src/cdc.rs:1187-1192 | so a row live on an unchanged page is deleted, and not brought back, exactly if its key stood on a rescanned page, left it, and is missing from the snapshots of the pages not rescanned, its own among them |
| `Replay.UnsavedRowStays` | src/cdc.rs:1187-1192 | a row that came and went since the last save, behind a crash or a lost answer, stays in the replica exactly if no new stub names it |
| `Replay.UnlistedRowsStay` | src/cdc.rs:895-899 | when all pages leave the page list the delta is empty, so the replica equals the file only if it was empty |
| `Replay.BackVersionUpserted` | src/cdc.rs:844-857 | a back version above the watermark on a changed page is upserted although no snapshot counts it |
| `OneRowTable.RowOutlivesPage` | src/cdc.rs:554-558 | a concrete in-step table and a file keeping every promise: the page leaves the list and its row stays in the replica |
| `OneRowTable.OvertakenRowIsLost` | src/cdc.rs:1077-1078 | a concrete row of transaction 5: upserted at watermark 0, not upserted by a retry at 9, after which its page counts as scanned |
| `OneRowTable.StaleSnapshotDeletesRow` | src/cdc.rs:1187-1192 | a concrete row that moved from page 1 to page 2: with the old snapshot and the new generations the next change of page 1 yields a delta that is accepted and deletes it although page 2 holds it |
| `OneRowTable.UnsavedRowIsKept` | src/cdc.rs:1187-1192 | a concrete row that came and went between a save and a crash: the saved record and the file are as they should be, no scan has a delta, and the row stays |
| `OneRowTable.UnsavedCycle` | src/cdc.rs:516-534 | the cycle before the crash: from an empty replica any scan of the file makes exactly the replica that row is left in |
| `OneRowTable.ReplayDeletesNeighbour` | src/cdc.rs:1017-1021 | concrete rows: a cycle without its snapshot adds one and leaves the vanished other; replayed with the snapshot from disk it is accepted and deletes the other |
| `OneRowTable.RowOnNewPageIsMissed` | src/cdc.rs:480-490 | a concrete row on a data page behind an unchanged first pointer page: no turn has a delta, and the replica lacks a row the file holds |
| `OneRowTable.ReplicaInStep` | src/cdc.rs:540-558 | the invariant of the convergence theorems holds of that table, page bytes and all |
| `Watch.RunRises` | src/cdc.rs:1008-1193 | over every run with any failures, crashes, stops and half-written saves no watermark on disk falls, none in memory is below one saved earlier or falls while the program runs, and the global ones stay at or below the largest of the tables' |
| `Watch.RoundRises` | src/cdc.rs:1048-1157 | over one round no watermark falls, whatever fails |
| `Watch.UndoneKeeps` | src/cdc.rs:1143-1150 | a table none of whose turns was done keeps its watermark and generations, and its replica rows unless a commit of its own took effect unanswered |
| `Watch.OneDeltaRaisesAll` | src/cdc.rs:1077-1078 | a delta of one table raises the watermark every table is scanned from next, that of a table whose own delta failed included |
| `Watch.GlobalIs` | src/cdc.rs:1140-1157 | without a delta the global watermark stays; with one it is the highest of itself and of every done turn's transaction, those without a delta included |
| `Watch.SaveRestores` | src/cdc.rs:54-84 | a save and a start keep every table's watermark, key and generations, and the cached snapshot if there is a stride; the one of the save before if the snapshot file could not be written, none if it cannot be read |
| `Watch.RemapForgets` | src/cdc.rs:1015-1021 | a changed file size costs a table its cached snapshot and nothing else; one not yet handed over is kept |
| `Watch.StirredIffNewer` | src/cdc.rs:1128-1128 | a done turn leaves something to save if and only if some page has a generation that was not recorded or the watermark rose above the table's and the global one; forgetting pages alone does not count |
| `Watch.DirtyIffNewer` | src/cdc.rs:1128-1192 | a pass saves if and only if it had a delta or left such a newer record |
| `Watch.Watcher.Cycle` | src/cdc.rs:1015-1193 | one round of the loop is one event of a run: the exact new state, watermarks, caches and saved state, from the turns of the tables |
| `Watch.Watcher.Save` | src/cdc.rs:1006-1014 | at a stop and after a dirty pass: what the state file holds, and the old snapshots if the new ones cannot be written |
| `Watch.Watcher.Pass` | src/cdc.rs:1065-1151 | every table's turn in order, and the totals that decide on the global watermark and on saving |
| `Watch.Watcher.TakeTurn` | src/cdc.rs:1065-1151 | a turn changes the state of its own table only |
| `Watch.RunTable` | src/cdc.rs:1065-1151 | a table is skipped without a key, loses its pending snapshot if its catalog cannot be read, and is otherwise synced from the higher of its own and the global watermark |
| `Sync.SyncTable` | src/cdc.rs:380-579 | page list refreshed by the pointer page's generation, scan, delta; generations, snapshot and watermark move only if the delta is known to be applied |
| `Sync.FailureChangesNothing` | src/cdc.rs:523-548 | no statistics means a delta that was refused, broke or was not answered, with generations and snapshot as before, and the replica too unless the commit took effect |
| `Sync.WatermarkRises` | src/cdc.rs:662-662 | a cycle never reports a watermark below the one it started from |
| `Sync.SyncReadsList` | src/cdc.rs:460-490 | the page list is read when the table is first met, its pointer page appears or that page's generation moved; then, once the delta is applied, a cached table forgets exactly the pages not on it in generations and snapshot, each other entry being the old or the scan's; otherwise nothing is forgotten |
| `Sync.SyncSucceedsIff` | src/cdc.rs:516-548 | a cycle over a page list succeeds if and only if its delta, if any, is accepted and answered; the replica takes the delta's effect whenever it is accepted and the commit went through; a cycle that fails keeps generations and snapshot |
| `Sync.SyncWithoutList` | src/cdc.rs:469-478 | a table without a pointer page is not scanned and keeps what it has |
| `Sync.ScannedIffMoved` | src/cdc.rs:540-560 | a cycle reports scanned pages if and only if some page's recorded generation is new |
| `Sync.AdvanceKeepsKeys` | src/cdc.rs:540-558 | a snapshot advanced and pruned still consists of encoded keys |
| `Scan.ScanChangesInto` | src/cdc.rs:647-934 | buffers, watermark, new generations, new snapshots, express deletes and the counts of rows, records, pages and skipped pages are exactly what the listed pages contribute |
| `Scan.SomeScannedIffSomeNew` | src/cdc.rs:560-560 | a scan reports scanned pages if and only if some page's generation moved |
| `Scan.ScanPages` | src/cdc.rs:683-868 | the page loop, with the generations and snapshots of changed pages |
| `Scan.ScanPage` | src/cdc.rs:705-859 | the slot loop |
| `RecordScan.ScanRecord` | src/cdc.rs:706-858 | one slot adds exactly its effect to the buffers and counters |
| `RecordScan.TakeStub` | src/cdc.rs:754-843 | a stub whose key can be read adds one delete tuple, any other none |
| `ScanFacts.UpsertStreamParses` | src/cdc.rs:675-924 | the upsert stream reads back under the COPY grammar as exactly the counted upserts with every column, for any mix of record formats, if and only if the column count fits 15 bits |
| `ScanFacts.DeleteStreamParses` | src/cdc.rs:909-925 | the delete stream reads back as the stub keys and then the express keys, each with every key column |
| `ScanFacts.SnapshotsStayKeys` | src/cdc.rs:542-558 | the invariant the express deletes need: snapshots hold encoded keys only, over advances and prunings |
| `ScanFacts.UpsertsAre` | src/cdc.rs:844-857 | the upserts are the rows of undeleted whole records above the watermark on pages whose generation moved |
| `ScanFacts.UpsertsName` | src/cdc.rs:844-857 | from the bytes: a row is upserted if and only if some new, whole, undeleted record on a changed page, back version or not, has it in its own format |
| `ScanFacts.StubsAre` | src/cdc.rs:754-843 | the stub deletes are the keys behind the delete stubs above the watermark on any data page |
| `ScanFacts.StubKeyIs` | src/cdc.rs:754-843 | a stub names a key if and only if its record is whole, deleted, with a known key and a back page, and a path of at most eight slots leads to a version whose key columns, read in that version's own format, are the key |
| `ScanFacts.StubsName` | src/cdc.rs:754-843 | so the stub deletes of a scan are exactly the keys of the versions behind new stubs, each in its own format |
| `ScanPlaces.ScanInOrder` | src/cdc.rs:683-859 | upserts and stub keys are, in the order of pages and slots, what each slot of the list gives, one for one, and the records counted are the slots looked at past the fast path |
| `ScanPlaces.ScanCounts` | src/cdc.rs:683-859 | so a row is upserted, and a key deleted by stubs, as often as there are places on the page list that give it, and both counts are numbers of places |
| `ScanPlaces.PageKeysInOrder` | src/cdc.rs:729-742 | the keys of a rebuilt page are, in slot order, one for each slot that has one |
| `ScanPlaces.PagesCounted` | src/cdc.rs:683-703 | pages and skipped pages are counted once for every place they have on the list |
| `ScanFacts.WatermarkCovers` | src/cdc.rs:744-745 | no record a scan looks at is above the watermark it returns |
| `ScanFacts.WatermarkAttained` | src/cdc.rs:744-745 | and that watermark is the starting one or the transaction of a new record it looked at |
| `FastPath.FastScanRefines` | src/cdc.rs:699-716 | without the early skip the scan yields the same streams, row counts and snapshots; the fast path's watermark and its count of records are never higher |
| `Changes.FastPathRefines` | src/cdc.rs:715-716 | the same for one record, with the exact condition under which the fast path misses its transaction |
| `Changes.SchemaIsValid` | src/cdc.rs:393-456 | whatever format byte a record carries, its slots match the table's columns one to one |
| `Changes.EncodePkPgcopy` | src/cdc.rs:603-625 | the encoded key columns in key order, or an error exactly when one is unknown |
| `Changes.RecordColumnIs` | src/cdc.rs:393-413 | a column is read by the descriptor of the record's own format, or of the latest if that is not on disk, and null if its bit is set or the format lacks it |
| `Changes.RecordKeyIs` | src/cdc.rs:603-625 | a record's key is its row's key columns, in key order |
| `Express.DiffIsExact` | src/cdc.rs:882-922 | looking only at changed pages finds exactly the keys of the old snapshot missing from the old snapshot overridden page by page with the new |
| `Express.ExpressDeletes` | src/cdc.rs:882-922 | sort, search and diff emit each vanished key once and nothing else; beyond stride 64 the keys of rescanned pages that the search misses |
| `Express.AliveFlat` | src/cdc.rs:886-900 | the alive list holds the new keys and the old keys of pages not rescanned |
| `FlatPk.FlatPkSortDedup` | src/cdc.rs:255-266 | in place, for every stride up to 64: strictly increasing chunks, the same chunk set |
| `FlatPk.SearchIsMembership` | src/cdc.rs:233-247 | searching a sorted and deduplicated buffer decides membership in the original one |
| `FlatPk.SearchWorksIffStrideFits` | src/cdc.rs:290-291 | that holds for all buffers if and only if the stride is at most 64, with a buffer that shows the failure beyond |
| `FlatPk.SortedSetUnique` | src/cdc.rs:255-319 | the two sort paths return identical bytes, the sorted set being unique |
| `FlatPk.FlatPkContains` | src/cdc.rs:233-247 | the search loop on any buffer, its remainder dropped |
| `FlatPk.SortDedupConst` | src/cdc.rs:269-288 | the constant-stride path, sorting taken as given, its deduplication loop proved |
| `FlatPk.SortDedupGeneric` | src/cdc.rs:290-319 | the heapsort path, untouched buffers beyond stride 64 |
| `ChunkHeap.HeapSort` | src/cdc.rs:297-308 | both heap loops leave the chunks in lexicographic order, a permutation of what they were |
| `ChunkHeap.HeapSiftDown` | src/cdc.rs:331-350 | restores the heap below a hole, permuting only that range |
| `ChunkRows.ChunkSwapAt` | src/cdc.rs:322-329 | swaps two chunks and nothing else |
| `ChunkRows.LessIsNumeric` | src/cdc.rs:337-342 | byte-lexicographic order of equal-length chunks is the order of the big-endian numbers |
| `Sqz.DecompressExact` | src/sqz.rs:21-68 | decompression yields a buffer if and only if the input is the serialisation of a run list expanding to it within 262144 bytes |
| `Sqz.SerialUnique` | src/sqz.rs:26-68 | no input serialises two run lists |
| `Sqz.DecodeOfSerial` | src/sqz.rs:26-68 | every serialised run list decodes to its expansion, or to nothing beyond the cap |
| `Sqz.ControlByteMeans` | src/sqz.rs:26-68 | what each control byte does to input and output: copies of up to 127 bytes, repeats of 3 to 128, and repeats counted by two or four bytes, refused when cut short or beyond 262144 bytes |
| `Sqz.DecompressImpl` | src/sqz.rs:26-68 | the decoder loop |
| `Ods.FragmentsTransparent` | src/ods.rs:449-475 | cutting a compressed record between runs into at most 4096 linked slots reassembles to what decompressing the whole gives, exactly as long as it is within the cap |
| `Ods.ReassemblyExact` | src/ods.rs:449-475 | a record comes out if and only if the head starts a chain of at most 4096 slots, and is the pieces in order |
| `Ods.EndlessChainFails` | src/ods.rs:454-474 | a chain that never reaches a last piece, a cycle for one, yields nothing |
| `Ods.ReassembleFragments` | src/ods.rs:449-475 | the reassembly loop |
| `Ods.ResolutionExact` | src/cdc.rs:767-826 | a stub resolves if and only if its back page is not 0 and the first unpackable version is at most eight slots back, every earlier one carrying a chain or deleted flag; the version keeps its own format |
| `Ods.FollowChain` | src/cdc.rs:767-826 | the chain loop, ending on every page graph |
| `Ods.CurrentIsLive` | src/ods.rs:676-691 | extraction's unpacking keeps exactly the records change capture's takes as undeleted and that are no back version |
| `Ods.UnpackRecordCdc` | src/ods.rs:714-730 | whole records with their deleted flag, fragments and blobs refused |
| `Ods.UnpackRecordInto` | src/ods.rs:676-691 | current whole versions only |
| `Ods.RecordBounded` | src/sqz.rs:10-68 | a record unpacked from a slot is at most 262144 bytes |
| `Layout.RecordReads` | src/ods.rs:698-712 | a record header laid out byte by byte, short or long, reads back field by field, transaction included, with the data right behind it |
| `Layout.RecordMeans` | src/ods.rs:676-730 | what change capture and extraction make of a record, from the bits of its flags and its data |
| `Layout.FragmentMeans` | src/ods.rs:449-475 | what reassembly takes from a slot: the data behind 22 bytes and the slot named at 16 and 20, or the last piece behind the plain header |
| `Layout.PageReads` | src/ods.rs:868-878 | a page laid out byte by byte reads back: kind, generation, slot count, and each slot's bytes if its entry lies inside |
| `Layout.SlotReads` | src/ods.rs:868-878 | a slot is read exactly from a data page of the file below its slot count |
| `Bytes.LittleEndian` | src/ods.rs:696-712 | words of records and pages: the first byte is the lowest |
| `Bytes.BigEndian` | src/extract.rs:64-158 | words of COPY streams: the first byte is the highest |
| `Bytes.SignedIs` | src/extract.rs:88-145 | a signed word is the number in the signed range equal to it modulo its width |
| `Bytes.BitIs` | src/ods.rs:697-730 | a flag is set exactly by its own bit, whatever bits are around it |
| `PgCopy.StreamParses` | src/extract.rs:194-274 | a written stream reads back as the rows it was written from, if and only if the column count fits the signed 16-bit count |
| `PgCopy.StreamEnds` | src/extract.rs:201-204 | a stream begins with the nineteen header bytes PostgreSQL's documentation gives and ends with the count -1 |
| `PgCopy.FieldsInjective` | src/extract.rs:64-158 | an encoded row or key determines its fields, given how many there are |
| `Fields.WriteFieldBinary` | src/extract.rs:64-158 | appends exactly the column's COPY form, null when the record ends before it |
| `Keys.ValueSurvives` | src/extract.rs:88-145 | PostgreSQL reads back the integer, floating-point bits, day or instant the column held |
| `Keys.ColumnIs` | src/cdc.rs:147-152 | a column is null exactly by its own bit of the bitmap, eight to a byte from the lowest, all set past the record's end, or when the format lacks it |
| `Keys.ValueIffHeld` | src/extract.rs:64-158 | a column is null exactly if the record ends before it or its type is unknown |
| `Keys.BooleanSurvives` | src/extract.rs:146-149 | a boolean arrives as 0 for the stored byte 0 and as 1 for every other |
| `Keys.ScaledSurvives` | src/extract.rs:88-118 | a scaled integer arrives as the 64 bits of its double |
| `Keys.DayZero` | src/extract.rs:128-132 | a date encodes as day 0 exactly if it is day 51544, the first of January 2000 |
| `Keys.TextSurvives` | src/extract.rs:71-87 | a text column arrives as well-formed UTF-8 for its bytes without trailing blanks and NULs, cut at the record's end |
| `Keys.TrimmedIs` | src/extract.rs:75-84 | the last byte above a blank ends the text; a text without one is empty as CHAR and whole as VARCHAR |
| `Keys.KeyColumnInjective` | src/extract.rs:88-145 | for unscaled integer, floating-point, date, time and timestamp columns equal encodings come from equal stored bytes, wherever the two formats put the column |
| `Keys.EncodedKeysEqual` | src/cdc.rs:603-625 | encoded keys of two records, each read in its own format, are equal exactly when all stored key columns are, so sets of encodings are sets of keys |
| `Keys.TimestampsCollide` | src/extract.rs:139-145 | two timestamps encode alike if and only if their ticks make up the distance between their days; never below 864000000 ticks |
| `Keys.MidnightCollides` | src/extract.rs:139-145 | one tick count too high is the next midnight |
| `Keys.KeyLength` | src/cdc.rs:207-229 | a key encodes to the stride if and only if none of its columns is null, and otherwise shorter |
| `Keys.PkPgcopyStride` | src/cdc.rs:207-229 | the stride is the sum of the fixed column sizes, 0 if a column is unknown or variable |
| `Keys.StrideIff` | src/cdc.rs:207-229 | there is a stride if and only if there is a key and each of its columns is known and of fixed length |
| `Keys.SizeFixedIff` | src/cdc.rs:207-229 | the types of fixed length are all but the texts, and each length is that of the stored column, 8 for scaled integers and times |
| `Keys.DecodersAgree` | src/cdc.rs:147-152 | change capture and extraction decode every record alike, a column its format lacks being null |
| `Keys.FieldFits` | src/extract.rs:64-158 | every field fits its 32-bit length word |
| `Text.TranscodeMeans` | src/extract.rs:18-51 | the output is well-formed UTF-8 (sections 3 and 4 of RFC 3629) that decodes to the table image of the non-NUL bytes in order |
| `Text.TranscodeInjective` | src/extract.rs:7-12 | two inputs transcode alike if and only if they agree without their NUL bytes |
| `Text.TranscodeAtMostTriples` | src/extract.rs:18-51 | at most three bytes per byte |
| `Text.Win1252ToUtf8` | src/extract.rs:18-51 | the ASCII fast path and the copied runs agree with the byte-wise form |
| `Extract.CopyStreamParses` | src/extract.rs:194-274 | the extraction stream reads back as exactly the extracted rows with every column, for any mix of record formats |
| `Extract.ExtractionIsExact` | src/extract.rs:221-262 | its rows are, in the order of pages and slots, what each slot of the listed data pages gives: a row is there as often as slots give it, and the count is their number |
| `Extract.ExtractedIs` | src/extract.rs:235-247 | a slot gives its live row, or, being the head of a current fragmented record, the row of its chain's pieces in the head's format |
| `Extract.ExtractionIsLive` | src/extract.rs:221-262 | so the stream holds the live rows of the listed pages and the rows of fragmented records, and no others |
| `Extract.FirstScanIsExtraction` | src/cdc.rs:844-857 | a scan that sees every record as extraction does writes the same upsert stream, byte for byte, and the same count |
| `Extract.ExtractionSeesLiveRows` | src/extract.rs:221-247 | extraction takes exactly the rows change capture sees live, except fragmented heads, which change capture never sees |
| `Extract.WriteCopyStream` | src/extract.rs:194-274 | every row of every listed data page once, in order, and their count |
| `Replica.AppliedIs` | src/merge.rs:85-178 | an accepted delta leaves exactly the old rows neither deleted nor upserted, and the upserted rows |
| `Replica.ApplyTwice` | src/merge.rs:118-152 | applying an accepted delta again changes nothing |
| `Replica.Database.ApplyDelta` | src/merge.rs:69-178 | all or nothing, for any failure; success is reported only if the commit's answer arrives |
| `SnapshotFile.SnapshotRoundTrip` | src/cdc.rs:54-132 | load after save returns exactly the map of the entries with a non-zero stride and a non-empty page map, whatever order the hash maps are iterated in |
| `SnapshotFile.ListedExactly` | src/cdc.rs:93-129 | reading a listing of a map back gives the map |
| `SnapshotFile.CountFitsFile` | src/cdc.rs:96-101 | a file that loads as anything but the empty map holds at least 16 bytes per table it counts |
| `SnapshotFile.TableLength` | src/cdc.rs:102-125 | a table that loads has 8 bytes for each page it counts |
| `SnapshotFile.DamagedCountIsAsked` | src/cdc.rs:99-100 | for every count a 16-byte file that has room made for it and loads as the empty map |
| `SnapshotFile.TornFileIsEmpty` | src/cdc.rs:86-132 | every strict prefix of a saved file loads as the empty map |
| `SnapshotExact.LoadExact` | src/cdc.rs:88-132 | a file loads as a map with entries if and only if it begins with a listing of tables as written, names in UTF-8 and sizes within their fields, whatever follows |
| `SnapshotFile.ForeignFileIsEmpty` | src/cdc.rs:96-98 | a short file, one of another kind or of another version loads as the empty map |
| `SnapshotFile.SaveSnapshots` | src/cdc.rs:54-84 | the writer's loops |
| `SnapshotFile.LoadSnapshots` | src/cdc.rs:88-132 | the reader's loops, every truncation and mismatch giving the empty map |
| `Wire.ChunkedRoundTrip` | src/wire.rs:143-194 | whatever was written is read back under every schedule of non-empty buffers and short inner reads, and the reader stops right after the terminator |
| `Wire.TruncationDetected` | src/wire.rs:178-194 | a stream cut anywhere is never reported done, and enough reads report the cut |
| `Wire.ChunkFitsExactly` | src/wire.rs:157-166 | a chunk survives framing exactly when its length is below 2^32 |
| `Wire.RunFailsIffStarved` | src/wire.rs:178-194 | over a terminated stream a schedule of reads fails if and only if it meets an empty buffer before the terminator is next |
| `Wire.ChunkReader.Read` | src/wire.rs:178-194 | one read, for every buffer and every short inner read |
| `Wire.ChunkWriter.Write` | src/wire.rs:157-166 | one frame per non-empty write |
| `Wire.ChunkWriter.BytesWritten` | src/wire.rs:147-149 | the framed length without the terminator |
| `Wire.DeltaRequestRoundTrip` | src/sink.rs:96-119 | a delta request is received as sent, the connection left right after it, if and only if all three lengths fit 32 bits |
| `Wire.PrefixedRoundTrip` | src/wire.rs:68-80 | a blob is read back exactly when its length fits 32 bits |
| `Wire.UnprefixedIff` | src/wire.rs:73-80 | a blob is read exactly from a stream that begins with one as written; any other stream is too short |
| `Wire.CopyU32Prefixed` | src/wire.rs:82-96 | copies one body and leaves the stream after it, or fails on a short one |
| `Wire.ReadRequestHeader` | src/wire.rs:106-116 | magic, version, operation and blob, with the error of each failure |
| `Wire.HeaderIff` | src/wire.rs:106-116 | a header is read exactly from a stream that begins with one as written; a wrong magic, version or operation is refused as soon as its bytes are there, and every other stream is too short |
| `Wire.WriteRequestHeader` | src/wire.rs:100-104 | magic, version, operation and blob |
| `Wire.ChunkWriter.Finish` | src/wire.rs:150-154 | all frames and the terminator |

## Left out

- System catalog, pointer pages and blobs: format descriptors, column order, key columns and the data pages behind a pointer page are inputs; only the pointer page's generation check is modelled.
- Panics on a damaged file: a page number past the end of the file reads as an empty page and a slot table reaching past its page has no slot there, where the program stops with an index error.
- Panics on odd descriptors: a scale outside the table of powers of ten, and a DB_KEY column, are excluded by preconditions of the writers.
- Fields.WriteFieldBinary: the double a scaled integer becomes is an arbitrary function of the integer and its scale, because rounding is not modelled.
- Replica.Database.ApplyDelta: rows are compared by their encoded bytes, not by SQL equality; SQL text, temporary tables and the streaming variant in the gateway are not modelled.
- FlatPk.SortDedupConst: the library sort of fixed-size arrays is stood in for by the project's own heapsort, since only its result matters.
- Injective keys: text, boolean and scaled key columns are outside `Keys.KeyColumnInjective`, because their encodings identify different stored bytes.
- Express.ExpressDeletes: beyond stride 64 the keys emitted depend on the order in which the hash maps are iterated, which is left open.
- Runs.RunConverges: the table has one schema whenever a turn reads the catalog, so a stride that changed while the program was down is outside the runs; the stride stored in the snapshot file is discarded by the program. Beyond stride 64, and for a turn that compares with a snapshot not of the pages last seen, `Runs.RunExact` gives the condition.
- Watch.Watcher.Cycle: what is written is read back as written. A state file that cannot be written ends the program and counts as a crash. Sleeping, timing and the totals that only feed debug output are not modelled.
- Extract.WriteCopyStream: the per-format cache of slots, the progress callback, and an unreadable latest format, which the caller has read before.
- Response messages, JSON headers, TLS, certificates, tenants, schema creation and the command line.
- Memory maps and concurrent writers: a cycle sees one fixed file.
