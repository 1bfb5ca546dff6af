/**
 A concrete table of one row, and what can go wrong with it: its page leaves the page list,
 another table's transactions overtake it, its snapshot is older than its generations, it
 comes and goes behind a crash, its neighbour vanishes behind a lost snapshot, or its page
 never gets onto the list.
 */
module OneRowTable {
  import opened Bytes
  import opened Fields
  import opened Keys
  import opened Ods
  import opened Changes
  import opened RecordScan
  import opened ChunkRows
  import opened Express
  import opened Scan
  import opened ScanFacts
  import opened Replica
  import opened Sync
  import opened Watch
  import opened Live
  import opened OneCycle
  import opened Convergence
  import opened Runs
  import opened Replay
  import PgCopy

  /** An INTEGER column at offset 4, behind a null bitmap. */
  const ID := Desc(DTYPE_LONG, 0, 4, 4)
  const SLOTS: seq<Slot> := [Slot(ID, 0, 1)]
  const PK: PkIndices := [Some(0)]
  const ID_TABLE := Schema((v: int, decimals: int) => 0, SLOTS, map[], PK, 8)

  /** A null bitmap and the value 42. */
  const DATA: Bytes := [0, 0, 0, 0, 42, 0, 0, 0]

  /** An unpacked record of transaction 5. */
  const RECORD: Bytes := [5, 0, 0, 0, 0, 0, 0, 0, 0, 0, 0, 8, 0, 0, 0, 0, 0, 42, 0, 0, 0]

  /** A data page of generation 7 with one slot, at offset 32, of 21 bytes. */
  const PAGE_HEAD: Bytes :=
    [5, 0, 0, 0, 7, 0, 0, 0, 0, 0, 0, 0, 0, 0, 0, 0, 0, 0, 0, 0, 0, 0, 1, 0, 32, 0, 21, 0, 0, 0, 0, 0]
  const PAGE: Bytes := PAGE_HEAD + RECORD

  const ROW: Row := [FieldOf(DATA, ID, ID_TABLE.scaling)]
  const FLAT: Bytes := EncodeFields(ROW)

  lemma TableTracks()
    ensures Tracking(ID_TABLE)
  {
    assert PK[1..] == [];
    assert SLOTS[PK[0].value].desc == ID && PayloadSize(ID) == 4;
    assert Fixed([], SLOTS) && SizeSum([], SLOTS) == 0;
    assert Fixed(PK, SLOTS) && SizeSum(PK, SLOTS) == 4 + 4 + SizeSum(PK[1..], SLOTS);
  }

  lemma PageHoldsRecord()
    ensures SlotCount(PAGE) == 1 && SlotBytes(PAGE, 0) == Some(RECORD) && IsDataPage(PAGE)
    ensures forall raw :: OnPage(PAGE, raw) <==> raw == RECORD
  {
    assert |PAGE_HEAD| == 32 && |RECORD| == 21 && |PAGE| == 53;
    assert forall i :: 0 <= i < 32 ==> PAGE[i] == PAGE_HEAD[i];
    assert WordAt(PAGE, 22) == 1 && WordAt(PAGE, 24) == 32 && WordAt(PAGE, 26) == 21;
    assert PAGE[32..53] == RECORD;
  }

  lemma RecordFlags()
    ensures HasHeader(RECORD) && Flags(RECORD) == 2048
    ensures U32Le(RECORD, 0) == 5
  {
    assert RECORD[10..12] == [0, 8];
    var flags: Bytes := [0, 8];
    assert flags[1..] == [8];
    var txn: Bytes := [5, 0, 0, 0];
    assert RECORD[0..4] == txn;
    assert txn[1..] == [0, 0, 0];
    var zeros: Bytes := [0, 0, 0];
    assert zeros[1..] == [0, 0];
    assert FromLe([0, 0]) == 0;
  }

  lemma RecordIsWhole()
    ensures HasHeader(RECORD) && Has(RECORD, RHD_NOT_PACKED) && !Has(RECORD, RHD_LONG_TRANUM)
    ensures !Has(RECORD, RHD_DELETED) && !Has(RECORD, RHD_CHAIN) && !Partial(RECORD)
  {
    hide U16Le;
    RecordFlags();
  }

  lemma DataHasRow()
    ensures RowOf(DATA, SLOTS, ID_TABLE.scaling) == ROW
  {
    hide FieldOf;
  }

  lemma RecordIsLive()
    ensures RecordTransaction(RECORD) == Some(5) && LiveRow(ID_TABLE, RECORD) == Some(ROW)
  {
    hide FieldOf, U32Le, U16Le, Has, RowOf;
    RecordFlags();
    RecordIsWhole();
    DataHasRow();
    assert RECORD[13..] == DATA;
  }

  lemma RowEncodes()
    ensures |ROW| == 1 && KeyOfRow(ROW, PK) == ROW && |FLAT| == 8 && PgCopy.AllFit(ROW)
    ensures Chunks(FLAT, 8) == [FLAT]
  {
    assert ROW[1..] == [];
    assert EncodeFields(ROW) == EncodeField(ROW[0]) + [];
    assert FLAT[..8] == FLAT && FLAT[8..] == [];
  }

  // ── In step ──

  const SEEN: Pages := map[1 := PAGE]
  const GENS: Gens := map[1 := 7]
  const PREV: Snapshot := map[1 := FLAT]
  const REPLICA: Table := map[ROW := ROW]

  lemma PageGeneration()
    ensures Generation(PAGE) == 7
  {
    var gen: Bytes := [7, 0, 0, 0];
    assert |PAGE_HEAD| == 32;
    assert PAGE_HEAD[4] == 7 && PAGE_HEAD[5] == 0 && PAGE_HEAD[6] == 0 && PAGE_HEAD[7] == 0;
    assert PAGE[4] == 7 && PAGE[5] == 0 && PAGE[6] == 0 && PAGE[7] == 0;
    assert PAGE[4..8] == gen;
    assert gen[1..] == [0, 0, 0];
    var zeros: Bytes := [0, 0, 0];
    assert zeros[1..] == [0, 0];
    assert FromLe([0, 0]) == 0;
  }

  lemma SnapshotHolds()
    requires Tracking(ID_TABLE)
    ensures SnapshotOf(ID_TABLE, PREV, SEEN) && PagesKeyed(ID_TABLE, SEEN) && KeysOnly(PREV, 8, 1)
  {
    hide Tracking, LiveRow, SnapshotKey, EncodeFields, OnPage, Chunks, PgCopy.AllFit, Schema.Valid;
    TrackedIsValid(ID_TABLE);
    PageHoldsRecord();
    RecordIsLive();
    RowEncodes();
    SnapshotKeyIs(ID_TABLE, RECORD);
    assert SnapshotKey(ID_TABLE, RECORD) == Some(FLAT);
    forall k
      ensures InFlat(PREV[1], 8, k) <==> PageKey(ID_TABLE, SEEN[1], k)
      ensures HasKey(PREV, 8, k) ==> IsKey(k, 1)
    {
      if k == FLAT { assert OnPage(SEEN[1], RECORD); }
    }
  }

  lemma ReplicaHolds()
    requires Tracking(ID_TABLE)
    ensures IsTable(ID_TABLE, SEEN, REPLICA) && Keyed(REPLICA, MetaOf(ID_TABLE))
  {
    hide Tracking, LiveRow, OnPage, EncodeFields, KeyOfRow, Schema.Valid;
    MetaIsValid(ID_TABLE);
    PageHoldsRecord();
    RecordIsLive();
    RowEncodes();
    assert IsLive(ID_TABLE, RECORD, ROW, ROW);
    assert OnPage(SEEN[1], RECORD);
    forall k, row | LiveIn(ID_TABLE, SEEN, k, row)
      ensures k == ROW && row == ROW
    {
      var p, raw :| p in SEEN && OnPage(SEEN[p], raw) && IsLive(ID_TABLE, raw, k, row);
    }
  }

  lemma PageIsMarked()
    requires Tracking(ID_TABLE) && PagesKeyed(ID_TABLE, SEEN)
    ensures Marks(ID_TABLE, GENS, 5, SEEN)
  {
    hide Tracking, OnPage, PagesKeyed, RecordTransaction, Generation, FieldOf, LiveRow, Schema.Valid;
    PageGeneration();
    PageHoldsRecord();
    RecordIsLive();
  }

  lemma ReplicaInStep()
    ensures Tracking(ID_TABLE) && InStep(ID_TABLE, GENS, PREV, REPLICA, 5, SEEN)
  {
    hide Tracking, Marks, SnapshotOf, PagesKeyed, KeysOnly, IsTable, FieldOf, EncodeFields, Keyed;
    TableTracks();
    SnapshotHolds();
    PageIsMarked();
    ReplicaHolds();
  }

  // ── The page leaves the list ──

  /** The file no longer lists the page, nor holds it. */
  const VIEW := View(Db(map[]), ID_TABLE, 5)

  ghost const EMPTY_SCAN :=
    ScanOutput(PgCopy.Stream([]), Opened([]) + KeyTuples(1, []) + PgCopy.Trailer(), 0, 0, [], 5, map[], map[], 0, 0, 0)

  lemma ScanFindsNothing()
    requires Tracking(ID_TABLE)
    ensures IsScan(VIEW, GENS, PREV, [], EMPTY_SCAN)
  {
    hide Tracking, EncodeFields, PgCopy.Header, KeyTuples, Schema.Valid, InFlat, Vanished;
    TrackedIsValid(ID_TABLE);
    assert NewGens(VIEW.db, GENS, []) == map[];
    NothingNew(PREV, 8);
  }

  lemma NothingToPromise()
    requires Tracking(ID_TABLE)
    ensures Faithful(VIEW, GENS, [], SEEN)
  {
    hide Tracking, OnPage, Schema.Valid, IsLive, ChangedRow, StubKey;
  }

  /**
   A concrete cycle that does not converge: every promise about the file holds, the table
   was in step, and the row that went with its page stays in the replica.
   */
  lemma RowOutlivesPage()
    ensures Tracking(ID_TABLE) && InStep(ID_TABLE, GENS, PREV, REPLICA, 5, SEEN)
    ensures IsFaithfulCycle(VIEW, GENS, PREV, [], EMPTY_SCAN, REPLICA, REPLICA, SEEN)
    ensures !IsTable(ID_TABLE, PagesOf(VIEW.db, []), REPLICA)
  {
    hide Tracking, Faithful, IsScan, IsTable, PagesOf, Marks, SnapshotOf, KeysOnly, Keyed, Filed;
    ReplicaInStep();
    TableIsFiled(ID_TABLE, SEEN, REPLICA);
    NothingToPromise();
    ScanFindsNothing();
    NoPagesNoRows(ID_TABLE, VIEW.db, REPLICA);
    assert ROW in REPLICA;
  }

  // ── Another table overtakes it ──

  const FILE := Db(map[1 := PAGE])

  lemma RecordIsUpsert()
    requires Tracking(ID_TABLE)
    ensures ChangedRow(ID_TABLE, RECORD) == Some(ROW)
    ensures StubKey(FILE, ID_TABLE, RECORD) == None
  {
    hide FieldOf, Stride, LiveRow, Tracking, RowOf, U32Le, U16Le, Has, RecordTransaction, PayloadFrom, DataStart;
    TrackedIsValid(ID_TABLE);
    RecordIsLive();
    RecordIsWhole();
    LiveIsChanged(ID_TABLE, RECORD);
    LiveIsNoStub(RECORD);
  }

  lemma OnlyRecordListed(p: int, raw: Bytes)
    ensures Listed(FILE, [1], p, raw) <==> p == 1 && raw == RECORD
  {
    hide OnPage, IsDataPage;
    PageHoldsRecord();
  }

  lemma EarlyCycleUpserts()
    requires Tracking(ID_TABLE)
    ensures ROW in PagesFound(View(FILE, ID_TABLE, 0), map[], true, [1]).upserts
  {
    hide Tracking, PagesFound, Listed, Generation, StubKey, ChangedRow, RecordTransaction, Schema.Valid;
    TrackedIsValid(ID_TABLE);
    RecordIsUpsert();
    RecordIsLive();
    var early := View(FILE, ID_TABLE, 0);
    OnlyRecordListed(1, RECORD);
    assert IsUpsert(early, map[], 1, RECORD, ROW);
    UpsertsAre(early, map[], true, [1], ROW);
  }

  lemma LateCycleFindsNothing()
    requires Tracking(ID_TABLE)
    ensures PagesFound(View(FILE, ID_TABLE, 9), map[], true, [1]).upserts == []
    ensures PagesFound(View(FILE, ID_TABLE, 9), map[], true, [1]).stubs == []
  {
    hide Tracking, PagesFound, Listed, Generation, StubKey, ChangedRow, RecordTransaction, Schema.Valid;
    TrackedIsValid(ID_TABLE);
    RecordIsUpsert();
    RecordIsLive();
    forall p, raw
      ensures Listed(FILE, [1], p, raw) <==> p == 1 && raw == RECORD
    {
      OnlyRecordListed(p, raw);
    }
    var late := View(FILE, ID_TABLE, 9);
    var found := PagesFound(late, map[], true, [1]);
    if found.upserts != [] { UpsertsAre(late, map[], true, [1], found.upserts[0]); }
    if found.stubs != [] { StubsAre(late, map[], true, [1], found.stubs[0]); }
  }

  lemma RowIsInFile(db: Db, pages: seq<int>, p: int)
    requires Tracking(ID_TABLE) && p in pages && db.Page(p) == PAGE
    ensures LiveKey(ID_TABLE, PagesOf(db, pages), ROW)
  {
    hide Tracking, OnPage, LiveRow, Schema.Valid, KeyOfRow;
    PageHoldsRecord();
    RecordIsLive();
    RowEncodes();
    assert IsLive(ID_TABLE, RECORD, ROW, ROW);
    assert PagesOf(db, pages)[p] == PAGE;
    assert LiveIn(ID_TABLE, PagesOf(db, pages), ROW, ROW);
  }

  lemma FileHasGeneration()
    ensures NewGens(FILE, map[], [1]) == map[1 := 7]
  {
    hide Generation, IsDataPage;
    PageHoldsRecord();
    PageGeneration();
  }

  /**
   The row of transaction 5 is upserted by a cycle at watermark 0. If that delta fails and
   some other table raises the global watermark to 9, the retry has no delta at all: it is
   done, the page's generation is recorded, and the replica lacks a row the file holds.
   */
  lemma OvertakenRowIsLost(out: ScanOutput)
    requires Tracking(ID_TABLE) && IsScan(View(FILE, ID_TABLE, 9), map[], map[], [1], out)
    ensures ROW in PagesFound(View(FILE, ID_TABLE, 0), map[], true, [1]).upserts
    ensures !HasDelta(out) && out.newGens == map[1 := 7]
    ensures LiveKey(ID_TABLE, PagesOf(FILE, [1]), ROW)
  {
    hide Tracking, PagesFound, LiveKey, Schema.Valid, PgCopy.Stream, Opened, KeyTuples, AreNewSnapshots, NewGens;
    TrackedIsValid(ID_TABLE);
    EarlyCycleUpserts();
    LateCycleFindsNothing();
    FileHasGeneration();
    RowIsInFile(FILE, [1], 1);
  }

  // ── Its snapshot is older than its generations ──

  /** A data page of generation 8 without slots. */
  const BLANK: Bytes := [5, 0, 0, 0, 8, 0, 0, 0, 0, 0, 0, 0, 0, 0, 0, 0, 0, 0, 0, 0, 0, 0, 0, 0]

  /** The row has moved from page 1 to page 2. */
  const MOVED := Db(map[1 := BLANK, 2 := PAGE])

  /** The state file knows page 2 as it is; the snapshot file still has the row on page 1. */
  const SAVED_GENS: Gens := map[1 := 7, 2 := 7]
  const OLD_SNAPSHOT: Snapshot := map[1 := FLAT, 2 := []]

  lemma BlankPage()
    ensures IsDataPage(BLANK) && Generation(BLANK) == 8 && forall raw :: !OnPage(BLANK, raw)
  {
    var gen: Bytes := [8, 0, 0, 0];
    assert |BLANK| == 24;
    assert BLANK[4] == 8 && BLANK[5] == 0 && BLANK[6] == 0 && BLANK[7] == 0;
    assert BLANK[4..8] == gen;
    assert gen[1..] == [0, 0, 0];
    var zeros: Bytes := [0, 0, 0];
    assert zeros[1..] == [0, 0];
    assert FromLe([0, 0]) == 0;
    assert SlotCount(BLANK) == 0;
  }

  const LOOK := View(MOVED, ID_TABLE, 5)

  lemma MovedPages()
    ensures Visited(MOVED, 1) && Visited(MOVED, 2)
    ensures Changed(MOVED, SAVED_GENS, 1) && !Changed(MOVED, SAVED_GENS, 2)
  {
    hide OnPage, IsDataPage, Generation;
    BlankPage();
    PageHoldsRecord();
    PageGeneration();
  }

  lemma OldSnapshotIsKeys()
    ensures KeysOnly(OLD_SNAPSHOT, 8, 1)
  {
    hide EncodeFields, PgCopy.AllFit;
    RowEncodes();
    assert IsKey(FLAT, 1);
    assert Chunks([], 8) == [];
  }

  lemma NothingOnMoved(row: Row)
    requires Tracking(ID_TABLE)
    ensures !Written(LOOK, SAVED_GENS, [1, 2], ROW, row)
  {
    hide Tracking, Schema.Valid, OnPage, Visited, Changed, ChangedRow, LiveRow, KeyOfRow;
    MovedPages();
    BlankPage();
  }

  lemma NothingStubbed()
    requires Tracking(ID_TABLE)
    ensures !Stubbed(LOOK, [1, 2], ROW)
  {
    hide Tracking, Schema.Valid, OnPage, Visited, StubKey, RecordTransaction;
    TrackedIsValid(ID_TABLE);
    RecordIsLive();
    BlankPage();
    PageHoldsRecord();
  }

  lemma RowIsUnchanged()
    requires Tracking(ID_TABLE)
    ensures LiveUnchanged(LOOK, SAVED_GENS, [1, 2], 2, ROW, ROW)
  {
    hide Tracking, Schema.Valid, OnPage, Visited, Changed, LiveRow, KeyOfRow;
    MovedPages();
    PageHoldsRecord();
    RecordIsLive();
    RowEncodes();
    assert IsLive(ID_TABLE, RECORD, ROW, ROW);
  }

  lemma RowIsDiffed()
    requires Tracking(ID_TABLE)
    ensures ID_TABLE.Valid() && Diffed(LOOK, SAVED_GENS, OLD_SNAPSHOT, [1, 2], FLAT)
  {
    hide Tracking, Schema.Valid, OnPage, Visited, Changed, SnapshotKey, EncodeFields;
    TrackedIsValid(ID_TABLE);
    MovedPages();
    BlankPage();
    RowEncodes();
    assert InFlat(OLD_SNAPSHOT[1], 8, FLAT);
    assert Chunks([], 8) == [];
  }

  lemma DeltaHasOneDelete(out: ScanOutput)
    requires Tracking(ID_TABLE) && IsScan(LOOK, SAVED_GENS, OLD_SNAPSHOT, [1, 2], out)
    ensures HasDelta(out) && DeltaApplied(REPLICA, ID_TABLE, out).Some?
  {
    hide Tracking, Schema.Valid, PagesFound, IsScan, Diffed, EncodeFields, ChangedRow, Listed, DeltaApplied, KeysOnly,
         KeyOfRow;
    RowIsDiffed();
    OldSnapshotIsKeys();
    ExpressedIsDiffed(LOOK, SAVED_GENS, OLD_SNAPSHOT, [1, 2], out, FLAT);
    var found := PagesFound(LOOK, SAVED_GENS, false, [1, 2]);
    ScanCounts(out);
    AcceptedIff(LOOK, SAVED_GENS, OLD_SNAPSHOT, [1, 2], out, REPLICA);
    NoUpserts();
  }

  lemma ScanCounts(out: ScanOutput)
    requires Tracking(ID_TABLE) && IsScan(LOOK, SAVED_GENS, OLD_SNAPSHOT, [1, 2], out)
    ensures !FirstCycle(ID_TABLE, OLD_SNAPSHOT) && out.deletes >= |out.expressKeys|
  {
    hide Tracking, PagesFound, IsExpress, AreNewSnapshots, NewGens, PgCopy.Stream, Opened, KeyTuples;
    assert 1 in OLD_SNAPSHOT;
  }

  lemma NoUpserts()
    requires Tracking(ID_TABLE)
    ensures ID_TABLE.Valid() && PagesFound(LOOK, SAVED_GENS, false, [1, 2]).upserts == []
  {
    hide Tracking, Schema.Valid, PagesFound, OnPage, Visited, Changed, ChangedRow;
    TrackedIsValid(ID_TABLE);
    var ups := PagesFound(LOOK, SAVED_GENS, false, [1, 2]).upserts;
    MovedPages();
    BlankPage();
    if ups != [] { UpsertsAre(LOOK, SAVED_GENS, false, [1, 2], ups[0]); }
  }

  /**
   After a crash between the two saves, the next change of page 1 deletes the row from the
   replica although page 2 holds it: PostgreSQL accepts the delta, whatever the scan's order.
   */
  lemma StaleSnapshotDeletesRow(out: ScanOutput)
    requires Tracking(ID_TABLE) && IsScan(LOOK, SAVED_GENS, OLD_SNAPSHOT, [1, 2], out)
    ensures HasDelta(out) && DeltaApplied(REPLICA, ID_TABLE, out).Some?
    ensures ROW !in DeltaApplied(REPLICA, ID_TABLE, out).value && LiveIn(ID_TABLE, PagesOf(MOVED, [1, 2]), ROW, ROW)
  {
    hide Tracking, Schema.Valid, IsScan, Diffed, Written, Stubbed, LiveUnchanged, EncodeFields, KeysOnly, DeltaApplied,
         Filed, IsTable, PagesOf;
    TrackedIsValid(ID_TABLE);
    DeltaHasOneDelete(out);
    OldSnapshotIsKeys();
    RowIsDiffed();
    NothingStubbed();
    RowIsUnchanged();
    ReplicaHolds();
    TableIsFiled(ID_TABLE, SEEN, REPLICA);
    forall row
      ensures !Written(LOOK, SAVED_GENS, [1, 2], ROW, row)
    {
      NothingOnMoved(row);
    }
    StaleSnapshotDeletes(LOOK, SAVED_GENS, OLD_SNAPSHOT, [1, 2], out, REPLICA,
                         DeltaApplied(REPLICA, ID_TABLE, out).value, 2, ROW);
  }

  // ── It comes and goes behind a crash ──

  /** When the state was saved page 1 was of generation 6 and had no slots. */
  const BEFORE: Bytes := [5, 0, 0, 0, 6, 0, 0, 0, 0, 0, 0, 0, 0, 0, 0, 0, 0, 0, 0, 0, 0, 0, 0, 0]

  const SAVED_ALONE: Gens := map[1 := 6]

  /** Transaction 5 put the row there and a cycle upserted it; before the next save the row was gone again. */
  const EMPTIED := Db(map[1 := BLANK])
  const AFTER_CRASH := View(EMPTIED, ID_TABLE, 4)
  const SAVED_SEEN: Pages := map[1 := BEFORE]
  const NO_KEYS: Snapshot := map[1 := []]

  lemma BeforePage()
    ensures IsDataPage(BEFORE) && Generation(BEFORE) == 6 && forall raw :: !OnPage(BEFORE, raw)
  {
    var gen: Bytes := [6, 0, 0, 0];
    assert |BEFORE| == 24;
    assert BEFORE[4] == 6 && BEFORE[5] == 0 && BEFORE[6] == 0 && BEFORE[7] == 0;
    assert BEFORE[4..8] == gen;
    assert gen[1..] == [0, 0, 0];
    var zeros: Bytes := [0, 0, 0];
    assert zeros[1..] == [0, 0];
    assert FromLe([0, 0]) == 0;
    assert SlotCount(BEFORE) == 0;
  }

  lemma NoKeysSaved(schema: Schema, page: Bytes)
    requires schema.Valid() && (forall raw :: !OnPage(page, raw))
    ensures AllKeyed(schema, page) && forall k :: !PageKey(schema, page, k)
  {
    hide OnPage, LiveRow, SnapshotKey;
  }

  /** What was saved is of the page as it was then. */
  lemma SavedIsRemembered()
    requires Tracking(ID_TABLE)
    ensures Remembers(ID_TABLE, SAVED_ALONE, NO_KEYS, 4, SAVED_SEEN)
  {
    hide Tracking, Schema.Valid, OnPage, PageKey, AllKeyed, RecordTransaction, Generation;
    TrackedIsValid(ID_TABLE);
    BeforePage();
    NoKeysSaved(ID_TABLE, BEFORE);
    assert Chunks([], 8) == [];
  }

  lemma EmptiedPage()
    ensures Visited(EMPTIED, 1) && Changed(EMPTIED, SAVED_ALONE, 1) && forall p, raw :: !Listed(EMPTIED, [1], p, raw)
  {
    hide OnPage, IsDataPage, Generation;
    BlankPage();
  }

  lemma NothingInEmptied()
    requires Tracking(ID_TABLE)
    ensures (forall k, row :: !LiveIn(ID_TABLE, PagesOf(EMPTIED, [1]), k, row)) &&
            PagesKeyed(ID_TABLE, PagesOf(EMPTIED, [1]))
  {
    hide Tracking, Schema.Valid, OnPage, IsLive, Visited, AllKeyed;
    TrackedIsValid(ID_TABLE);
    BlankPage();
    NoKeysSaved(ID_TABLE, BLANK);
    assert forall p :: p in PagesOf(EMPTIED, [1]) ==> p == 1 && PagesOf(EMPTIED, [1])[p] == BLANK;
  }

  lemma EmptiedKeepsPromises()
    requires Tracking(ID_TABLE)
    ensures Faithful(AFTER_CRASH, SAVED_ALONE, [1], SAVED_SEEN)
  {
    hide Tracking, Schema.Valid, Listed, LiveIn, PagesOf, PagesKeyed, Visited, Changed, LiveRow, ChangedRow, IsLive;
    EmptiedPage();
    NothingInEmptied();
  }

  lemma EmptiedHasNoDelta(out: ScanOutput)
    requires Tracking(ID_TABLE) && IsScan(AFTER_CRASH, SAVED_ALONE, NO_KEYS, [1], out)
    ensures !HasDelta(out)
  {
    hide Tracking, Schema.Valid, PagesFound, Listed, AreNewSnapshots, NewGens, PgCopy.Stream, Opened, KeyTuples,
         Swept, Alive;
    TrackedIsValid(ID_TABLE);
    EmptiedPage();
    var first := FirstCycle(ID_TABLE, NO_KEYS);
    var found := PagesFound(AFTER_CRASH, SAVED_ALONE, first, [1]);
    if found.upserts != [] { UpsertsAre(AFTER_CRASH, SAVED_ALONE, first, [1], found.upserts[0]); }
    if found.stubs != [] { StubsAre(AFTER_CRASH, SAVED_ALONE, first, [1], found.stubs[0]); }
    assert Chunks([], 8) == [];
    assert forall k :: !Vanished(NO_KEYS, out.newPks, 8, k);
    HasFirst(out.expressKeys);
  }

  lemma RowIsNoNull()
    ensures NoNull(ROW) && |ROW| == 1 && ROW[0] != Null
  {
  }

  lemma OnlyRowFound(first: bool)
    requires Tracking(ID_TABLE)
    ensures ID_TABLE.Valid()
    ensures forall row :: row in PagesFound(View(FILE, ID_TABLE, 4), SAVED_ALONE, first, [1]).upserts <==> row == ROW
  {
    hide Tracking, PagesFound, Listed, Generation, StubKey, ChangedRow, RecordTransaction, Schema.Valid;
    TrackedIsValid(ID_TABLE);
    RecordIsUpsert();
    RecordIsLive();
    PageGeneration();
    var v := View(FILE, ID_TABLE, 4);
    OnlyRecordListed(1, RECORD);
    assert IsUpsert(v, SAVED_ALONE, 1, RECORD, ROW);
    forall row
      ensures row in PagesFound(v, SAVED_ALONE, first, [1]).upserts <==> row == ROW
    {
      UpsertsAre(v, SAVED_ALONE, first, [1], row);
      if p, raw :| Listed(v.db, [1], p, raw) && IsUpsert(v, SAVED_ALONE, p, raw, row) { OnlyRecordListed(p, raw); }
    }
  }

  lemma NoKeysAreKeys()
    ensures KeysOnly(NO_KEYS, 8, 1)
  {
    assert Chunks([], 8) == [];
  }

  lemma RowIsAccepted(ups: seq<Row>)
    requires Tracking(ID_TABLE) && forall row :: row in ups <==> row == ROW
    ensures MetaOf(ID_TABLE).Valid() && Wide(ups, 1) && !Rejected(ups, MetaOf(ID_TABLE))
  {
    hide Tracking, FieldOf, NoNull, KeyOfRow, RepeatsKey;
    MetaIsValid(ID_TABLE);
    IdIsAllKey();
    RowIsNoNull();
    RowEncodes();
    forall i | 0 <= i < |ups|
      ensures ups[i] == ROW
    {
      assert ups[i] in ups;
    }
  }

  lemma OnlyRowWritten(k: Row)
    requires Tracking(ID_TABLE)
    ensures forall row :: Written(View(FILE, ID_TABLE, 4), SAVED_ALONE, [1], k, row) <==> row == ROW && k == ROW
  {
    hide Tracking, Schema.Valid, PagesFound, Listed, IsUpsert, KeyOfRow, FieldOf;
    var v := View(FILE, ID_TABLE, 4);
    TrackedIsValid(ID_TABLE);
    OnlyRowFound(false);
    RowIsNoNull();
    RowEncodes();
    forall row: Row
      ensures Written(v, SAVED_ALONE, [1], k, row) <==> row == ROW && k == ROW
    {
      if |row| == 1 { UpsertsAreWritten(v, SAVED_ALONE, false, [1], k, row); }
    }
  }

  lemma UnsavedOutcome(out: ScanOutput, t': Table, k: Row)
    requires IsCycle(View(FILE, ID_TABLE, 4), SAVED_ALONE, NO_KEYS, [1], out, map[], t')
    ensures k in t' <==> k == ROW
    ensures k in t' ==> t'[k] == ROW
  {
    hide IsCycle, Tracking, Written, Dropped, FieldOf, Schema.Valid;
    var v := View(FILE, ID_TABLE, 4);
    CycleTracks(v, SAVED_ALONE, NO_KEYS, [1], out, map[], t');
    CycleOutcome(v, SAVED_ALONE, NO_KEYS, [1], out, map[], t', k);
    OnlyRowWritten(k);
    assert k == ROW ==> Written(v, SAVED_ALONE, [1], k, ROW);
  }

  /** The cycle that was not saved: from an empty replica it makes the one above. */
  lemma UnsavedCycle(out: ScanOutput)
    requires Tracking(ID_TABLE) && IsScan(View(FILE, ID_TABLE, 4), SAVED_ALONE, NO_KEYS, [1], out)
    ensures HasDelta(out) && DeltaApplied(map[], ID_TABLE, out) == Some(REPLICA)
  {
    hide Tracking, Schema.Valid, IsScan, PagesFound, DeltaApplied, KeysOnly, FieldOf, Filed, Rejected;
    var v, first := View(FILE, ID_TABLE, 4), FirstCycle(ID_TABLE, NO_KEYS);
    TrackedIsValid(ID_TABLE);
    OnlyRowFound(first);
    assert ROW in PagesFound(v, SAVED_ALONE, first, [1]).upserts;
    NoKeysAreKeys();
    CountsUpserts(out, first);
    AcceptedIff(v, SAVED_ALONE, NO_KEYS, [1], out, map[]);
    RowIsAccepted(PagesFound(v, SAVED_ALONE, first, [1]).upserts);
    EmptyIsFiled();
    var t' := DeltaApplied(map[], ID_TABLE, out).value;
    forall k
      ensures k in t' <==> k == ROW
      ensures k in t' ==> t'[k] == ROW
    {
      UnsavedOutcome(out, t', k);
    }
    assert t' == REPLICA;
  }

  lemma CountsUpserts(out: ScanOutput, first: bool)
    requires Tracking(ID_TABLE) && first == FirstCycle(ID_TABLE, NO_KEYS)
    requires IsScan(View(FILE, ID_TABLE, 4), SAVED_ALONE, NO_KEYS, [1], out)
    ensures out.upserts == |PagesFound(View(FILE, ID_TABLE, 4), SAVED_ALONE, first, [1]).upserts|
  {
    hide Tracking, PagesFound, IsExpress, AreNewSnapshots, NewGens, PgCopy.Stream, Opened, KeyTuples;
  }

  lemma IdIsAllKey()
    ensures MetaOf(ID_TABLE).AllKey()
  {
    assert PK[0] == Some(0);
  }

  lemma EmptyIsFiled()
    requires Tracking(ID_TABLE)
    ensures Filed(ID_TABLE, map[])
  {
    hide Tracking;
  }

  /**
   The saved record is true of the file, and the file keeps every promise; after the restart
   no scan has a delta, so the row stays in the replica although the file has no row.
   */
  lemma UnsavedRowIsKept(out: ScanOutput)
    requires Tracking(ID_TABLE) && IsScan(AFTER_CRASH, SAVED_ALONE, NO_KEYS, [1], out)
    ensures Remembers(ID_TABLE, SAVED_ALONE, NO_KEYS, 4, SAVED_SEEN) && !HasDelta(out)
    ensures IsFaithfulCycle(AFTER_CRASH, SAVED_ALONE, NO_KEYS, [1], out, REPLICA, REPLICA, SAVED_SEEN)
    ensures !IsTable(ID_TABLE, PagesOf(EMPTIED, [1]), REPLICA)
  {
    hide Tracking, Schema.Valid, IsScan, LiveIn, PagesOf, Faithful, SnapshotOf, Marks, KeysOnly, Filed;
    SavedIsRemembered();
    EmptiedKeepsPromises();
    EmptiedHasNoDelta(out);
    ReplicaHolds();
    TableIsFiled(ID_TABLE, SEEN, REPLICA);
    NothingInEmptied();
    assert ROW in REPLICA;
  }

  // ── Its neighbour vanishes behind a lost snapshot ──

  /** The row with the value 41. It stood on page 1, which is blank now; page 2 is new. */
  const OTHER_DATA: Bytes := [0, 0, 0, 0, 41, 0, 0, 0]
  const OTHER: Row := [FieldOf(OTHER_DATA, ID, ID_TABLE.scaling)]
  const OTHER_FLAT: Bytes := EncodeFields(OTHER)

  const AT_FOUR := View(MOVED, ID_TABLE, 4)
  const KEPT: Snapshot := map[1 := OTHER_FLAT]
  const LEFT: Table := map[OTHER := OTHER]
  const BOTH: Table := map[OTHER := OTHER, ROW := ROW]

  lemma OtherEncodes()
    ensures |OTHER| == 1 && KeyOfRow(OTHER, PK) == OTHER && |OTHER_FLAT| == 8 && PgCopy.AllFit(OTHER)
    ensures Chunks(OTHER_FLAT, 8) == [OTHER_FLAT]
  {
    assert OTHER[1..] == [];
    assert EncodeFields(OTHER) == EncodeField(OTHER[0]) + [];
    assert OTHER_FLAT[..8] == OTHER_FLAT && OTHER_FLAT[8..] == [];
  }

  lemma OtherIsAnother()
    ensures OTHER != ROW && OTHER_FLAT != FLAT
  {
    hide FieldOf, EncodeFields, PgCopy.AllFit;
    assert DATA[4..8][0] == 42 && OTHER_DATA[4..8][0] == 41;
    KeyColumnInjective(OTHER_DATA, ID, DATA, ID, ID_TABLE.scaling);
    OtherEncodes();
    RowEncodes();
    if OTHER_FLAT == FLAT { PgCopy.FieldsInjective(OTHER, ROW); }
  }

  lemma PageTwoHasRow(p: int, raw: Bytes)
    ensures Listed(MOVED, [1, 2], p, raw) <==> p == 2 && raw == RECORD
    ensures Visited(MOVED, 1) && Visited(MOVED, 2) && Changed(MOVED, GENS, 1) && Changed(MOVED, GENS, 2)
  {
    hide OnPage, IsDataPage, Generation;
    BlankPage();
    PageHoldsRecord();
  }

  lemma FoundAtFour(first: bool)
    requires Tracking(ID_TABLE)
    ensures ID_TABLE.Valid()
    ensures forall row :: row in PagesFound(AT_FOUR, GENS, first, [1, 2]).upserts <==> row == ROW
    ensures forall k :: !Stubbed(AT_FOUR, [1, 2], k)
  {
    hide Tracking, PagesFound, Listed, Generation, StubKey, ChangedRow, RecordTransaction, Schema.Valid, Changed,
         FieldOf;
    TrackedIsValid(ID_TABLE);
    NoStubKey();
    RecordIsUpsert();
    RecordIsLive();
    forall p, raw
      ensures Listed(MOVED, [1, 2], p, raw) <==> p == 2 && raw == RECORD
    {
      PageTwoHasRow(p, raw);
    }
    PageTwoHasRow(2, RECORD);
    assert IsUpsert(AT_FOUR, GENS, 2, RECORD, ROW);
    forall row
      ensures row in PagesFound(AT_FOUR, GENS, first, [1, 2]).upserts <==> row == ROW
    {
      UpsertsAre(AT_FOUR, GENS, first, [1, 2], row);
    }
  }

  lemma NoStubKey()
    requires Tracking(ID_TABLE)
    ensures ID_TABLE.Valid() && StubKey(MOVED, ID_TABLE, RECORD) == None
  {
    hide Tracking, Schema.Valid, Has, U16Le, PayloadFrom, DataStart;
    TrackedIsValid(ID_TABLE);
    RecordIsWhole();
    LiveIsNoStub(RECORD);
  }

  lemma WrittenAtFour(k: Row)
    requires Tracking(ID_TABLE)
    ensures forall row :: Written(AT_FOUR, GENS, [1, 2], k, row) <==> row == ROW && k == ROW
    ensures Writes(AT_FOUR, GENS, [1, 2], k) <==> k == ROW
  {
    hide Tracking, Schema.Valid, PagesFound, Listed, IsUpsert, KeyOfRow, FieldOf, Stubbed;
    TrackedIsValid(ID_TABLE);
    FoundAtFour(false);
    RowIsNoNull();
    RowEncodes();
    forall row: Row
      ensures Written(AT_FOUR, GENS, [1, 2], k, row) <==> row == ROW && k == ROW
    {
      if |row| == 1 { UpsertsAreWritten(AT_FOUR, GENS, false, [1, 2], k, row); }
    }
    assert k == ROW ==> Written(AT_FOUR, GENS, [1, 2], k, ROW);
  }

  lemma OtherIsDiffed()
    requires Tracking(ID_TABLE)
    ensures ID_TABLE.Valid() && Diffed(AT_FOUR, GENS, KEPT, [1, 2], OTHER_FLAT)
    ensures !Diffed(AT_FOUR, GENS, map[], [1, 2], OTHER_FLAT)
  {
    hide Tracking, Schema.Valid, OnPage, Visited, Changed, SnapshotKey, EncodeFields, FieldOf, LiveRow;
    TrackedIsValid(ID_TABLE);
    PageTwoHasRow(2, RECORD);
    BlankPage();
    PageHoldsRecord();
    RecordIsLive();
    RowEncodes();
    SnapshotKeyIs(ID_TABLE, RECORD);
    OtherIsAnother();
    OtherEncodes();
    assert InFlat(KEPT[1], 8, OTHER_FLAT);
    assert MOVED.Page(1) == BLANK && MOVED.Page(2) == PAGE;
  }

  lemma KeptIsKeys()
    ensures KeysOnly(KEPT, 8, 1) && KeysOnly(map[], 8, 1)
  {
    hide EncodeFields, PgCopy.AllFit;
    OtherEncodes();
    assert IsKey(OTHER_FLAT, 1);
  }

  lemma Accepts(prev: Snapshot, out: ScanOutput, t: Table)
    requires Tracking(ID_TABLE) && IsScan(AT_FOUR, GENS, prev, [1, 2], out) && KeysOnly(prev, 8, 1)
    ensures HasDelta(out) && DeltaApplied(t, ID_TABLE, out).Some?
  {
    hide Tracking, Schema.Valid, IsScan, PagesFound, DeltaApplied, KeysOnly, FieldOf, Rejected, Stubbed;
    var first := FirstCycle(ID_TABLE, prev);
    FoundAtFour(first);
    assert ROW in PagesFound(AT_FOUR, GENS, first, [1, 2]).upserts;
    CountsFound(AT_FOUR, GENS, prev, [1, 2], out);
    AcceptedIff(AT_FOUR, GENS, prev, [1, 2], out, t);
    RowIsAccepted(PagesFound(AT_FOUR, GENS, first, [1, 2]).upserts);
  }

  lemma BothFiled()
    requires Tracking(ID_TABLE)
    ensures Filed(ID_TABLE, LEFT) && Filed(ID_TABLE, BOTH)
  {
    hide Tracking, FieldOf, KeyOfRow, PgCopy.AllFit;
    MetaIsValid(ID_TABLE);
    RowEncodes();
    OtherEncodes();
  }

  lemma WithoutSnapshot(out: ScanOutput, t': Table, k: Row)
    requires IsCycle(AT_FOUR, GENS, map[], [1, 2], out, LEFT, t')
    ensures k in t' <==> k in BOTH
    ensures k in t' && k in BOTH ==> t'[k] == BOTH[k]
  {
    hide IsCycle, Tracking, Written, Diffed, Stubbed, FieldOf, Schema.Valid, EncodeFields, Listed;
    CycleTracks(AT_FOUR, GENS, map[], [1, 2], out, LEFT, t');
    CycleOutcome(AT_FOUR, GENS, map[], [1, 2], out, LEFT, t', k);
    WrittenAtFour(k);
    FoundAtFour(true);
    OtherIsDiffed();
    OtherIsAnother();
    assert k == ROW ==> Written(AT_FOUR, GENS, [1, 2], k, ROW);
  }

  lemma WithSnapshot(out: ScanOutput, t': Table, k: Row)
    requires IsCycle(AT_FOUR, GENS, KEPT, [1, 2], out, BOTH, t')
    ensures k in t' <==> k == ROW
  {
    hide IsCycle, Tracking, Written, Diffed, Stubbed, FieldOf, Schema.Valid, EncodeFields, Listed;
    CycleTracks(AT_FOUR, GENS, KEPT, [1, 2], out, BOTH, t');
    CycleOutcome(AT_FOUR, GENS, KEPT, [1, 2], out, BOTH, t', k);
    WrittenAtFour(k);
    OtherIsDiffed();
    OtherIsAnother();
  }

  /**
   A new file size has dropped the snapshot: the cycle adds the row and leaves its vanished
   neighbour. A crash before the save, and the same cycle over the same file starts with
   the snapshot from disk: its delta is accepted and deletes the neighbour, so the replay
   does not leave the table as it was.
   */
  lemma ReplayDeletesNeighbour(out: ScanOutput, out': ScanOutput)
    requires Tracking(ID_TABLE)
    requires IsScan(AT_FOUR, GENS, map[], [1, 2], out) && IsScan(AT_FOUR, GENS, KEPT, [1, 2], out')
    ensures HasDelta(out) && DeltaApplied(LEFT, ID_TABLE, out) == Some(BOTH)
    ensures HasDelta(out') && DeltaApplied(BOTH, ID_TABLE, out').Some? &&
            OTHER in BOTH && OTHER !in DeltaApplied(BOTH, ID_TABLE, out').value
  {
    hide Tracking, Schema.Valid, IsScan, DeltaApplied, KeysOnly, FieldOf, Filed;
    KeptIsKeys();
    BothFiled();
    OtherIsAnother();
    Accepts(map[], out, LEFT);
    Accepts(KEPT, out', BOTH);
    var t' := DeltaApplied(LEFT, ID_TABLE, out).value;
    forall k
      ensures k in t' <==> k in BOTH
      ensures k in t' && k in BOTH ==> t'[k] == BOTH[k]
    {
      WithoutSnapshot(out, t', k);
    }
    assert t' == BOTH;
    WithSnapshot(out', DeltaApplied(BOTH, ID_TABLE, out').value, OTHER);
  }

  // ── It is on a page the cached list lacks ──

  /**
   Page 9 is the first pointer page, of generation 8 as when the list was read. A later
   pointer page leads to data page 2, which was added since.
   */
  const GROWN := TableFile(Db(map[1 := BLANK, 2 := PAGE, 9 := BLANK]), ID_TABLE, Some(9), map[9 := [1, 2]])
  const CACHED := Cache(ID_TABLE, Some(9), 8, [1], NO_KEYS)
  const READ_BEFORE := Tracked(4, true, map[1 := 8], Some(CACHED), None)
  const OLD_LIST := View(GROWN.db, ID_TABLE, 4)

  lemma ListLacksPage()
    ensures ListedPages(GROWN, READ_BEFORE) == [1] && FilePages(GROWN) == PagesOf(GROWN.db, [1, 2])
  {
    hide Generation, IsDataPage;
    BlankPage();
  }

  lemma NothingOnOldList()
    ensures Visited(GROWN.db, 1) && !Changed(GROWN.db, map[1 := 8], 1)
    ensures forall p, raw :: !Listed(GROWN.db, [1], p, raw)
  {
    hide OnPage, IsDataPage, Generation;
    BlankPage();
  }

  lemma PageIsInFile()
    requires Tracking(ID_TABLE)
    ensures LiveIn(ID_TABLE, FilePages(GROWN), ROW, ROW) && PagesOf(GROWN.db, [1]) == map[1 := BLANK]
  {
    hide Tracking, OnPage, LiveRow, KeyOfRow, FieldOf, IsDataPage, Generation, ListedPages;
    ListLacksPage();
    BlankPage();
    PageHoldsRecord();
    RecordIsLive();
    RowEncodes();
    assert IsLive(ID_TABLE, RECORD, ROW, ROW);
    var file := FilePages(GROWN);
    assert 2 in file && file[2] == PAGE && OnPage(file[2], RECORD);
  }

  /**
   Every turn looks at page 1 alone and has no delta: the replica is the table of the pages
   looked at, and lacks the row of transaction 5 that the file holds on page 2.
   */
  lemma RowOnNewPageIsMissed(out: ScanOutput)
    requires Tracking(ID_TABLE)
    requires IsScan(OLD_LIST, READ_BEFORE.gens, NO_KEYS, ListedPages(GROWN, READ_BEFORE), out)
    ensures !HasDelta(out)
    ensures IsTable(ID_TABLE, PagesOf(GROWN.db, ListedPages(GROWN, READ_BEFORE)), map[])
    ensures !IsTable(ID_TABLE, FilePages(GROWN), map[])
  {
    hide Tracking, PagesFound, Listed, LiveIn, IsScan, FilePages, PagesOf, ListedPages, Visited, Changed;
    TrackedIsValid(ID_TABLE);
    ListLacksPage();
    NothingOnOldList();
    PageIsInFile();
    NothingFoundUnchanged(OLD_LIST, READ_BEFORE.gens, FirstCycle(ID_TABLE, NO_KEYS), [1]);
    NothingExpressed(OLD_LIST, READ_BEFORE.gens, NO_KEYS, [1], out);
    NothingCounted(out);
    BlankHasNoRows();
  }

  lemma NothingCounted(out: ScanOutput)
    requires Tracking(ID_TABLE) && IsScan(OLD_LIST, READ_BEFORE.gens, NO_KEYS, [1], out) && out.expressKeys == []
    requires var found := PagesFound(OLD_LIST, READ_BEFORE.gens, FirstCycle(ID_TABLE, NO_KEYS), [1]);
             found.upserts == [] && found.stubs == []
    ensures !HasDelta(out)
  {
    hide Tracking, PagesFound, IsExpress, AreNewSnapshots, NewGens, PgCopy.Stream, Opened, KeyTuples;
  }

  lemma BlankHasNoRows()
    requires Tracking(ID_TABLE)
    ensures IsTable(ID_TABLE, map[1 := BLANK], map[])
  {
    hide Tracking, OnPage, IsLive;
    BlankPage();
  }
}
