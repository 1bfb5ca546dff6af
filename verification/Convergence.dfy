/**
 Convergence of one cycle: on a file that keeps stated promises, when the table ends up
 holding exactly the live rows of the file.
 */
module Convergence {
  import opened Bytes
  import opened Fields
  import opened Keys
  import opened Ods
  import opened Changes
  import opened Express
  import opened Scan
  import opened ScanFacts
  import opened Replica
  import opened Live
  import opened OneCycle
  import PgCopy

  // ── What is remembered ──

  /** No snapshot, or one that holds for every page seen the encoded keys of its live rows. */
  ghost predicate SnapshotOf(schema: Schema, prev: Snapshot, seen: Pages)
    requires Tracking(schema)
  {
    prev == map[] ||
    (schema.pkByteLen > 0 &&
     forall p :: p in seen ==>
       p in prev && forall k :: InFlat(prev[p], schema.pkByteLen, k) <==> PageKey(schema, seen[p], k))
  }

  /** No record on these pages is newer than the watermark. */
  ghost predicate Settled(pages: Pages, txn: int) {
    forall p, raw :: p in pages && OnPage(pages[p], raw) && RecordTransaction(raw).Some? ==>
      RecordTransaction(raw).value <= txn
  }

  ghost predicate Recorded(gens: Gens, seen: Pages) {
    forall p :: p in seen ==> p in gens && gens[p] == Generation(seen[p])
  }

  /** With a stride, every live key on the pages encodes to it. */
  ghost predicate PagesKeyed(schema: Schema, seen: Pages)
    requires Tracking(schema)
  {
    schema.pkByteLen > 0 ==> forall p :: p in seen ==> AllKeyed(schema, seen[p])
  }

  /** The recorded generations and watermark are those of the pages `seen`. */
  ghost predicate Marks(schema: Schema, gens: Gens, txn: int, seen: Pages)
    requires Tracking(schema)
  {
    Recorded(gens, seen) && Settled(seen, txn) && PagesKeyed(schema, seen)
  }

  /** So is the snapshot. This says nothing about the replica, which can be ahead of all three. */
  ghost predicate Remembers(schema: Schema, gens: Gens, prev: Snapshot, txn: int, seen: Pages)
    requires Tracking(schema)
  {
    Marks(schema, gens, txn, seen) && SnapshotOf(schema, prev, seen) && KeysOnly(prev, schema.pkByteLen, |schema.pk|)
  }

  /** What is remembered is of the pages whose rows the table holds. */
  ghost predicate InStep(schema: Schema, gens: Gens, prev: Snapshot, t: Table, txn: int, seen: Pages)
    requires Tracking(schema)
  {
    Remembers(schema, gens, prev, txn, seen) && IsTable(schema, seen, t)
  }

  /** A table that holds the rows of some pages is filed under their keys. */
  lemma TableIsFiled(schema: Schema, seen: Pages, t: Table)
    requires Tracking(schema) && IsTable(schema, seen, t)
    ensures Filed(schema, t)
  {
    hide OnPage, LiveRow, KeyOfRow, PgCopy.AllFit, Stride, Desc.Usable, Indexed;
    MetaIsValid(schema);
    forall k | k in t
      ensures |t[k]| == |schema.slots| && KeyOfRow(t[k], schema.pk) == k && |k| == |schema.pk| && PgCopy.AllFit(k)
    {
      var p, raw :| p in seen && OnPage(seen[p], raw) && IsLive(schema, raw, k, t[k]);
      OnPageBounded(seen[p], raw);
      LiveKeyFits(schema, raw, k, t[k]);
    }
  }

  lemma LiveKeyIsKey(schema: Schema, seen: Pages, k: Row)
    requires Tracking(schema) && LiveKey(schema, seen, k)
    ensures |k| == |schema.pk| && PgCopy.AllFit(k)
  {
    hide OnPage, IsLive, PgCopy.AllFit, Tracking;
    var row :| LiveIn(schema, seen, k, row);
    var p, raw :| p in seen && OnPage(seen[p], raw) && IsLive(schema, raw, k, row);
    OnPageBounded(seen[p], raw);
    LiveKeyFits(schema, raw, k, row);
  }

  // ── What the file promises ──

  /** A listed data page whose recorded generation is current is as it was last seen. */
  ghost predicate GenerationsTell(db: Db, gens: Gens, pages: seq<int>, seen: Pages) {
    forall p :: p in pages && Visited(db, p) && !Changed(db, gens, p) ==> p in seen && seen[p] == db.Page(p)
  }

  /** Live keys are encodable at the fixed length, if there is one, and a key has one row. */
  ghost predicate KeysUnique(schema: Schema, db: Db, pages: seq<int>)
    requires Tracking(schema)
  {
    var live := PagesOf(db, pages);
    PagesKeyed(schema, live) &&
    forall k, row, other :: LiveIn(schema, live, k, row) && LiveIn(schema, live, k, other) ==> row == other
  }

  /** On a changed page, a record above the watermark that is no delete stub is a current version. */
  ghost predicate NewRowsCurrent(v: View, gens: Gens, pages: seq<int>) {
    forall p, raw ::
      Listed(v.db, pages, p, raw) && Changed(v.db, gens, p) && IsNew(v, raw) && ChangedRow(v.schema, raw).Some? ==>
        LiveRow(v.schema, raw).Some?
  }

  /** A key that a new stub names is gone, or is back in a record the cycle upserts. */
  ghost predicate StubsTell(v: View, gens: Gens, pages: seq<int>)
    requires Tracking(v.schema)
  {
    forall k, row, p, raw :: Stubbed(v, pages, k) && Listed(v.db, pages, p, raw) && IsLive(v.schema, raw, k, row) ==>
      Changed(v.db, gens, p) && IsNew(v, raw)
  }

  ghost predicate Faithful(v: View, gens: Gens, pages: seq<int>, seen: Pages)
    requires Tracking(v.schema)
  {
    GenerationsTell(v.db, gens, pages, seen) && KeysUnique(v.schema, v.db, pages) && NewRowsCurrent(v, gens, pages) &&
    StubsTell(v, gens, pages)
  }

  // ── Live rows ──

  /** The cycle upserts this row under this key, from a current version. */
  ghost predicate Fresh(v: View, gens: Gens, pages: seq<int>, k: Row, row: Row)
    requires Tracking(v.schema)
  {
    exists p, raw :: Listed(v.db, pages, p, raw) && Changed(v.db, gens, p) && IsNew(v, raw) &&
      IsLive(v.schema, raw, k, row)
  }

  lemma WrittenIsFresh(v: View, gens: Gens, pages: seq<int>, k: Row, row: Row)
    requires Tracking(v.schema) && NewRowsCurrent(v, gens, pages)
    ensures Written(v, gens, pages, k, row) <==> Fresh(v, gens, pages, k, row)
  {
    hide LiveRow, ChangedRow, OnPage, Visited, Changed, IsNew, KeyOfRow, Stride, Desc.Usable;
    if Written(v, gens, pages, k, row) {
      var p, raw :| Listed(v.db, pages, p, raw) && IsUpsert(v, gens, p, raw, row);
      LiveIsChanged(v.schema, raw);
      assert IsLive(v.schema, raw, k, row);
    }
    if Fresh(v, gens, pages, k, row) {
      var p, raw :| Listed(v.db, pages, p, raw) && Changed(v.db, gens, p) && IsNew(v, raw) &&
        IsLive(v.schema, raw, k, row);
      LiveIsChanged(v.schema, raw);
      assert IsUpsert(v, gens, p, raw, row);
    }
  }

  lemma WritesIsFresh(v: View, gens: Gens, pages: seq<int>, k: Row)
    requires Tracking(v.schema) && NewRowsCurrent(v, gens, pages)
    ensures Writes(v, gens, pages, k) <==> exists row :: Fresh(v, gens, pages, k, row)
  {
    hide Written, Fresh, NewRowsCurrent, Tracking;
    forall row
      ensures Written(v, gens, pages, k, row) <==> Fresh(v, gens, pages, k, row)
    {
      WrittenIsFresh(v, gens, pages, k, row);
    }
  }

  lemma FreshIsLive(v: View, gens: Gens, pages: seq<int>, k: Row, row: Row)
    requires Tracking(v.schema) && Fresh(v, gens, pages, k, row)
    ensures LiveIn(v.schema, PagesOf(v.db, pages), k, row)
  {
    hide IsLive, OnPage, Tracking, Visited, PagesOf, Listed;
    var p, raw :| Listed(v.db, pages, p, raw) && Changed(v.db, gens, p) && IsNew(v, raw) &&
      IsLive(v.schema, raw, k, row);
    ListedIsOnPage(v.db, pages, p, raw);
  }

  lemma LiveSource(v: View, pages: seq<int>, k: Row, row: Row) returns (p: int, raw: Bytes)
    requires Tracking(v.schema) && LiveIn(v.schema, PagesOf(v.db, pages), k, row)
    ensures Listed(v.db, pages, p, raw) && IsLive(v.schema, raw, k, row)
  {
    hide IsLive, OnPage, Tracking, PagesOf, Listed;
    p, raw :| p in PagesOf(v.db, pages) && OnPage(PagesOf(v.db, pages)[p], raw) && IsLive(v.schema, raw, k, row);
    ListedIsOnPage(v.db, pages, p, raw);
  }

  /** The snapshot does not tell that a live key vanished. */
  lemma LiveKeyIsNotDiffed(v: View, gens: Gens, prev: Snapshot, pages: seq<int>, seen: Pages, p: int, raw: Bytes,
      k: Row, row: Row)
    requires Tracking(v.schema) && SnapshotOf(v.schema, prev, seen) && GenerationsTell(v.db, gens, pages, seen)
    requires PagesKeyed(v.schema, PagesOf(v.db, pages))
    requires Listed(v.db, pages, p, raw) && IsLive(v.schema, raw, k, row)
    ensures !Diffed(v, gens, prev, pages, EncodeFields(k))
  {
    hide IsLive, OnPage, PgCopy.AllFit, EncodeFields, InFlat, PageKey, AllKeyed, Changed, Generation, Visited,
         Tracking, Schema.Valid;
    TrackedIsValid(v.schema);
    if v.schema.pkByteLen > 0 && prev != map[] {
      var page, kb := v.db.Page(p), EncodeFields(k);
      OnPageBounded(page, raw);
      LiveKeyFits(v.schema, raw, k, row);
      assert AllKeyed(v.schema, page) by { assert PagesOf(v.db, pages)[p] == page; }
      PageKeysAreLive(v.schema, page, k);
      assert PageKey(v.schema, page, kb);
      if !Changed(v.db, gens, p) { assert p in prev && InFlat(prev[p], v.schema.pkByteLen, kb); }
    }
  }

  /** A live row the cycle does not upsert has a key the cycle does not drop. */
  lemma OldKeyNotDropped(v: View, gens: Gens, prev: Snapshot, pages: seq<int>, out: ScanOutput, seen: Pages, k: Row,
      row: Row)
    requires Tracking(v.schema) && v.schema.pkByteLen <= 64 && SnapshotOf(v.schema, prev, seen)
    requires Faithful(v, gens, pages, seen) && IsScan(v, gens, prev, pages, out)
    requires LiveIn(v.schema, PagesOf(v.db, pages), k, row) && !Fresh(v, gens, pages, k, row)
    ensures !Dropped(v, gens, prev, pages, out, k)
  {
    hide IsLive, Listed, EncodeFields, Changed, IsNew, Tracking, Stubbed, Diffed, SnapshotOf, IsScan, PagesOf, LiveIn,
         PagesKeyed, GenerationsTell, NewRowsCurrent, Schema.Valid;
    TrackedIsValid(v.schema);
    var p, raw := LiveSource(v, pages, k, row);
    LiveKeyIsNotDiffed(v, gens, prev, pages, seen, p, raw, k, row);
  }

  /** Every live row is upserted or already in the table with its contents. */
  ghost predicate RowsArrive(v: View, gens: Gens, pages: seq<int>, t: Table)
    requires Tracking(v.schema)
  {
    forall k, row :: LiveIn(v.schema, PagesOf(v.db, pages), k, row) ==>
      Fresh(v, gens, pages, k, row) || (k in t && t[k] == row)
  }

  /** On a changed page, a live row at or below the watermark is one the table already has. */
  ghost predicate OldRowsKnown(v: View, gens: Gens, pages: seq<int>, t: Table)
    requires Tracking(v.schema)
  {
    forall p, raw, k, row ::
      Listed(v.db, pages, p, raw) && Changed(v.db, gens, p) && !IsNew(v, raw) && IsLive(v.schema, raw, k, row) ==>
        k in t && t[k] == row
  }

  /** For a table that holds the rows of the pages last seen, the changed pages decide. */
  lemma OldKnownArrives(v: View, gens: Gens, pages: seq<int>, t: Table, seen: Pages)
    requires Tracking(v.schema) && IsTable(v.schema, seen, t) && GenerationsTell(v.db, gens, pages, seen)
    requires OldRowsKnown(v, gens, pages, t)
    ensures RowsArrive(v, gens, pages, t)
  {
    hide IsLive, OnPage, Changed, Generation, Visited, Tracking, IsNew;
    forall k, row | LiveIn(v.schema, PagesOf(v.db, pages), k, row)
      ensures Fresh(v, gens, pages, k, row) || (k in t && t[k] == row)
    {
      var p, raw := LiveSource(v, pages, k, row);
      if !Changed(v.db, gens, p) { assert LiveIn(v.schema, seen, k, row); }
    }
  }

  // ── Vanished keys ──

  /** Every page whose snapshot holds the key is still a data page of the list. */
  ghost predicate StillListed(schema: Schema, db: Db, prev: Snapshot, pages: seq<int>, k: Row)
    requires schema.pkByteLen > 0
  {
    forall p :: p in prev && InFlat(prev[p], schema.pkByteLen, EncodeFields(k)) ==> p in pages && Visited(db, p)
  }

  /** A snapshot key of a listed page is the key of a live row, on a page seen before if it is unchanged. */
  lemma SnapshotKeyIsLive(v: View, gens: Gens, prev: Snapshot, pages: seq<int>, seen: Pages, p: int, k: Row)
    requires Tracking(v.schema) && v.schema.pkByteLen > 0 && |k| == |v.schema.pk| && PgCopy.AllFit(k)
    requires PagesKeyed(v.schema, PagesOf(v.db, pages)) && SnapshotOf(v.schema, prev, seen) &&
             GenerationsTell(v.db, gens, pages, seen)
    requires p in pages && Visited(v.db, p)
    requires PageKey(v.schema, v.db.Page(p), EncodeFields(k)) ||
             (!Changed(v.db, gens, p) && p in prev && InFlat(prev[p], v.schema.pkByteLen, EncodeFields(k)))
    ensures LiveKey(v.schema, PagesOf(v.db, pages), k)
  {
    hide IsLive, OnPage, EncodeFields, InFlat, PageKey, AllKeyed, Changed, Visited, Tracking, Schema.Valid,
         PgCopy.AllFit;
    TrackedIsValid(v.schema);
    var live := PagesOf(v.db, pages);
    assert p in live && live[p] == v.db.Page(p);
    PageKeysAreLive(v.schema, live[p], k);
    var raw, row :| OnPage(live[p], raw) && IsLive(v.schema, raw, k, row);
    assert LiveIn(v.schema, live, k, row);
  }

  /**
   The snapshot tells that a key that left the file vanished if and only if it held the key,
   and every page that held it is still a data page of the list.
   */
  lemma DiffedIffListed(v: View, gens: Gens, prev: Snapshot, pages: seq<int>, seen: Pages, k: Row)
    requires Tracking(v.schema) && |k| == |v.schema.pk| && PgCopy.AllFit(k)
    requires PagesKeyed(v.schema, PagesOf(v.db, pages)) && SnapshotOf(v.schema, prev, seen) &&
             GenerationsTell(v.db, gens, pages, seen)
    requires !LiveKey(v.schema, PagesOf(v.db, pages), k)
    ensures Diffed(v, gens, prev, pages, EncodeFields(k)) <==>
            v.schema.pkByteLen > 0 && HasKey(prev, v.schema.pkByteLen, EncodeFields(k)) &&
            StillListed(v.schema, v.db, prev, pages, k)
  {
    hide EncodeFields, InFlat, PageKey, Changed, Visited, Tracking, Schema.Valid, PgCopy.AllFit, PagesKeyed,
         SnapshotOf, GenerationsTell, LiveKey, PagesOf;
    TrackedIsValid(v.schema);
    var stride, kb := v.schema.pkByteLen, EncodeFields(k);
    if stride > 0 {
      forall p | p in prev && InFlat(prev[p], stride, kb) && p in pages && Visited(v.db, p)
        ensures Rescanned(v.db, gens, pages, p)
      {
        if !Changed(v.db, gens, p) { SnapshotKeyIsLive(v, gens, prev, pages, seen, p, k); }
      }
      forall p | Rescanned(v.db, gens, pages, p)
        ensures !PageKey(v.schema, v.db.Page(p), kb)
      {
        if PageKey(v.schema, v.db.Page(p), kb) { SnapshotKeyIsLive(v, gens, prev, pages, seen, p, k); }
      }
    }
  }

  /** A key that left the file leaves the table: a stub names it, or the snapshot catches it. */
  ghost predicate Caught(v: View, prev: Snapshot, pages: seq<int>, k: Row)
    requires v.schema.Valid()
  {
    Stubbed(v, pages, k) ||
    (v.schema.pkByteLen > 0 && HasKey(prev, v.schema.pkByteLen, EncodeFields(k)) &&
     StillListed(v.schema, v.db, prev, pages, k))
  }

  /** Every key of the table that left the file is caught. */
  ghost predicate VanishedCaught(v: View, prev: Snapshot, pages: seq<int>, t: Table)
    requires Tracking(v.schema)
  {
    forall k :: k in t && !LiveKey(v.schema, PagesOf(v.db, pages), k) ==> Caught(v, prev, pages, k)
  }

  lemma GoneDroppedIffCaught(v: View, gens: Gens, prev: Snapshot, pages: seq<int>, out: ScanOutput, seen: Pages, k: Row)
    requires Tracking(v.schema) && v.schema.pkByteLen <= 64 && SnapshotOf(v.schema, prev, seen)
    requires Faithful(v, gens, pages, seen) && IsScan(v, gens, prev, pages, out)
    requires |k| == |v.schema.pk| && PgCopy.AllFit(k) && !LiveKey(v.schema, PagesOf(v.db, pages), k)
    ensures Dropped(v, gens, prev, pages, out, k) <==> Caught(v, prev, pages, k)
  {
    hide EncodeFields, HasKey, StillListed, Tracking, Schema.Valid, PgCopy.AllFit, PagesKeyed, SnapshotOf,
         GenerationsTell, LiveKey, PagesOf, Stubbed, IsScan, Diffed, NewRowsCurrent, StubsTell;
    TrackedIsValid(v.schema);
    DiffedIffListed(v, gens, prev, pages, seen, k);
  }

  // ── The theorem ──

  /** A cycle on a file that keeps its promises, over a record of pages seen before; the replica may be anything. */
  ghost predicate IsFaithfulCycle(v: View, gens: Gens, prev: Snapshot, pages: seq<int>, out: ScanOutput, t: Table,
      t': Table, seen: Pages) {
    IsCycle(v, gens, prev, pages, out, t, t') && v.schema.pkByteLen <= 64 && SnapshotOf(v.schema, prev, seen) &&
    Faithful(v, gens, pages, seen)
  }

  /** After a cycle a live row of the file is in the table if and only if it is upserted or was there. */
  lemma LiveRowOutcome(v: View, gens: Gens, prev: Snapshot, pages: seq<int>, out: ScanOutput, t: Table, t': Table,
      seen: Pages, k: Row, row: Row)
    requires IsFaithfulCycle(v, gens, prev, pages, out, t, t', seen)
    requires LiveIn(v.schema, PagesOf(v.db, pages), k, row)
    ensures k in t' && t'[k] == row <==> Fresh(v, gens, pages, k, row) || (k in t && t[k] == row)
  {
    hide LiveIn, Fresh, Written, Dropped, IsCycle, SnapshotOf, GenerationsTell, NewRowsCurrent, StubsTell, PagesOf,
         PagesKeyed, Tracking, IsScan;
    CycleIsScan(v, gens, prev, pages, out, t, t');
    CycleOutcome(v, gens, prev, pages, out, t, t', k);
    WritesIsFresh(v, gens, pages, k);
    WrittenIsFresh(v, gens, pages, k, row);
    if other :| Fresh(v, gens, pages, k, other) {
      FreshIsLive(v, gens, pages, k, other);
      assert other == row;
    } else {
      OldKeyNotDropped(v, gens, prev, pages, out, seen, k, row);
    }
  }

  /** After a cycle a key that is not live is in the table if and only if it was there and was not caught. */
  lemma GoneKeyOutcome(v: View, gens: Gens, prev: Snapshot, pages: seq<int>, out: ScanOutput, t: Table, t': Table,
      seen: Pages, k: Row)
    requires IsFaithfulCycle(v, gens, prev, pages, out, t, t', seen)
    requires !LiveKey(v.schema, PagesOf(v.db, pages), k)
    ensures k in t' <==> k in t && !Caught(v, prev, pages, k)
    ensures k in t' ==> t'[k] == t[k]
  {
    hide LiveIn, Fresh, Written, Dropped, Caught, IsCycle, SnapshotOf, GenerationsTell, NewRowsCurrent, StubsTell,
         PagesOf, PagesKeyed, Tracking, IsScan, Keyed, PgCopy.AllFit;
    CycleIsScan(v, gens, prev, pages, out, t, t');
    CycleOutcome(v, gens, prev, pages, out, t, t', k);
    WritesIsFresh(v, gens, pages, k);
    if row :| Fresh(v, gens, pages, k, row) { FreshIsLive(v, gens, pages, k, row); }
    if k in t { GoneDroppedIffCaught(v, gens, prev, pages, out, seen, k); }
  }

  /**
   Convergence of one cycle, with the replica in step or ahead of what is remembered: the
   table ends up holding exactly the live rows of the file if and only if every live row is
   upserted or was there, and every key that left the file has a new stub or stood, by the
   snapshot, on pages that are all still data pages of the list.
   */
  lemma Converges(v: View, gens: Gens, prev: Snapshot, pages: seq<int>, out: ScanOutput, t: Table, t': Table,
      seen: Pages)
    requires IsFaithfulCycle(v, gens, prev, pages, out, t, t', seen)
    ensures IsTable(v.schema, PagesOf(v.db, pages), t') <==>
            RowsArrive(v, gens, pages, t) && VanishedCaught(v, prev, pages, t)
  {
    hide LiveIn, Fresh, Caught, IsCycle, IsFaithfulCycle, PagesOf, Tracking;
    FaithfulTracks(v, gens, prev, pages, out, t, t', seen);
    var live := PagesOf(v.db, pages);
    forall k, row | LiveIn(v.schema, live, k, row)
      ensures k in t' && t'[k] == row <==> Fresh(v, gens, pages, k, row) || (k in t && t[k] == row)
    {
      LiveRowOutcome(v, gens, prev, pages, out, t, t', seen, k, row);
    }
    forall k | !LiveKey(v.schema, live, k)
      ensures k in t' <==> k in t && !Caught(v, prev, pages, k)
    {
      GoneKeyOutcome(v, gens, prev, pages, out, t, t', seen, k);
    }
  }

  lemma FaithfulTracks(v: View, gens: Gens, prev: Snapshot, pages: seq<int>, out: ScanOutput, t: Table, t': Table,
      seen: Pages)
    requires IsFaithfulCycle(v, gens, prev, pages, out, t, t', seen)
    ensures Tracking(v.schema) && v.schema.Valid()
  {
  }

  /** A replica that holds the file's rows already, from a cycle not saved or not answered, keeps holding them. */
  lemma HeldRowsStay(v: View, gens: Gens, prev: Snapshot, pages: seq<int>, t: Table)
    requires Tracking(v.schema) && IsTable(v.schema, PagesOf(v.db, pages), t)
    ensures RowsArrive(v, gens, pages, t) && VanishedCaught(v, prev, pages, t)
  {
    hide LiveIn, Fresh, Caught, PagesOf, Tracking;
  }

  /** A table whose key has no fixed length keeps no snapshot: only stubs catch what vanished. */
  lemma TextKeysConverge(v: View, gens: Gens, prev: Snapshot, pages: seq<int>, out: ScanOutput, t: Table, t': Table,
      seen: Pages)
    requires IsFaithfulCycle(v, gens, prev, pages, out, t, t', seen) && v.schema.pkByteLen == 0
    ensures IsTable(v.schema, PagesOf(v.db, pages), t') <==>
            RowsArrive(v, gens, pages, t) &&
            forall k :: k in t && !LiveKey(v.schema, PagesOf(v.db, pages), k) ==> Stubbed(v, pages, k)
  {
    hide IsFaithfulCycle, Stubbed, LiveKey, RowsArrive, IsTable, Tracking, PagesOf;
    FaithfulTracks(v, gens, prev, pages, out, t, t', seen);
    Converges(v, gens, prev, pages, out, t, t', seen);
  }

  // ── In step ──

  /** A key of the table is on the snapshot of the page its row was seen on. */
  lemma TableKeyInSnapshot(schema: Schema, prev: Snapshot, seen: Pages, t: Table, k: Row) returns (p: int)
    requires Tracking(schema) && SnapshotOf(schema, prev, seen) && PagesKeyed(schema, seen) && IsTable(schema, seen, t)
    requires prev != map[] && k in t
    ensures schema.pkByteLen > 0 && p in seen && p in prev && InFlat(prev[p], schema.pkByteLen, EncodeFields(k))
  {
    hide IsLive, OnPage, EncodeFields, InFlat, PageKey, AllKeyed, Tracking, Schema.Valid, PgCopy.AllFit;
    TrackedIsValid(schema);
    var raw;
    p, raw :| p in seen && OnPage(seen[p], raw) && IsLive(schema, raw, k, t[k]);
    assert LiveIn(schema, seen, k, t[k]);
    LiveKeyIsKey(schema, seen, k);
    PageKeysAreLive(schema, seen[p], k);
  }

  /** In step a key is caught by the snapshot if there is one and its pages are still listed. */
  lemma InStepCaught(v: View, gens: Gens, prev: Snapshot, pages: seq<int>, t: Table, txn: int, seen: Pages, k: Row)
    requires Tracking(v.schema) && InStep(v.schema, gens, prev, t, txn, seen) && k in t
    ensures Caught(v, prev, pages, k) <==>
            Stubbed(v, pages, k) ||
            (v.schema.pkByteLen > 0 && prev != map[] && StillListed(v.schema, v.db, prev, pages, k))
  {
    hide Stubbed, StillListed, EncodeFields, InFlat, Tracking, Schema.Valid, IsTable, SnapshotOf, PagesKeyed, Recorded,
         Settled, KeysOnly;
    TrackedIsValid(v.schema);
    if prev != map[] {
      var p := TableKeyInSnapshot(v.schema, prev, seen, t, k);
    }
  }

  /**
   In step, the table's keys, the keys on the snapshots of the pages seen, and the live keys
   of these pages are the same; whatever else the snapshot holds is under other pages.
   */
  lemma KeysAgree(schema: Schema, gens: Gens, prev: Snapshot, t: Table, txn: int, seen: Pages, k: Row)
    requires Tracking(schema) && InStep(schema, gens, prev, t, txn, seen) && prev != map[]
    requires |k| == |schema.pk| && PgCopy.AllFit(k)
    ensures schema.pkByteLen > 0
    ensures k in t <==> LiveKey(schema, seen, k)
    ensures k in t <==> OnPages(prev, seen.Keys, schema.pkByteLen, EncodeFields(k))
    ensures HasKey(prev, schema.pkByteLen, EncodeFields(k)) <==>
            k in t || HasKey(prev - seen.Keys, schema.pkByteLen, EncodeFields(k))
  {
    hide IsLive, OnPage, EncodeFields, InFlat, PageKey, AllKeyed, Tracking, PgCopy.AllFit, KeysOnly, Schema.Valid,
         Recorded, Settled;
    TrackedIsValid(schema);
    if k in t {
      var home := TableKeyInSnapshot(schema, prev, seen, t, k);
    }
    if OnPages(prev, seen.Keys, schema.pkByteLen, EncodeFields(k)) {
      var p :| p in prev && p in seen.Keys && InFlat(prev[p], schema.pkByteLen, EncodeFields(k));
      PageKeysAreLive(schema, seen[p], k);
      var raw, row :| OnPage(seen[p], raw) && IsLive(schema, raw, k, row);
      assert LiveIn(schema, seen, k, row);
    }
    SplitSnapshot(prev, seen.Keys, schema.pkByteLen, EncodeFields(k));
  }

  lemma SplitSnapshot(prev: Snapshot, pages: set<int>, stride: nat, k: Bytes)
    requires stride > 0
    ensures HasKey(prev, stride, k) <==> OnPages(prev, pages, stride, k) || HasKey(prev - pages, stride, k)
  {
    hide InFlat;
    var rest := prev - pages;
    assert forall p :: p in rest <==> p in prev && p !in pages;
    assert forall p :: p in rest ==> rest[p] == prev[p];
  }
}
