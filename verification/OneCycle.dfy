/** What one cycle does to a replica table, exactly, from any state and on any file. */
module OneCycle {
  import opened Bytes
  import opened Fields
  import opened Keys
  import opened Ods
  import opened Changes
  import opened RecordScan
  import opened Express
  import opened Scan
  import opened ScanFacts
  import opened Replica
  import opened Sync
  import opened Live
  import PgCopy

  lemma TrackedIsValid(schema: Schema)
    requires Tracking(schema)
    ensures schema.Valid()
  {
  }

  lemma MetaIsValid(schema: Schema)
    requires Tracking(schema)
    ensures MetaOf(schema).Valid() && MetaOf(schema).columns == |schema.slots| && MetaOf(schema).pk == schema.pk
  {
    hide Stride, Desc.Usable;
  }

  // ── What a cycle writes ──

  /** The cycle upserts this row under this key; its record may be a back version. */
  ghost predicate Written(v: View, gens: Gens, pages: seq<int>, k: Row, row: Row)
    requires Tracking(v.schema)
  {
    |row| == |v.schema.slots| && KeyOfRow(row, v.schema.pk) == k &&
    exists p, raw :: Listed(v.db, pages, p, raw) && IsUpsert(v, gens, p, raw, row)
  }

  ghost predicate Writes(v: View, gens: Gens, pages: seq<int>, k: Row)
    requires Tracking(v.schema)
  {
    exists row :: Written(v, gens, pages, k, row)
  }

  lemma UpsertsAreWritten(v: View, gens: Gens, first: bool, pages: seq<int>, k: Row, row: Row)
    requires Tracking(v.schema) && |row| == |v.schema.slots|
    ensures Written(v, gens, pages, k, row) <==>
            row in PagesFound(v, gens, first, pages).upserts && KeyOfRow(row, v.schema.pk) == k
  {
    hide PagesFound, IsUpsert, Listed, KeyOfRow, Stride, Desc.Usable;
    UpsertsAre(v, gens, first, pages, row);
  }

  lemma NamedIsWritten(v: View, gens: Gens, first: bool, pages: seq<int>, k: Row)
    requires Tracking(v.schema) && Wide(PagesFound(v, gens, first, pages).upserts, |v.schema.slots|)
    ensures MetaOf(v.schema).Valid() &&
            (Names(PagesFound(v, gens, first, pages).upserts, MetaOf(v.schema), k) <==> Writes(v, gens, pages, k))
  {
    hide PagesFound, Written, KeyOfRow, Stride, Desc.Usable, Indexed;
    var ups := PagesFound(v, gens, first, pages).upserts;
    MetaIsValid(v.schema);
    if Names(ups, MetaOf(v.schema), k) {
      var i :| 0 <= i < |ups| && KeyOfRow(ups[i], v.schema.pk) == k;
      UpsertsAreWritten(v, gens, first, pages, k, ups[i]);
    }
    if row :| Written(v, gens, pages, k, row) {
      WrittenIsWide(v, gens, pages, k, row);
      UpsertsAreWritten(v, gens, first, pages, k, row);
      var i :| 0 <= i < |ups| && ups[i] == row;
    }
  }

  lemma WrittenIsWide(v: View, gens: Gens, pages: seq<int>, k: Row, row: Row)
    requires Tracking(v.schema) && Written(v, gens, pages, k, row)
    ensures |row| == |v.schema.slots| && KeyOfRow(row, v.schema.pk) == k
  {
  }

  // ── What a cycle deletes ──

  /** A new delete stub on a listed page names the key. */
  ghost predicate Stubbed(v: View, pages: seq<int>, k: Row)
    requires v.schema.Valid()
  {
    exists p, raw :: Listed(v.db, pages, p, raw) && IsStub(v, raw, k)
  }

  /** A listed data page whose generation moved. */
  predicate Rescanned(db: Db, gens: Gens, pages: seq<int>, p: int) {
    p in pages && Visited(db, p) && Changed(db, gens, p)
  }

  /**
   The snapshots tell that the key vanished: it stood on a rescanned page, it is on none
   now, and no page that was not rescanned has it on its old list.
   */
  ghost predicate Diffed(v: View, gens: Gens, prev: Snapshot, pages: seq<int>, k: Bytes)
    requires v.schema.Valid()
  {
    v.schema.pkByteLen > 0 &&
    (exists p :: p in prev && Rescanned(v.db, gens, pages, p) && InFlat(prev[p], v.schema.pkByteLen, k)) &&
    (forall p :: Rescanned(v.db, gens, pages, p) ==> !PageKey(v.schema, v.db.Page(p), k)) &&
    forall p :: p in prev && !Rescanned(v.db, gens, pages, p) ==> !InFlat(prev[p], v.schema.pkByteLen, k)
  }

  lemma RebuiltIsRescanned(v: View, gens: Gens, pages: seq<int>, p: int)
    requires v.schema.pkByteLen > 0 && p in pages
    ensures Rebuilt(v, gens, false, p) <==> Rescanned(v.db, gens, pages, p)
  {
    hide Visited, Changed;
  }

  lemma NewFlat(v: View, gens: Gens, pages: seq<int>, news: Snapshot, p: int, k: Bytes)
    requires v.schema.Valid() && v.schema.pkByteLen > 0 && AreNewSnapshots(v, gens, false, pages, news)
    ensures p in news <==> Rescanned(v.db, gens, pages, p)
    ensures p in news ==> (InFlat(news[p], v.schema.pkByteLen, k) <==> PageKey(v.schema, v.db.Page(p), k))
  {
    hide Rebuilt, Rescanned, IsPageSnapshot, InFlat, PageKey, Stride, Desc.Usable;
    if p in pages { RebuiltIsRescanned(v, gens, pages, p); }
    assert p !in pages ==> !Rescanned(v.db, gens, pages, p) by { RescannedIsListed(v.db, gens, pages, p); }
    if p in news { NewSnapshotIs(v, gens, false, p, news[p]); }
  }

  lemma RescannedIsListed(db: Db, gens: Gens, pages: seq<int>, p: int)
    ensures Rescanned(db, gens, pages, p) ==> p in pages
  {
  }

  lemma VanishedIsDiffed(v: View, gens: Gens, prev: Snapshot, pages: seq<int>, news: Snapshot, k: Bytes)
    requires v.schema.Valid() && v.schema.pkByteLen > 0 && AreNewSnapshots(v, gens, false, pages, news)
    ensures Vanished(prev, news, v.schema.pkByteLen, k) <==> Diffed(v, gens, prev, pages, k)
  {
    hide Rescanned, AreNewSnapshots, InFlat, PageKey, Stride, Desc.Usable;
    forall p
      ensures p in news <==> Rescanned(v.db, gens, pages, p)
      ensures p in news ==> (InFlat(news[p], v.schema.pkByteLen, k) <==> PageKey(v.schema, v.db.Page(p), k))
    {
      NewFlat(v, gens, pages, news, p, k);
    }
    var kept := prev - news.Keys;
    assert forall p :: p in kept <==> p in prev && p !in news;
    assert forall p :: p in kept ==> kept[p] == prev[p];
    assert HasKey(news, v.schema.pkByteLen, k) <==>
           exists p :: Rescanned(v.db, gens, pages, p) && PageKey(v.schema, v.db.Page(p), k);
  }

  /** With a stride the search can sort, the express deletes are the keys the snapshots tell vanished. */
  lemma ExpressedIsDiffed(v: View, gens: Gens, prev: Snapshot, pages: seq<int>, out: ScanOutput, k: Bytes)
    requires v.schema.Valid() && v.schema.pkByteLen <= 64 && IsScan(v, gens, prev, pages, out)
    ensures k in out.expressKeys <==> Diffed(v, gens, prev, pages, k)
  {
    hide PagesFound, Vanished, Rescanned, AreNewSnapshots, NewGens, InFlat, PageKey, Stride, Desc.Usable,
         PgCopy.Stream, Opened, Swept;
    if v.schema.pkByteLen > 0 && prev != map[] {
      VanishedIsDiffed(v, gens, prev, pages, out.newPks, k);
      if out.newPks == map[] { NothingNew(prev, v.schema.pkByteLen); }
    }
  }

  /**
   The cycle deletes this key: a new stub names it, or the snapshots tell that it vanished.
   Beyond stride 64 the snapshots do not decide, only what the scan wrote does.
   */
  ghost predicate Dropped(v: View, gens: Gens, prev: Snapshot, pages: seq<int>, out: ScanOutput, k: Row)
    requires v.schema.Valid()
  {
    Stubbed(v, pages, k) ||
    if v.schema.pkByteLen <= 64 then Diffed(v, gens, prev, pages, EncodeFields(k))
    else EncodeFields(k) in out.expressKeys
  }

  // ── The delta ──

  /** The table after a successful cycle, from the scan's rows and keys. */
  ghost predicate Moved(schema: Schema, t: Table, t': Table, ups: seq<Row>, dels: seq<Row>)
    requires Tracking(schema) && Wide(ups, |schema.slots|)
  {
    Keyed(t', MetaOf(schema)) &&
    (forall k :: k in t' <==> Names(ups, MetaOf(schema), k) || (k in t && k !in dels)) &&
    (forall row :: row in ups ==> KeyOfRow(row, schema.pk) in t' && t'[KeyOfRow(row, schema.pk)] == row) &&
    (forall k :: k in t && k !in dels && !Names(ups, MetaOf(schema), k) ==> t'[k] == t[k])
  }

  lemma {:induction false} UniformIsWide(rows: seq<Row>, n: nat)
    requires PgCopy.Uniform(rows, n)
    ensures Wide(rows, n)
  {
    hide PgCopy.AllFit;
    if rows != [] {
      UniformIsWide(rows[1..], n);
      assert forall i :: 0 < i < |rows| ==> rows[i] == rows[1..][i - 1];
    }
  }

  /** The replica after the cycle is the old one without the deleted keys, overlaid with the upserted rows. */
  lemma DeltaMoves(v: View, gens: Gens, prev: Snapshot, pages: seq<int>, out: ScanOutput, t: Table, t': Table)
    requires Tracking(v.schema) && IsScan(v, gens, prev, pages, out) &&
             KeysOnly(prev, v.schema.pkByteLen, |v.schema.pk|)
    requires Keyed(t, MetaOf(v.schema))
    requires if HasDelta(out) then DeltaApplied(t, v.schema, out) == Some(t') else t' == t
    ensures forall k :: k in out.expressKeys ==> IsKey(k, |v.schema.pk|)
    ensures var found := PagesFound(v, gens, FirstCycle(v.schema, prev), pages);
            Wide(found.upserts, |v.schema.slots|) &&
            Moved(v.schema, t, t', found.upserts, found.stubs + KeyRows(out.expressKeys, |v.schema.pk|))
  {
    hide PagesFound, KeysOnly, PgCopy.ParseCopy, KeyOfRow, Stride, Desc.Usable, IsKey, IsScan, HasNullKey, Rejected,
         Upserted, Deleted, Indexed, Applied, Names, Keyed, PgCopy.Uniform, Meta.Valid;
    var schema, first := v.schema, FirstCycle(v.schema, prev);
    var found := PagesFound(v, gens, first, pages);
    UpsertStreamParses(v, gens, prev, pages, out);
    DeleteStreamParses(v, gens, prev, pages, out);
    UpsertsUniform(v, gens, first, pages);
    UniformIsWide(found.upserts, |schema.slots|);
    var dels := found.stubs + KeyRows(out.expressKeys, |schema.pk|);
    MetaIsValid(schema);
    if HasDelta(out) {
      RowsOfStream(out.upsertBuf, |schema.slots|, found.upserts);
      if out.deletes > 0 { RowsOfStream(out.deleteBuf, |schema.pk|, dels); }
      AppliedIs(t, MetaOf(schema), out.upsertBuf, out.deleteBuf, out.upserts, out.deletes, found.upserts, dels);
    } else {
      NoDeltaMoves(schema, t);
      assert found.upserts == [] && dels == [];
    }
  }

  lemma NoDeltaMoves(schema: Schema, t: Table)
    requires Tracking(schema) && Keyed(t, MetaOf(schema))
    ensures Moved(schema, t, t, [], [])
  {
    hide Stride, Desc.Usable, KeyOfRow;
    MetaIsValid(schema);
  }

  lemma RowsOfStream(b: Bytes, n: nat, rows: seq<Row>)
    requires PgCopy.ParseCopy(b, n) == Some(rows)
    ensures Rows(b, n) == Some(rows)
  {
    hide PgCopy.ParseCopy;
  }

  /**
   PostgreSQL accepts a scan's delta if and only if no upsert has a null key or, unless all
   columns are keys, one that another upsert has.
   */
  lemma AcceptedIff(v: View, gens: Gens, prev: Snapshot, pages: seq<int>, out: ScanOutput, t: Table)
    requires Tracking(v.schema) && IsScan(v, gens, prev, pages, out) &&
             KeysOnly(prev, v.schema.pkByteLen, |v.schema.pk|)
    ensures var ups := PagesFound(v, gens, FirstCycle(v.schema, prev), pages).upserts;
            MetaOf(v.schema).Valid() && Wide(ups, |v.schema.slots|) &&
            (DeltaApplied(t, v.schema, out).Some? <==> !Rejected(ups, MetaOf(v.schema)))
  {
    hide PagesFound, KeysOnly, PgCopy.ParseCopy, KeyOfRow, Stride, Desc.Usable, IsKey, IsScan, Upserted, Deleted,
         Indexed, PgCopy.Uniform, Meta.Valid, NoNull, Meta.AllKey;
    var schema, first := v.schema, FirstCycle(v.schema, prev);
    var found := PagesFound(v, gens, first, pages);
    UpsertStreamParses(v, gens, prev, pages, out);
    DeleteStreamParses(v, gens, prev, pages, out);
    UpsertsUniform(v, gens, first, pages);
    UniformIsWide(found.upserts, |schema.slots|);
    MetaIsValid(schema);
    RowsOfStream(out.upsertBuf, |schema.slots|, found.upserts);
    if out.deletes > 0 {
      RowsOfStream(out.deleteBuf, |schema.pk|, found.stubs + KeyRows(out.expressKeys, |schema.pk|));
    }
  }

  lemma ExpressRowsAre(v: View, keys: seq<Bytes>, k: Row)
    requires Tracking(v.schema) && |k| == |v.schema.pk| && PgCopy.AllFit(k)
    requires forall kb :: kb in keys ==> IsKey(kb, |v.schema.pk|)
    ensures k in KeyRows(keys, |v.schema.pk|) <==> EncodeFields(k) in keys
  {
    hide PgCopy.AllFit, IsKey, EncodeFields, Stride, Desc.Usable;
    var n, kb := |v.schema.pk|, EncodeFields(k);
    var rows := KeyRows(keys, n);
    if k in rows {
      var i :| 0 <= i < |rows| && rows[i] == k;
      assert kb == keys[i];
    }
    if kb in keys {
      var i :| 0 <= i < |keys| && keys[i] == kb;
      KeyOfUnique(kb, n, k);
      assert rows[i] == k;
    }
  }

  lemma DroppedAre(v: View, gens: Gens, prev: Snapshot, pages: seq<int>, out: ScanOutput, k: Row)
    requires Tracking(v.schema) && |k| == |v.schema.pk| && PgCopy.AllFit(k) && IsScan(v, gens, prev, pages, out)
    requires forall kb :: kb in out.expressKeys ==> IsKey(kb, |v.schema.pk|)
    ensures k in PagesFound(v, gens, FirstCycle(v.schema, prev), pages).stubs +
                 KeyRows(out.expressKeys, |v.schema.pk|) <==>
            Dropped(v, gens, prev, pages, out, k)
  {
    hide PagesFound, IsStub, Listed, IsKey, PgCopy.AllFit, EncodeFields, Stride, Desc.Usable, IsScan, Diffed;
    if v.schema.pkByteLen <= 64 { ExpressedIsDiffed(v, gens, prev, pages, out, EncodeFields(k)); }
    ExpressRowsAre(v, out.expressKeys, k);
    StubsAre(v, gens, FirstCycle(v.schema, prev), pages, k);
  }

  // ── One cycle, key by key ──

  /** Every row is filed under its own key, and every key fits a COPY tuple. */
  ghost predicate Filed(schema: Schema, t: Table)
    requires Tracking(schema)
  {
    Keyed(t, MetaOf(schema)) && forall k :: k in t ==> |k| == |schema.pk| && PgCopy.AllFit(k)
  }

  /** A cycle whose delta, if it had one, took effect: no promise about file, record or replica is made. */
  ghost predicate IsCycle(v: View, gens: Gens, prev: Snapshot, pages: seq<int>, out: ScanOutput, t: Table, t': Table) {
    Tracking(v.schema) && KeysOnly(prev, v.schema.pkByteLen, |v.schema.pk|) && Filed(v.schema, t) &&
    IsScan(v, gens, prev, pages, out) &&
    if HasDelta(out) then DeltaApplied(t, v.schema, out) == Some(t') else t' == t
  }

  lemma CycleTracks(v: View, gens: Gens, prev: Snapshot, pages: seq<int>, out: ScanOutput, t: Table, t': Table)
    requires IsCycle(v, gens, prev, pages, out, t, t')
    ensures Tracking(v.schema) && v.schema.Valid()
  {
  }

  lemma CycleIsScan(v: View, gens: Gens, prev: Snapshot, pages: seq<int>, out: ScanOutput, t: Table, t': Table)
    requires IsCycle(v, gens, prev, pages, out, t, t')
    ensures Tracking(v.schema) && v.schema.Valid() && IsScan(v, gens, prev, pages, out) && Filed(v.schema, t)
  {
  }

  /** What every key is after the cycle: written, or as it was unless it was dropped. */
  lemma CycleOutcome(v: View, gens: Gens, prev: Snapshot, pages: seq<int>, out: ScanOutput, t: Table, t': Table, k: Row)
    requires IsCycle(v, gens, prev, pages, out, t, t')
    ensures k in t' <==> Writes(v, gens, pages, k) || (k in t && !Dropped(v, gens, prev, pages, out, k))
    ensures forall row :: Written(v, gens, pages, k, row) ==> k in t' && t'[k] == row
    ensures !Writes(v, gens, pages, k) && k in t' ==> t'[k] == t[k]
  {
    hide Dropped, PagesFound, IsScan, DeltaApplied, Names, Written, KeyOfRow, PgCopy.AllFit, IsKey, Keyed, KeysOnly,
         Tracking;
    var first := FirstCycle(v.schema, prev);
    TrackedIsValid(v.schema);
    DeltaMoves(v, gens, prev, pages, out, t, t');
    NamedIsWritten(v, gens, first, pages, k);
    forall row | Written(v, gens, pages, k, row)
      ensures k in t' && t'[k] == row
    {
      WrittenIsWide(v, gens, pages, k, row);
      UpsertsAreWritten(v, gens, first, pages, k, row);
    }
    if k in t { DroppedAre(v, gens, prev, pages, out, k); }
  }

  lemma {:induction false} KeyOfRowFits(row: Row, pk: PkIndices)
    requires PgCopy.AllFit(row) && InRange(pk, |row|) && Indexed(pk)
    ensures |KeyOfRow(row, pk)| == |pk| && PgCopy.AllFit(KeyOfRow(row, pk))
  {
    FitEach(row);
    EachFits(KeyOfRow(row, pk));
  }

  lemma {:induction false} FitEach(row: Row)
    requires PgCopy.AllFit(row)
    ensures forall i :: 0 <= i < |row| ==> PgCopy.AllFit([row[i]])
  {
    if row != [] {
      FitEach(row[1..]);
      forall i | 0 <= i < |row|
        ensures PgCopy.AllFit([row[i]])
      {
        if i > 0 { assert row[i] == row[1..][i - 1]; }
      }
    }
  }

  lemma {:induction false} EachFits(row: Row)
    requires forall i :: 0 <= i < |row| ==> PgCopy.AllFit([row[i]])
    ensures PgCopy.AllFit(row)
  {
    if row != [] {
      assert PgCopy.AllFit([row[0]]);
      forall i | 0 <= i < |row[1..]|
        ensures PgCopy.AllFit([row[1..][i]])
      {
        assert row[1..][i] == row[i + 1];
      }
      EachFits(row[1..]);
    }
  }

  /** The rows stay filed under their keys. */
  lemma FiledStays(v: View, gens: Gens, prev: Snapshot, pages: seq<int>, out: ScanOutput, t: Table, t': Table)
    requires IsCycle(v, gens, prev, pages, out, t, t')
    ensures Filed(v.schema, t')
  {
    hide PagesFound, IsScan, DeltaApplied, KeyOfRow, PgCopy.AllFit, IsKey, Keyed, KeysOnly, Stride, Desc.Usable,
         PgCopy.Uniform, Indexed;
    var first := FirstCycle(v.schema, prev);
    var ups := PagesFound(v, gens, first, pages).upserts;
    MetaIsValid(v.schema);
    DeltaMoves(v, gens, prev, pages, out, t, t');
    UpsertsUniform(v, gens, first, pages);
    forall k | k in t'
      ensures |k| == |v.schema.pk| && PgCopy.AllFit(k)
    {
      if i :| 0 <= i < |ups| && KeyOfRow(ups[i], v.schema.pk) == k {
        UniformFits(ups, |v.schema.slots|, i);
        KeyOfRowFits(ups[i], v.schema.pk);
      }
    }
  }

  lemma {:induction false} UniformFits(rows: seq<Row>, n: nat, i: nat)
    requires PgCopy.Uniform(rows, n) && i < |rows|
    ensures |rows[i]| == n && PgCopy.AllFit(rows[i])
  {
    hide PgCopy.AllFit;
    if i > 0 { UniformFits(rows[1..], n, i - 1); }
  }

  // ── When the table is the file's ──

  /** The data pages of the list. */
  function PagesOf(db: Db, pages: seq<int>): Pages {
    map p | p in pages && Visited(db, p) :: db.Page(p)
  }

  lemma ListedIsOnPage(db: Db, pages: seq<int>, p: int, raw: Bytes)
    ensures Listed(db, pages, p, raw) <==> p in PagesOf(db, pages) && OnPage(PagesOf(db, pages)[p], raw)
  {
    hide Visited, OnPage;
  }

  /** A live row is in the table after the cycle. */
  ghost predicate Arrives(v: View, gens: Gens, prev: Snapshot, pages: seq<int>, out: ScanOutput, t: Table, k: Row,
      row: Row)
    requires Tracking(v.schema)
  {
    Written(v, gens, pages, k, row) ||
    (k in t && t[k] == row && !Writes(v, gens, pages, k) && !Dropped(v, gens, prev, pages, out, k))
  }

  /** A key that is not live is not in the table after the cycle. */
  ghost predicate Leaves(v: View, gens: Gens, prev: Snapshot, pages: seq<int>, out: ScanOutput, t: Table, k: Row)
    requires Tracking(v.schema)
  {
    !Writes(v, gens, pages, k) && (k in t ==> Dropped(v, gens, prev, pages, out, k))
  }

  /**
   One cycle, exactly, whatever state it started from, whatever the file holds, and
   whichever pages are taken for the file, listed or not: the table ends up holding their
   live rows if and only if every live row is written or was there and is neither
   overwritten nor dropped, and every other key is not written and is dropped if it was
   there.
   */
  lemma CycleIsExact(v: View, gens: Gens, prev: Snapshot, pages: seq<int>, out: ScanOutput, t: Table, t': Table,
      file: Pages)
    requires IsCycle(v, gens, prev, pages, out, t, t')
    ensures IsTable(v.schema, file, t') <==>
            (forall k, row :: LiveIn(v.schema, file, k, row) ==> Arrives(v, gens, prev, pages, out, t, k, row)) &&
            forall k :: !LiveKey(v.schema, file, k) ==> Leaves(v, gens, prev, pages, out, t, k)
  {
    hide IsCycle, LiveIn, Written, Dropped, Tracking;
    CycleTracks(v, gens, prev, pages, out, t, t');
    forall k
      ensures k in t' <==> Writes(v, gens, pages, k) || (k in t && !Dropped(v, gens, prev, pages, out, k))
      ensures forall row :: Written(v, gens, pages, k, row) ==> k in t' && t'[k] == row
      ensures !Writes(v, gens, pages, k) && k in t' ==> t'[k] == t[k]
    {
      CycleOutcome(v, gens, prev, pages, out, t, t', k);
    }
    forall k, row
      ensures Arrives(v, gens, prev, pages, out, t, k, row) <==> k in t' && t'[k] == row
    {
    }
    forall k
      ensures Leaves(v, gens, prev, pages, out, t, k) <==> k !in t'
    {
    }
  }

  /** A table of some pages' rows is a table of other pages' rows exactly if the rows are the same. */
  lemma TableOfBoth(schema: Schema, t: Table, pages: Pages, others: Pages)
    requires Tracking(schema) && IsTable(schema, pages, t)
    ensures IsTable(schema, others, t) <==>
            forall k, row :: LiveIn(schema, others, k, row) <==> LiveIn(schema, pages, k, row)
  {
    hide LiveIn, Tracking;
    if IsTable(schema, others, t) {
      forall k, row
        ensures LiveIn(schema, others, k, row) <==> LiveIn(schema, pages, k, row)
      {
      }
    }
  }

  /**
   A cycle leaves the table as it was if and only if the rows it writes are there already,
   and it drops no key that it does not write.
   */
  lemma CycleKeepsIff(v: View, gens: Gens, prev: Snapshot, pages: seq<int>, out: ScanOutput, t: Table, t': Table)
    requires IsCycle(v, gens, prev, pages, out, t, t')
    ensures t' == t <==>
            (forall k, row :: Written(v, gens, pages, k, row) ==> k in t && t[k] == row) &&
            forall k :: k in t && !Writes(v, gens, pages, k) ==> !Dropped(v, gens, prev, pages, out, k)
  {
    hide IsCycle, Written, Dropped, Tracking;
    CycleTracks(v, gens, prev, pages, out, t, t');
    forall k
      ensures k in t' <==> Writes(v, gens, pages, k) || (k in t && !Dropped(v, gens, prev, pages, out, k))
      ensures forall row :: Written(v, gens, pages, k, row) ==> k in t' && t'[k] == row
      ensures !Writes(v, gens, pages, k) && k in t' ==> t'[k] == t[k]
    {
      CycleOutcome(v, gens, prev, pages, out, t, t', k);
    }
    if (forall k, row :: Written(v, gens, pages, k, row) ==> k in t && t[k] == row) &&
       forall k :: k in t && !Writes(v, gens, pages, k) ==> !Dropped(v, gens, prev, pages, out, k) {
      forall k
        ensures k in t' <==> k in t
        ensures k in t' && k in t ==> t'[k] == t[k]
      {
      }
      assert t' == t;
    }
  }
}
