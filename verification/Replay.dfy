/** Scanning the same file again: idle cycles, replay after a crash, retries, and a stale snapshot. */
module Replay {
  import opened Bytes
  import opened Fields
  import opened Keys
  import opened Ods
  import opened Changes
  import opened RecordScan
  import opened Express
  import opened Scan
  import opened ScanFacts
  import opened ChunkRows
  import opened FlatPk
  import opened Replica
  import opened Sync
  import opened Live
  import opened OneCycle
  import opened Convergence
  import PgCopy

  // ── An idle cycle ──

  ghost predicate NoneChanged(db: Db, gens: Gens, pages: seq<int>) {
    forall p :: p in pages && Visited(db, p) ==> !Changed(db, gens, p)
  }

  /** No delete stub on these pages is newer than the watermark. */
  ghost predicate StubsSettled(db: Db, pages: seq<int>, txn: int) {
    forall p, raw ::
      Listed(db, pages, p, raw) && HasHeader(raw) && Has(raw, RHD_DELETED) && RecordTransaction(raw).Some? ==>
        RecordTransaction(raw).value <= txn
  }

  lemma NothingFoundUnchanged(v: View, gens: Gens, first: bool, pages: seq<int>)
    requires v.schema.Valid() && NoneChanged(v.db, gens, pages) && StubsSettled(v.db, pages, v.lastTxn)
    ensures PagesFound(v, gens, first, pages).upserts == [] && PagesFound(v, gens, first, pages).stubs == []
  {
    hide PagesFound, OnPage, Visited, Changed, Stride, Desc.Usable, ChangedRow, StubKey, RecordTransaction, Has;
    var found := PagesFound(v, gens, first, pages);
    if found.upserts != [] {
      UpsertsAre(v, gens, first, pages, found.upserts[0]);
    }
    if found.stubs != [] {
      StubsAre(v, gens, first, pages, found.stubs[0]);
      var p, raw :| Listed(v.db, pages, p, raw) && IsStub(v, raw, found.stubs[0]);
      StubHasFlag(v.db, v.schema, raw);
    }
  }

  lemma StubHasFlag(db: Db, schema: Schema, raw: Bytes)
    requires schema.Valid() && StubKey(db, schema, raw).Some?
    ensures HasHeader(raw) && Has(raw, RHD_DELETED)
  {
    hide Has, Stride, DeletedVersion, RecordKey, PayloadFrom;
  }

  lemma NothingExpressed(v: View, gens: Gens, prev: Snapshot, pages: seq<int>, out: ScanOutput)
    requires v.schema.Valid() && IsScan(v, gens, prev, pages, out) && NoneChanged(v.db, gens, pages)
    ensures out.expressKeys == []
  {
    hide PagesFound, Visited, Changed, Stride, Desc.Usable, IsPageSnapshot, Vanished, InFlat, PgCopy.Stream, Opened,
         NewGens;
    if v.schema.pkByteLen > 0 && prev != map[] {
      assert forall p :: p !in out.newPks;
      HasFirst(out.expressKeys);
    }
  }

  lemma HasFirst(s: seq<Bytes>)
    ensures s != [] ==> s[0] in s
  {
  }

  /** What a scan leaves behind: its pages' generations recorded, its stubs at or below its watermark. */
  lemma ScanSettles(v: View, gens: Gens, prev: Snapshot, pages: seq<int>, out: ScanOutput, next: Gens)
    requires v.schema.Valid() && IsScan(v, gens, prev, pages, out)
    requires next == gens + out.newGens || next == Retained(gens + out.newGens, pages)
    ensures NoneChanged(v.db, next, pages) && StubsSettled(v.db, pages, out.maxTxn)
  {
    hide PagesFound, OnPage, Visited, Generation, Stride, Desc.Usable, RecordTransaction, Has, AreNewSnapshots,
         IsExpress;
    forall p, raw | Listed(v.db, pages, p, raw) && HasHeader(raw) && Has(raw, RHD_DELETED) &&
      RecordTransaction(raw).Some?
      ensures RecordTransaction(raw).value <= out.maxTxn
    {
      WatermarkCovers(v, gens, FirstCycle(v.schema, prev), pages, p, raw);
    }
  }

  /**
   Scanning a file again right after a successful cycle finds nothing: no upsert, no stub,
   no express delete, for every file and every state the first cycle started from, and
   however far the watermark has been raised since.
   */
  lemma IdleRescanIsEmpty(f: TableFile, wm: nat, snap: Option<Snapshot>, fate: Fate, a: Slice, b: Slice,
      out: ScanOutput, stats: Stats, wm': nat, fate': Fate, c: Slice, out': ScanOutput, stats': Option<Stats>)
    requires IsSync(f, wm, snap, fate, a, b, out, Some(stats)) && wm' >= stats.maxTxn
    requires IsSync(f, wm', None, fate', b, c, out', stats')
    ensures stats'.Some? && stats'.value.upserts == 0 && stats'.value.deletes == 0 && stats'.value.expressDeletes == 0
    ensures c.table == b.table && c.gens == b.gens
  {
    hide IsScan, Schema.Valid, DeltaApplied, NewCache;
    var r := Refreshed(f, CacheOf(f, snap, a));
    if r != None {
      var (cache, refreshed) := r.value;
      RescanIsEmpty(f, wm, a.gens, cache, out, refreshed, wm', out');
    }
  }

  lemma RescanIsEmpty(f: TableFile, wm: nat, gens: Gens, cache: Cache, out: ScanOutput, refreshed: bool, wm': nat,
      out': ScanOutput)
    requires cache.schema.Valid() && IsScan(View(f.db, cache.schema, wm), gens, cache.prev, cache.dataPages, out) &&
             wm' >= out.maxTxn
    requires IsScan(View(f.db, cache.schema, wm'), NextGens(gens, cache, out, refreshed),
                    NextPrev(cache, out, refreshed), cache.dataPages, out')
    ensures out'.upserts == 0 && out'.deletes == 0 && out'.expressKeys == [] && out'.newGens == map[]
    ensures NextGens(NextGens(gens, cache, out, refreshed), cache, out', false) == NextGens(gens, cache, out, refreshed)
  {
    hide Visited, Changed, OnPage, PagesFound, Stride, Desc.Usable, RecordTransaction, Has, AreNewSnapshots, IsExpress,
         PgCopy.Stream, Opened, NextPrev;
    var v, v' := View(f.db, cache.schema, wm), View(f.db, cache.schema, wm');
    var next := NextGens(gens, cache, out, refreshed);
    ScanSettles(v, gens, cache.prev, cache.dataPages, out, next);
    var prev' := NextPrev(cache, out, refreshed);
    NothingFoundUnchanged(v', next, FirstCycle(cache.schema, prev'), cache.dataPages);
    NothingExpressed(v', next, prev', cache.dataPages, out');
    assert out'.newGens == map[];
    assert next + map[] == next;
  }

  // ── Replay after a crash ──

  lemma SameSnapshots(v: View, gens: Gens, first: bool, pages: seq<int>, news: Snapshot, news': Snapshot)
    requires v.schema.Valid()
    requires AreNewSnapshots(v, gens, first, pages, news) && AreNewSnapshots(v, gens, first, pages, news')
    ensures news == news'
  {
    hide Rebuilt, PageFound, Stride, Desc.Usable, Join, Chunks, SortDedupResult;
    assert forall p :: p in news <==> p in news';
    forall p | p in news
      ensures news[p] == news'[p]
    {
      SameFlat(Join(PageFound(v, gens, first, p).keys), v.schema.pkByteLen, news[p], news'[p]);
    }
  }

  lemma SameFlat(flat: Bytes, stride: nat, a: Bytes, b: Bytes)
    requires SortDedupResult(flat, stride, a) && SortDedupResult(flat, stride, b)
    ensures a == b
  {
    hide SortedSetOf;
    if 0 < stride <= 64 { SortedSetUnique(a, b, stride, Chunks(flat, stride)); }
  }

  ghost predicate SameMembers<T(!new)>(s: seq<T>, s': seq<T>) {
    forall x :: x in s <==> x in s'
  }

  ghost predicate Repeatless<T>(s: seq<T>) {
    forall i, j :: 0 <= i < j < |s| ==> s[i] != s[j]
  }

  ghost function Elements<T>(s: seq<T>): set<T> {
    set x | x in s
  }

  lemma {:induction false} RepeatlessCount<T(!new)>(s: seq<T>)
    requires Repeatless(s)
    ensures |Elements(s)| == |s|
  {
    if s != [] {
      var n := |s| - 1;
      RepeatlessCount(s[..n]);
      assert s == s[..n] + [s[n]];
      assert Elements(s) == Elements(s[..n]) + {s[n]};
    }
  }

  lemma SameLength<T(!new)>(s: seq<T>, s': seq<T>)
    requires Repeatless(s) && Repeatless(s') && SameMembers(s, s')
    ensures |s| == |s'|
  {
    RepeatlessCount(s);
    RepeatlessCount(s');
    assert Elements(s) == Elements(s');
  }

  /**
   Two scans of one file from one state agree on everything but the order of the express
   deletes, and beyond stride 64 on everything but the express deletes.
   */
  lemma ScansAgree(v: View, gens: Gens, prev: Snapshot, pages: seq<int>, out: ScanOutput, out': ScanOutput)
    requires v.schema.Valid()
    requires IsScan(v, gens, prev, pages, out) && IsScan(v, gens, prev, pages, out')
    ensures out'.upsertBuf == out.upsertBuf && out'.upserts == out.upserts
    ensures out'.maxTxn == out.maxTxn && out'.newGens == out.newGens && out'.newPks == out.newPks
    ensures out'.pagesTotal == out.pagesTotal && out'.pagesSkipped == out.pagesSkipped
    ensures v.schema.pkByteLen <= 64 ==>
              SameMembers(out.expressKeys, out'.expressKeys) && out'.deletes == out.deletes
  {
    hide PagesFound, AreNewSnapshots, NewGens, Stride, Desc.Usable, PgCopy.Stream, Opened, KeyTuples, Vanished, Swept,
         DataPages, SkippedPages;
    SameSnapshots(v, gens, FirstCycle(v.schema, prev), pages, out.newPks, out'.newPks);
    if v.schema.pkByteLen <= 64 { SameLength(out.expressKeys, out'.expressKeys); }
  }

  // ── The upserts of a second look ──

  /** The rows are some of the others, in their order. */
  ghost predicate Thinned(rows: seq<Row>, all: seq<Row>) {
    if all == [] then rows == [] else
    var init, last := all[..|all| - 1], all[|all| - 1];
    Thinned(rows, init) || (rows != [] && rows[|rows| - 1] == last && Thinned(rows[..|rows| - 1], init))
  }

  lemma {:induction false} ThinnedToNone(all: seq<Row>)
    ensures Thinned([], all)
  {
    if all != [] { ThinnedToNone(all[..|all| - 1]); }
  }

  lemma {:induction false} ThinnedToAll(all: seq<Row>)
    ensures Thinned(all, all)
  {
    if all != [] { ThinnedToAll(all[..|all| - 1]); }
  }

  lemma {:induction false} ThinnedConcat(rows: seq<Row>, all: seq<Row>, rows': seq<Row>, all': seq<Row>)
    requires Thinned(rows, all) && Thinned(rows', all')
    ensures Thinned(rows + rows', all + all')
    decreases |all'|
  {
    if all' == [] {
      assert rows + rows' == rows && all + all' == all;
    } else {
      var n := |all'| - 1;
      assert (all + all')[..|all + all'| - 1] == all + all'[..n];
      if Thinned(rows', all'[..n]) {
        ThinnedConcat(rows, all, rows', all'[..n]);
      } else {
        ThinnedConcat(rows, all, rows'[..|rows'| - 1], all'[..n]);
        assert (rows + rows')[..|rows + rows'| - 1] == rows + rows'[..|rows'| - 1];
      }
    }
  }

  lemma {:induction false} ThinnedHolds(rows: seq<Row>, all: seq<Row>, row: Row)
    requires Thinned(rows, all) && row in rows
    ensures row in all
  {
    var init := all[..|all| - 1];
    assert all == init + [all[|all| - 1]];
    if Thinned(rows, init) {
      ThinnedHolds(rows, init, row);
    } else {
      assert rows == rows[..|rows| - 1] + [rows[|rows| - 1]];
      if row in rows[..|rows| - 1] { ThinnedHolds(rows[..|rows| - 1], init, row); }
    }
  }

  /** What PostgreSQL accepts it accepts with rows left out. */
  lemma ThinnedAccepted(rows: seq<Row>, all: seq<Row>, meta: Meta)
    requires meta.Valid() && Wide(rows, meta.columns) && Wide(all, meta.columns) && Thinned(rows, all)
    requires !Rejected(all, meta)
    ensures !Rejected(rows, meta)
  {
    hide KeyOfRow, NoNull, Meta.AllKey, Thinned;
    forall i | 0 <= i < |rows|
      ensures NoNull(KeyOfRow(rows[i], meta.pk))
    {
      ThinnedHolds(rows, all, rows[i]);
      var j :| 0 <= j < |all| && all[j] == rows[i];
    }
    if !meta.AllKey() { ThinnedRepeatsNothing(rows, all, meta); }
  }

  lemma {:induction false} ThinnedRepeatsNothing(rows: seq<Row>, all: seq<Row>, meta: Meta)
    requires meta.Valid() && Wide(rows, meta.columns) && Wide(all, meta.columns) && Thinned(rows, all)
    requires !RepeatsKey(all, meta)
    ensures !RepeatsKey(rows, meta)
  {
    hide KeyOfRow;
    if all != [] {
      var n := |all| - 1;
      assert forall i :: 0 <= i < n ==> all[..n][i] == all[i];
      if Thinned(rows, all[..n]) {
        ThinnedRepeatsNothing(rows, all[..n], meta);
      } else {
        var init := rows[..|rows| - 1];
        assert forall i :: 0 <= i < |init| ==> init[i] == rows[i];
        ThinnedRepeatsNothing(init, all[..n], meta);
        forall i | 0 <= i < |init|
          ensures KeyOfRow(rows[i], meta.pk) != KeyOfRow(rows[|rows| - 1], meta.pk)
        {
          assert init[i] in init;
          ThinnedHolds(init, all[..n], init[i]);
          var j :| 0 <= j < n && all[..n][j] == init[i];
        }
      }
    }
  }

  lemma EffectThins(v: View, wm: nat, look: Look, look': Look, raw: Bytes)
    requires v.schema.Valid() && wm >= v.lastTxn && look.changed == look'.changed
    ensures Thinned(Effect(v.(lastTxn := wm), look', raw).upserts, Effect(v, look, raw).upserts)
  {
    hide Thinned, Has, ChangedRow, StubKey, SnapshotKey, RecordTransaction, Stride, Schema.Valid;
    ThinnedToNone(Effect(v, look, raw).upserts);
    ThinnedToAll(Effect(v, look, raw).upserts);
    if look.changed { SameUpserts(v, wm, look, look', raw); }
  }

  lemma SameUpserts(v: View, wm: nat, look: Look, look': Look, raw: Bytes)
    requires v.schema.Valid() && wm >= v.lastTxn && look.changed && look'.changed
    ensures var ups := Effect(v.(lastTxn := wm), look', raw).upserts;
            ups == [] || ups == Effect(v, look, raw).upserts
  {
    hide Has, ChangedRow, StubKey, SnapshotKey, RecordTransaction, Stride, Schema.Valid;
  }

  lemma {:induction false} SlotsThin(v: View, wm: nat, look: Look, look': Look, page: Bytes, n: nat)
    requires v.schema.Valid() && wm >= v.lastTxn && look.changed == look'.changed
    ensures Thinned(SlotsFound(v.(lastTxn := wm), look', page, n).upserts, SlotsFound(v, look, page, n).upserts)
  {
    hide Thinned, Effect, SlotBytes, Stride, Schema.Valid;
    var w := v.(lastTxn := wm);
    if n == 0 {
      ThinnedToNone([]);
    } else {
      SlotsThin(v, wm, look, look', page, n - 1);
      match SlotBytes(page, n - 1)
      case None =>
      case Some(raw) =>
        EffectThins(v, wm, look, look', raw);
        ThinnedConcat(SlotsFound(w, look', page, n - 1).upserts, SlotsFound(v, look, page, n - 1).upserts,
                      Effect(w, look', raw).upserts, Effect(v, look, raw).upserts);
    }
  }

  lemma PageThins(v: View, wm: nat, gens: Gens, first: bool, first': bool, p: int)
    requires v.schema.Valid() && wm >= v.lastTxn
    ensures Thinned(PageFound(v.(lastTxn := wm), gens, first', p).upserts, PageFound(v, gens, first, p).upserts)
  {
    hide Thinned, SlotsFound, Visited, Changed, Schema.Valid, SlotCount;
    var page := v.db.Page(p);
    var look, look' := LookAt(v, gens, first, p), LookAt(v.(lastTxn := wm), gens, first', p);
    SlotsThin(v, wm, look, look', page, SlotCount(page));
    ThinnedToNone([]);
  }

  /** A second look at the same pages, at a watermark that may have risen, upserts some of the first look's rows. */
  lemma {:induction false} PagesThin(v: View, wm: nat, gens: Gens, first: bool, first': bool, pages: seq<int>)
    requires v.schema.Valid() && wm >= v.lastTxn
    ensures Thinned(PagesFound(v.(lastTxn := wm), gens, first', pages).upserts,
                    PagesFound(v, gens, first, pages).upserts)
  {
    hide Thinned, PageFound, Schema.Valid;
    var w := v.(lastTxn := wm);
    if pages == [] {
      ThinnedToNone([]);
    } else {
      var init, p := pages[..|pages| - 1], pages[|pages| - 1];
      PagesThin(v, wm, gens, first, first', init);
      PageThins(v, wm, gens, first, first', p);
      ThinnedConcat(PagesFound(w, gens, first', init).upserts, PagesFound(v, gens, first, init).upserts,
                    PageFound(w, gens, first', p).upserts, PageFound(v, gens, first, p).upserts);
    }
  }

  // ── Replay ──

  /**
   A cycle repeated over the same pages and generations, with any snapshot and at a
   watermark that may have risen, has a delta that PostgreSQL accepts again.
   */
  lemma ReplayIsAccepted(v: View, wm: nat, gens: Gens, prev: Snapshot, pages: seq<int>, out: ScanOutput, t: Table,
      t': Table, prev': Snapshot, out': ScanOutput)
    requires IsCycle(v, gens, prev, pages, out, t, t') && wm >= v.lastTxn
    requires KeysOnly(prev', v.schema.pkByteLen, |v.schema.pk|)
    requires IsScan(v.(lastTxn := wm), gens, prev', pages, out')
    ensures DeltaApplied(t', v.schema, out').Some?
  {
    hide PagesFound, IsScan, DeltaApplied, KeysOnly, Filed, Rejected, Thinned, Tracking, Schema.Valid;
    var w := v.(lastTxn := wm);
    var first, first' := FirstCycle(v.schema, prev), FirstCycle(v.schema, prev');
    CycleTracks(v, gens, prev, pages, out, t, t');
    AcceptedIff(v, gens, prev, pages, out, t);
    AcceptedIff(w, gens, prev', pages, out', t');
    PagesThin(v, wm, gens, first, first', pages);
    var ups := PagesFound(v, gens, first, pages).upserts;
    if !HasDelta(out) {
      CountsFound(v, gens, prev, pages, out);
      NothingRejected(MetaOf(v.schema));
    }
    ThinnedAccepted(PagesFound(w, gens, first', pages).upserts, ups, MetaOf(v.schema));
  }

  lemma CountsFound(v: View, gens: Gens, prev: Snapshot, pages: seq<int>, out: ScanOutput)
    requires v.schema.Valid() && IsScan(v, gens, prev, pages, out)
    ensures out.upserts == |PagesFound(v, gens, FirstCycle(v.schema, prev), pages).upserts|
  {
    hide PagesFound, Schema.Valid, AreNewSnapshots, NewGens, IsExpress, PgCopy.Stream, Opened, KeyTuples;
  }

  lemma NothingRejected(meta: Meta)
    requires meta.Valid()
    ensures !Rejected([], meta)
  {
  }

  lemma WrittenBefore(v: View, wm: nat, gens: Gens, pages: seq<int>, k: Row, row: Row)
    requires Tracking(v.schema) && wm >= v.lastTxn && Written(v.(lastTxn := wm), gens, pages, k, row)
    ensures Written(v, gens, pages, k, row)
  {
    hide Tracking, OnPage, Visited, Changed, ChangedRow, KeyOfRow;
    var w := v.(lastTxn := wm);
    var p, raw :| Listed(w.db, pages, p, raw) && IsUpsert(w, gens, p, raw, row);
    assert Listed(v.db, pages, p, raw) && IsUpsert(v, gens, p, raw, row);
  }

  /**
   Replay, exactly: a cycle repeated over the same pages and generations, with any snapshot
   and at a watermark that may have risen, changes nothing if and only if no key of the
   table that it does not write again is named by a new stub or told vanished by the
   snapshot it now compares with.
   */
  lemma ReplayIsExact(v: View, wm: nat, gens: Gens, prev: Snapshot, pages: seq<int>, out: ScanOutput, t: Table,
      t': Table, prev': Snapshot, out': ScanOutput, t'': Table)
    requires IsCycle(v, gens, prev, pages, out, t, t') && wm >= v.lastTxn
    requires IsCycle(v.(lastTxn := wm), gens, prev', pages, out', t', t'')
    ensures t'' == t' <==>
            var w := v.(lastTxn := wm);
            forall k :: k in t' && !Writes(w, gens, pages, k) ==> !Dropped(w, gens, prev', pages, out', k)
  {
    hide IsCycle, Written, Dropped, Tracking;
    var w := v.(lastTxn := wm);
    CycleTracks(v, gens, prev, pages, out, t, t');
    CycleKeepsIff(w, gens, prev', pages, out', t', t'');
    forall k, row | Written(w, gens, pages, k, row)
      ensures k in t' && t'[k] == row
    {
      WrittenBefore(v, wm, gens, pages, k, row);
      CycleOutcome(v, gens, prev, pages, out, t, t', k);
    }
  }

  /**
   With the snapshot and the watermark it had before, a cycle that was not saved is
   recomputed as the same delta, and applying it to the table it already changed is accepted
   and changes nothing.
   */
  lemma ReplayChangesNothing(v: View, gens: Gens, prev: Snapshot, pages: seq<int>, out: ScanOutput, out': ScanOutput,
      t: Table, t': Table)
    requires IsCycle(v, gens, prev, pages, out, t, t') && v.schema.pkByteLen <= 64
    requires IsScan(v, gens, prev, pages, out')
    ensures IsCycle(v, gens, prev, pages, out', t', t') && (HasDelta(out') <==> HasDelta(out))
    ensures DeltaApplied(t', v.schema, out').Some?
    ensures SameMembers(out.expressKeys, out'.expressKeys) && out'.upsertBuf == out.upsertBuf
  {
    hide IsScan, DeltaApplied, KeysOnly, Filed, Tracking, Schema.Valid, Dropped, Writes;
    CycleTracks(v, gens, prev, pages, out, t, t');
    assert v.(lastTxn := v.lastTxn) == v;
    ScansAgree(v, gens, prev, pages, out, out');
    ReplayIsAccepted(v, v.lastTxn, gens, prev, pages, out, t, t', prev, out');
    FiledStays(v, gens, prev, pages, out, t, t');
    var t'' := if HasDelta(out') then DeltaApplied(t', v.schema, out').value else t';
    ReplayIsExact(v, v.lastTxn, gens, prev, pages, out, t, t', prev, out', t'');
    forall k | k in t' && !Writes(v, gens, pages, k)
      ensures !Dropped(v, gens, prev, pages, out', k)
    {
      CycleOutcome(v, gens, prev, pages, out, t, t', k);
      SameDropped(v, gens, prev, pages, out, out', k);
    }
  }

  lemma SameDropped(v: View, gens: Gens, prev: Snapshot, pages: seq<int>, out: ScanOutput, out': ScanOutput, k: Row)
    requires v.schema.Valid() && v.schema.pkByteLen <= 64
    ensures Dropped(v, gens, prev, pages, out, k) <==> Dropped(v, gens, prev, pages, out', k)
  {
    hide Stubbed, Diffed, Schema.Valid;
  }

  /** A table's cycle that looked at pages and whose delta, if it had one, took effect, answered or not. */
  ghost predicate SyncTook(f: TableFile, wm: nat, snap: Option<Snapshot>, fate: Fate, a: Slice, b: Slice,
      out: ScanOutput, stats: Option<Stats>, c: Cache) {
    IsSync(f, wm, snap, fate, a, b, out, stats) && c.Valid() &&
    Refreshed(f, CacheOf(f, snap, a)).Some? && Refreshed(f, CacheOf(f, snap, a)).value.0 == c &&
    Tracking(c.schema) && Filed(c.schema, a.table) &&
    (HasDelta(out) ==> !fate.Breaks? && DeltaApplied(a.table, c.schema, out).Some?)
  }

  lemma SyncIsCycle(f: TableFile, wm: nat, snap: Option<Snapshot>, fate: Fate, a: Slice, b: Slice, out: ScanOutput,
      stats: Option<Stats>, c: Cache)
    requires SyncTook(f, wm, snap, fate, a, b, out, stats, c)
    ensures IsCycle(View(f.db, c.schema, wm), a.gens, c.prev, c.dataPages, out, a.table, b.table)
  {
    hide IsScan, Schema.Valid, DeltaApplied, NewCache, NextGens, NextPrev, KeysOnly, Tracking, Filed;
    CacheWhole(c);
  }

  /**
   Replay at the level of a table's cycle: a cycle whose delta took effect but was not
   saved, or not answered, and the next one over the same file and generations. The next one
   may start from memory or from disk, with another snapshot and page list and at a
   watermark that has risen. It changes nothing if and only if what it writes is there and it
   drops no other key of the table; over the same pages it is accepted and what it writes is
   there; and with the same snapshot and watermark too it is the same delta.
   */
  lemma CrashReplay(f: TableFile, wm: nat, snap: Option<Snapshot>, fate: Fate, a: Slice, b: Slice, out: ScanOutput,
      stats: Option<Stats>, c: Cache, wm': nat, snap': Option<Snapshot>, cache': Option<Cache>, b': Slice,
      out': ScanOutput, stats': Option<Stats>, c': Cache)
    requires SyncTook(f, wm, snap, fate, a, b, out, stats, c) && wm' >= wm
    requires var again := Slice(a.gens, cache', b.table);
             IsSync(f, wm', snap', Works, again, b', out', stats') &&
             Refreshed(f, CacheOf(f, snap', again)).Some? && Refreshed(f, CacheOf(f, snap', again)).value.0 == c'
    requires c'.Valid() && c'.schema == c.schema
    ensures stats' == None ==> b'.table == b.table
    ensures var w, pages := View(f.db, c.schema, wm'), c'.dataPages;
            stats'.Some? ==>
              (b'.table == b.table <==>
                (forall k, row :: Written(w, a.gens, pages, k, row) ==> k in b.table && b.table[k] == row) &&
                forall k :: k in b.table && !Writes(w, a.gens, pages, k) ==>
                  !Dropped(w, a.gens, c'.prev, pages, out', k))
    ensures c'.dataPages == c.dataPages ==>
              stats'.Some? &&
              forall k, row :: Written(View(f.db, c.schema, wm'), a.gens, c'.dataPages, k, row) ==>
                k in b.table && b.table[k] == row
    ensures c'.dataPages == c.dataPages && c'.prev == c.prev && wm' == wm && c.schema.pkByteLen <= 64 ==>
              b'.table == b.table && stats'.Some? && stats'.value.maxTxn == out.maxTxn &&
              stats'.value.upserts == out.upserts && stats'.value.deletes == out.deletes
  {
    hide IsScan, Schema.Valid, DeltaApplied, NewCache, NextGens, NextPrev, KeysOnly, Tracking, Filed, IsCycle, Written,
         Dropped, Refreshed, CacheOf;
    var v, w := View(f.db, c.schema, wm), View(f.db, c.schema, wm');
    assert w == v.(lastTxn := wm');
    SyncIsCycle(f, wm, snap, fate, a, b, out, stats, c);
    TookParts(v, a.gens, c, out, a.table, b.table, c');
    var again := Slice(a.gens, cache', b.table);
    SyncScans(f, wm', snap', again, b', out', stats', c');
    if stats'.Some? {
      SyncIsCycle(f, wm', snap', Works, again, b', out', stats', c');
      CycleKeepsIff(w, a.gens, c'.prev, c'.dataPages, out', b.table, b'.table);
    }
    if c'.dataPages == c.dataPages {
      ReplayIsAccepted(v, wm', a.gens, c.prev, c.dataPages, out, a.table, b.table, c'.prev, out');
      forall k, row | Written(w, a.gens, c'.dataPages, k, row)
        ensures k in b.table && b.table[k] == row
      {
        WrittenBefore(v, wm', a.gens, c.dataPages, k, row);
        CycleOutcome(v, a.gens, c.prev, c.dataPages, out, a.table, b.table, k);
      }
      if c'.prev == c.prev && wm' == wm && c.schema.pkByteLen <= 64 {
        ReplayChangesNothing(v, a.gens, c.prev, c.dataPages, out, out', a.table, b.table);
        ScansAgree(v, a.gens, c.prev, c.dataPages, out, out');
        SameCycle(v, a.gens, c.prev, c.dataPages, out', b.table, b.table, b'.table);
      }
    }
  }

  lemma TookParts(v: View, gens: Gens, c: Cache, out: ScanOutput, t: Table, t': Table, c': Cache)
    requires IsCycle(v, gens, c.prev, c.dataPages, out, t, t') && c'.Valid() && c'.schema == c.schema == v.schema
    ensures Tracking(v.schema) && v.schema.Valid() && Filed(v.schema, t')
    ensures IsScan(v, gens, c.prev, c.dataPages, out)
    ensures KeysOnly(c'.prev, v.schema.pkByteLen, |v.schema.pk|)
  {
    hide IsScan, KeysOnly, Tracking, Filed, Schema.Valid;
    CycleTracks(v, gens, c.prev, c.dataPages, out, t, t');
    FiledStays(v, gens, c.prev, c.dataPages, out, t, t');
  }

  /** What a cycle that looked at pages did with its delta. */
  lemma SyncScans(f: TableFile, wm: nat, snap: Option<Snapshot>, a: Slice, b: Slice, out: ScanOutput,
      stats: Option<Stats>, c: Cache)
    requires IsSync(f, wm, snap, Works, a, b, out, stats)
    requires Refreshed(f, CacheOf(f, snap, a)).Some? && Refreshed(f, CacheOf(f, snap, a)).value.0 == c
    ensures c.schema.Valid() && IsScan(View(f.db, c.schema, wm), a.gens, c.prev, c.dataPages, out)
    ensures stats.Some? <==> (HasDelta(out) ==> DeltaApplied(a.table, c.schema, out).Some?)
    ensures stats.None? ==> b.table == a.table
    ensures stats.Some? ==>
              stats.value.maxTxn == out.maxTxn && stats.value.upserts == out.upserts &&
              stats.value.deletes == out.deletes
  {
    hide IsScan, Schema.Valid, DeltaApplied, NewCache, NextGens, NextPrev;
  }

  lemma SameCycle(v: View, gens: Gens, prev: Snapshot, pages: seq<int>, out: ScanOutput, t: Table, t': Table,
      t'': Table)
    requires IsCycle(v, gens, prev, pages, out, t, t') && IsCycle(v, gens, prev, pages, out, t, t'')
    ensures t' == t''
  {
    hide IsScan, DeltaApplied, KeysOnly, Tracking, Filed;
  }

  // ── Where the watermark and the snapshot mislead ──

  /**
   A retry over the same pages, at a watermark that may have risen meanwhile, upserts
   exactly those rows of the failed cycle whose transactions are above it.
   */
  lemma RetryUpserts(v: View, wm: nat, gens: Gens, first: bool, pages: seq<int>, row: Row)
    requires v.schema.Valid() && wm >= v.lastTxn
    ensures row in PagesFound(v.(lastTxn := wm), gens, first, pages).upserts <==>
            exists p, raw :: Listed(v.db, pages, p, raw) && IsUpsert(v, gens, p, raw, row) &&
              RecordTransaction(raw).value > wm
  {
    hide PagesFound, OnPage, Visited, Changed, Stride, Desc.Usable, ChangedRow, RecordTransaction;
    var w := v.(lastTxn := wm);
    UpsertsAre(w, gens, first, pages, row);
    if p, raw :| Listed(w.db, pages, p, raw) && IsUpsert(w, gens, p, raw, row) {
      assert Listed(v.db, pages, p, raw) && IsUpsert(v, gens, p, raw, row);
    }
    if p, raw :| Listed(v.db, pages, p, raw) && IsUpsert(v, gens, p, raw, row) && RecordTransaction(raw).value > wm {
      assert Listed(w.db, pages, p, raw) && IsUpsert(w, gens, p, raw, row);
    }
  }

  /**
   A key of the table that no new row or stub names leaves it exactly if the snapshot tells
   that it vanished: it stood on a rescanned page, it is on none now, and no page that was
   not rescanned has it on its old list. The file itself is not asked about those pages.
   */
  lemma SnapshotDeletesIff(v: View, gens: Gens, prev: Snapshot, pages: seq<int>, out: ScanOutput, t: Table, t': Table,
      k: Row)
    requires IsCycle(v, gens, prev, pages, out, t, t') && v.schema.pkByteLen <= 64
    requires k in t && !Writes(v, gens, pages, k) && !Stubbed(v, pages, k)
    ensures k !in t' <==> Diffed(v, gens, prev, pages, EncodeFields(k))
  {
    hide IsCycle, Writes, Written, Stubbed, Diffed, EncodeFields, IsScan;
    CycleIsScan(v, gens, prev, pages, out, t, t');
    CycleOutcome(v, gens, prev, pages, out, t, t', k);
    ExpressedIsDiffed(v, gens, prev, pages, out, EncodeFields(k));
  }

  /** Page `p` is listed and counts as unchanged, and the key's row is live on it. */
  ghost predicate LiveUnchanged(v: View, gens: Gens, pages: seq<int>, p: int, k: Row, row: Row)
    requires Tracking(v.schema)
  {
    p in pages && Visited(v.db, p) && !Changed(v.db, gens, p) &&
    exists raw :: OnPage(v.db.Page(p), raw) && IsLive(v.schema, raw, k, row)
  }

  /**
   A snapshot that is not of the pages the generations are of can delete live rows. A row
   live on an unchanged page is deleted, and not brought back, exactly if its key stood on
   a rescanned page, is on none of those now, and is missing from the snapshots of all
   pages not rescanned, its own among them.
   */
  lemma StaleSnapshotDeletes(v: View, gens: Gens, prev: Snapshot, pages: seq<int>, out: ScanOutput, t: Table,
      t': Table, p: int, k: Row)
    requires IsCycle(v, gens, prev, pages, out, t, t') && 0 < v.schema.pkByteLen <= 64
    requires k in t && LiveUnchanged(v, gens, pages, p, k, t[k])
    requires !Writes(v, gens, pages, k) && !Stubbed(v, pages, k)
    ensures LiveIn(v.schema, PagesOf(v.db, pages), k, t[k])
    ensures k !in t' <==> Diffed(v, gens, prev, pages, EncodeFields(k))
    ensures k !in t' ==> !(p in prev && InFlat(prev[p], v.schema.pkByteLen, EncodeFields(k)))
    ensures k !in t' ==> !IsTable(v.schema, PagesOf(v.db, pages), t')
  {
    hide IsCycle, Writes, Written, Stubbed, EncodeFields, IsScan, IsLive, OnPage, Visited, Changed, InFlat, PageKey,
         Tracking;
    CycleIsScan(v, gens, prev, pages, out, t, t');
    SnapshotDeletesIff(v, gens, prev, pages, out, t, t', k);
    var raw :| OnPage(v.db.Page(p), raw) && IsLive(v.schema, raw, k, t[k]);
    assert p in PagesOf(v.db, pages) && PagesOf(v.db, pages)[p] == v.db.Page(p);
  }

  /**
   A row that came and went since the last save, behind a crash or an unanswered commit, is
   on no remembered snapshot: it stays in the replica exactly if no new stub names it.
   */
  lemma UnsavedRowStays(v: View, gens: Gens, prev: Snapshot, pages: seq<int>, out: ScanOutput, t: Table, t': Table,
      seen: Pages, k: Row)
    requires IsFaithfulCycle(v, gens, prev, pages, out, t, t', seen) && PagesKeyed(v.schema, seen)
    requires prev.Keys <= seen.Keys && !LiveKey(v.schema, seen, k)
    requires k in t && !LiveKey(v.schema, PagesOf(v.db, pages), k)
    ensures k in t' <==> !Stubbed(v, pages, k)
    ensures k in t' ==> !IsTable(v.schema, PagesOf(v.db, pages), t')
  {
    hide IsFaithfulCycle, Stubbed, EncodeFields, InFlat, Tracking, PagesOf, PageKey, LiveIn, StillListed;
    FaithfulTracks(v, gens, prev, pages, out, t, t', seen);
    GoneKeyOutcome(v, gens, prev, pages, out, t, t', seen, k);
    if v.schema.pkByteLen > 0 && HasKey(prev, v.schema.pkByteLen, EncodeFields(k)) {
      FaithfulKey(v, gens, prev, pages, out, t, t', seen, k);
      var p :| p in prev && InFlat(prev[p], v.schema.pkByteLen, EncodeFields(k));
      SeenKeyIsLive(v.schema, prev, seen, p, k);
    }
  }

  lemma FaithfulKey(v: View, gens: Gens, prev: Snapshot, pages: seq<int>, out: ScanOutput, t: Table, t': Table,
      seen: Pages, k: Row)
    requires IsFaithfulCycle(v, gens, prev, pages, out, t, t', seen) && k in t
    ensures |k| == |v.schema.pk| && PgCopy.AllFit(k) && SnapshotOf(v.schema, prev, seen)
  {
    hide IsScan, DeltaApplied, KeysOnly, Keyed, SnapshotOf, Faithful, PgCopy.AllFit, Tracking;
  }

  lemma SeenKeyIsLive(schema: Schema, prev: Snapshot, seen: Pages, p: int, k: Row)
    requires Tracking(schema) && SnapshotOf(schema, prev, seen) && PagesKeyed(schema, seen)
    requires |k| == |schema.pk| && PgCopy.AllFit(k) && schema.pkByteLen > 0
    requires p in seen && p in prev && InFlat(prev[p], schema.pkByteLen, EncodeFields(k))
    ensures LiveKey(schema, seen, k)
  {
    hide IsLive, OnPage, EncodeFields, InFlat, PageKey, AllKeyed, Tracking, PgCopy.AllFit, Schema.Valid;
    TrackedIsValid(schema);
    PageKeysAreLive(schema, seen[p], k);
    var raw, row :| OnPage(seen[p], raw) && IsLive(schema, raw, k, row);
    assert LiveIn(schema, seen, k, row);
  }

  /** A back version above the watermark on a changed page is upserted like a row, though no snapshot counts it. */
  lemma BackVersionUpserted(v: View, gens: Gens, first: bool, pages: seq<int>, p: int, raw: Bytes)
    requires v.schema.Valid() && Listed(v.db, pages, p, raw) && Changed(v.db, gens, p) && IsNew(v, raw)
    requires HasHeader(raw) && Has(raw, RHD_CHAIN) && ChangedRow(v.schema, raw).Some?
    ensures ChangedRow(v.schema, raw).value in PagesFound(v, gens, first, pages).upserts
    ensures SnapshotKey(v.schema, raw) == None && LiveRow(v.schema, raw) == None
  {
    hide PagesFound, OnPage, Visited, Changed, Stride, Desc.Usable, RecordTransaction, Has, PayloadFrom, RecordRow;
    UpsertsAre(v, gens, first, pages, ChangedRow(v.schema, raw).value);
    assert IsUpsert(v, gens, p, raw, ChangedRow(v.schema, raw).value);
    CurrentIsLive(raw);
  }

  /**
   A table whose pages all leave the page list is never emptied: the cycle has no delta, so
   the rows stay although none of them is in the file any more.
   */
  lemma UnlistedRowsStay(v: View, gens: Gens, prev: Snapshot, out: ScanOutput, t: Table, t': Table)
    requires IsCycle(v, gens, prev, [], out, t, t')
    ensures t' == t
    ensures IsTable(v.schema, PagesOf(v.db, []), t') <==> t == map[]
  {
    hide Stride, Desc.Usable, AreNewSnapshots, IsExpress, PgCopy.Stream, Opened, NewGens, DeltaApplied, OnPage, IsLive,
         PagesFound, Filed, KeysOnly;
    NothingFoundUnchanged(v, gens, FirstCycle(v.schema, prev), []);
    NothingExpressed(v, gens, prev, [], out);
    NoPagesNoRows(v.schema, v.db, t);
  }

  lemma NoPagesNoRows(schema: Schema, db: Db, t: Table)
    requires Tracking(schema)
    ensures IsTable(schema, PagesOf(db, []), t) <==> t == map[]
  {
    hide Tracking, OnPage, IsLive;
    assert forall k, row :: !LiveIn(schema, PagesOf(db, []), k, row);
    assert t != map[] ==> exists k :: k in t;
  }
}
