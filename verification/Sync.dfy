/** One table's cycle: cache, page list, scan, delta, and the advance of generations and snapshot. */
module Sync {
  import opened Bytes
  import opened Ods
  import opened Changes
  import opened Express
  import opened Scan
  import opened ScanFacts
  import opened Replica

  /** A table in the file: its schema, its first pointer page, and the data pages each pointer page leads to. */
  datatype TableFile = TableFile(db: Db, schema: Schema, firstPp: Option<int>, walks: map<int, seq<int>>)
  {
    function DataPagesFor(pp: int): seq<int> {
      if pp in walks then walks[pp] else []
    }
  }

  /** What a process keeps about a table between cycles. */
  datatype Cache = Cache(schema: Schema, firstPp: Option<int>, ppGen: int, dataPages: seq<int>, prev: Snapshot)
  {
    ghost predicate Valid() {
      schema.Valid() && KeysOnly(prev, schema.pkByteLen, |schema.pk|)
    }
  }

  /** The cache of a table met for the first time, with the snapshot found on disk. */
  function NewCache(f: TableFile, snap: Option<Snapshot>): Cache {
    var prev := if snap.Some? && f.schema.pkByteLen > 0 then snap.value else map[];
    match f.firstPp
    case None => Cache(f.schema, None, 0, [], prev)
    case Some(pp) => Cache(f.schema, Some(pp), Generation(f.db.Page(pp)), f.DataPagesFor(pp), prev)
  }

  /** The page list brought up to date, and whether it was read anew; none while the table has no pointer page. */
  function Refreshed(f: TableFile, c: Cache): Option<(Cache, bool)> {
    match c.firstPp
    case None =>
      (match f.firstPp
       case None => None
       case Some(pp) =>
         Some((c.(firstPp := Some(pp), ppGen := Generation(f.db.Page(pp)), dataPages := f.DataPagesFor(pp)), true)))
    case Some(pp) =>
      var cur := Generation(f.db.Page(pp));
      if cur != c.ppGen then Some((c.(dataPages := f.DataPagesFor(pp), ppGen := cur), true)) else Some((c, false))
  }

  function Retained<T>(m: map<int, T>, pages: seq<int>): map<int, T> {
    map p | p in m && p in pages :: m[p]
  }

  function NextGens(gens: Gens, c: Cache, out: ScanOutput, refreshed: bool): Gens {
    if refreshed then Retained(gens + out.newGens, c.dataPages) else gens + out.newGens
  }

  function NextPrev(c: Cache, out: ScanOutput, refreshed: bool): Snapshot {
    var prev := if c.schema.pkByteLen > 0 then c.prev + out.newPks else c.prev;
    if refreshed then Retained(prev, c.dataPages) else prev
  }

  function MetaOf(schema: Schema): Meta {
    Meta(|schema.slots|, schema.pk)
  }

  function DeltaApplied(t: Table, schema: Schema, out: ScanOutput): Option<Table> {
    Applied(t, MetaOf(schema), out.upsertBuf, out.deleteBuf, out.upserts, out.deletes)
  }

  datatype Stats = Stats(upserts: nat, deletes: nat, expressDeletes: nat, maxTxn: nat, pagesScanned: nat)

  /** A table's share of the state: recorded generations, cache, and replica table. */
  datatype Slice = Slice(gens: Gens, cache: Option<Cache>, table: Table)

  function CacheOf(f: TableFile, snap: Option<Snapshot>, s: Slice): Cache {
    if s.cache.Some? then s.cache.value else NewCache(f, snap)
  }

  /** Pages whose generation moved; never negative. */
  function PagesScanned(out: ScanOutput): nat {
    if out.pagesSkipped <= out.pagesTotal then out.pagesTotal - out.pagesSkipped else 0
  }

  predicate HasDelta(out: ScanOutput) {
    out.upserts > 0 || out.deletes > 0
  }

  /** The table the delta, when there is one, leaves behind. */
  function Landed(t: Table, schema: Schema, out: ScanOutput, fate: Fate): Table {
    if HasDelta(out) && !fate.Breaks? && DeltaApplied(t, schema, out).Some? then DeltaApplied(t, schema, out).value
    else t
  }

  /** The caller learns that the delta was applied, or there is none. */
  predicate Succeeds(t: Table, schema: Schema, out: ScanOutput, fate: Fate) {
    HasDelta(out) ==> fate.Works? && DeltaApplied(t, schema, out).Some?
  }

  /** Generations and snapshot move on only if the delta, when there is one, is known to be applied. */
  ghost predicate IsAdvance(c: Cache, refreshed: bool, fate: Fate, a: Slice, b: Slice, out: ScanOutput,
      stats: Option<Stats>) {
    b.table == Landed(a.table, c.schema, out, fate) &&
    if Succeeds(a.table, c.schema, out, fate) then
      stats == Some(Stats(out.upserts, out.deletes, |out.expressKeys|, out.maxTxn, PagesScanned(out))) &&
      b.gens == NextGens(a.gens, c, out, refreshed) && b.cache == Some(c.(prev := NextPrev(c, out, refreshed)))
    else
      stats == None && b.gens == a.gens && b.cache == Some(c)
  }

  /** One call of `sync_table` for a table: from slice `a` to slice `b`, by the scan `out`. */
  ghost predicate IsSync(f: TableFile, wm: nat, snap: Option<Snapshot>, fate: Fate, a: Slice, b: Slice,
      out: ScanOutput, stats: Option<Stats>) {
    var c0 := CacheOf(f, snap, a);
    match Refreshed(f, c0)
    case None => b == a.(cache := Some(c0)) && stats == Some(Stats(0, 0, 0, wm, 0))
    case Some((c, refreshed)) =>
      c.schema.Valid() && IsScan(View(f.db, c.schema, wm), a.gens, c.prev, c.dataPages, out) &&
      IsAdvance(c, refreshed, fate, a, b, out, stats)
  }

  lemma RefreshKeeps(f: TableFile, c: Cache)
    ensures Refreshed(f, c).Some? ==>
              Refreshed(f, c).value.0.schema == c.schema && Refreshed(f, c).value.0.prev == c.prev
  {
  }

  /** The snapshot carried to the next cycle again holds encoded keys only. */
  lemma AdvanceKeepsKeys(f: TableFile, wm: nat, gens: Gens, c: Cache, out: ScanOutput, refreshed: bool)
    requires c.Valid() && IsScan(View(f.db, c.schema, wm), gens, c.prev, c.dataPages, out)
    ensures c.(prev := NextPrev(c, out, refreshed)).Valid()
  {
    hide IsScan, KeysOnly, Schema.Valid;
    var v, live := View(f.db, c.schema, wm), set p | p in c.dataPages;
    SnapshotsStayKeys(v, gens, c.prev, c.dataPages, out, live);
    var after := c.prev + out.newPks;
    assert Retained(after, c.dataPages) == map p | p in after && p in live :: after[p];
    if c.schema.pkByteLen == 0 { NoStrideNoKeys(Retained(c.prev, c.dataPages), |c.schema.pk|); }
  }

  lemma NoStrideNoKeys(m: Snapshot, n: nat)
    ensures KeysOnly(m, 0, n)
  {
  }

  /** Every cached snapshot stays well formed over a cycle. */
  lemma SyncKeepsValid(f: TableFile, wm: nat, snap: Option<Snapshot>, fate: Fate, a: Slice, b: Slice, out: ScanOutput,
      stats: Option<Stats>)
    requires IsSync(f, wm, snap, fate, a, b, out, stats) && CacheOf(f, snap, a).Valid()
    ensures b.cache.Some? && b.cache.value.Valid() && b.cache.value.schema == CacheOf(f, snap, a).schema
  {
    hide IsScan, KeysOnly, Schema.Valid, DeltaApplied, NextGens, NextPrev;
    var c0 := CacheOf(f, snap, a);
    RefreshKeeps(f, c0);
    if Refreshed(f, c0).Some? {
      var (c, refreshed) := Refreshed(f, c0).value;
      AdvanceKeepsKeys(f, wm, a.gens, c, out, refreshed);
    }
  }

  /**
   A cycle without statistics had a delta that PostgreSQL refused, that broke, or whose
   commit was not answered. It leaves the generations and the snapshot as they were, and the
   replica table too unless the commit took effect.
   */
  lemma FailureChangesNothing(f: TableFile, wm: nat, snap: Option<Snapshot>, fate: Fate, a: Slice, b: Slice,
      out: ScanOutput)
    requires IsSync(f, wm, snap, fate, a, b, out, None)
    ensures b.gens == a.gens && b.cache.Some? && b.cache.value.prev == CacheOf(f, snap, a).prev
    ensures var after := DeltaApplied(a.table, b.cache.value.schema, out);
            HasDelta(out) && (!fate.Works? || after == None) &&
            b.table == if fate.Unanswered? && after.Some? then after.value else a.table
  {
    hide IsScan, DeltaApplied;
    RefreshKeeps(f, CacheOf(f, snap, a));
  }

  /** What a map keeps when only listed pages are kept, or all of them. */
  ghost predicate Remains<T>(m: map<int, T>, after: map<int, T>, listedOnly: bool, pages: seq<int>) {
    (forall p :: p in after <==> p in m && (listedOnly ==> p in pages)) && forall p :: p in after ==> after[p] == m[p]
  }

  /** The list was read in this cycle: no pointer page was known, or its generation moved. */
  predicate ReadAnew(f: TableFile, cache: Option<Cache>, pp: int) {
    cache.None? || cache.value.firstPp.None? || cache.value.ppGen != Generation(f.db.Page(pp))
  }

  /** The pointer page a cycle goes by: the one it knows, or else the file's first. */
  function PointerPage(f: TableFile, cache: Option<Cache>): Option<int> {
    if cache.Some? && cache.value.firstPp.Some? then cache.value.firstPp else f.firstPp
  }

  /**
   Which pages a cycle looks at and what it keeps of the others. The list is read when the
   table is first met, when its first pointer page appears, and whenever that page's
   generation moved. A cached table whose list was read anew forgets, once the delta is
   applied, every page that is not on it; in all other cases nothing is forgotten. The new
   list and the pointer page's generation are cached even if the delta fails.
   */
  lemma SyncReadsList(f: TableFile, wm: nat, snap: Option<Snapshot>, fate: Fate, a: Slice, b: Slice, out: ScanOutput,
      stats: Option<Stats>)
    requires IsSync(f, wm, snap, fate, a, b, out, stats) && PointerPage(f, a.cache).Some?
    ensures b.cache.Some?
    ensures var pp, c := PointerPage(f, a.cache).value, b.cache.value;
            var schema := if a.cache.Some? then a.cache.value.schema else f.schema;
            var prev := if a.cache.Some? then a.cache.value.prev
                        else if snap.Some? && f.schema.pkByteLen > 0 then snap.value else map[];
            var anew := ReadAnew(f, a.cache, pp);
            var pages := if anew then f.DataPagesFor(pp) else a.cache.value.dataPages;
            c == Cache(schema, Some(pp), Generation(f.db.Page(pp)), pages, c.prev) &&
            schema.Valid() && IsScan(View(f.db, schema, wm), a.gens, prev, pages, out) &&
            (stats.Some? ==>
              stats.value.upserts == out.upserts && stats.value.deletes == out.deletes &&
              stats.value.expressDeletes == |out.expressKeys| && stats.value.maxTxn == out.maxTxn &&
              stats.value.pagesScanned == out.pagesTotal - out.pagesSkipped &&
              Remains(a.gens + out.newGens, b.gens, anew && a.cache.Some?, pages) &&
              Remains(if schema.pkByteLen > 0 then prev + out.newPks else prev, c.prev, anew && a.cache.Some?, pages))
  {
    hide IsScan, DeltaApplied, Schema.Valid, Landed, Succeeds, NextGens, NextPrev, Remains, Generation;
    var c0 := CacheOf(f, snap, a);
    var (c, refreshed) := Refreshed(f, c0).value;
    SkippedAreSome(View(f.db, c.schema, wm), a.gens, c.prev, c.dataPages, out);
    NextKeeps(a.gens, c, out, refreshed);
  }

  /**
   A cycle over a page list succeeds if and only if its delta, if it has one, is accepted and
   answered. The replica takes the delta's effect whenever it is accepted and the commit went
   through, answered or not, and is otherwise as it was.
   */
  lemma SyncSucceedsIff(f: TableFile, wm: nat, snap: Option<Snapshot>, fate: Fate, a: Slice, b: Slice,
      out: ScanOutput, stats: Option<Stats>)
    requires IsSync(f, wm, snap, fate, a, b, out, stats) && PointerPage(f, a.cache).Some?
    ensures var schema := if a.cache.Some? then a.cache.value.schema else f.schema;
            var delta, after := out.upserts + out.deletes > 0, DeltaApplied(a.table, schema, out);
            (stats.Some? <==> !delta || (after.Some? && fate == Works)) &&
            b.table == if delta && after.Some? && fate != Breaks then after.value else a.table
    ensures stats.None? ==> b.gens == a.gens && b.cache.Some? && b.cache.value.prev == CacheOf(f, snap, a).prev
  {
    hide IsScan, DeltaApplied, Schema.Valid, NextGens, NextPrev, Generation;
  }

  lemma SkippedAreSome(v: View, gens: Gens, prev: Snapshot, pages: seq<int>, out: ScanOutput)
    requires v.schema.Valid() && IsScan(v, gens, prev, pages, out)
    ensures out.pagesSkipped <= out.pagesTotal
  {
    hide PagesFound, AreNewSnapshots, IsExpress, Schema.Valid, NewGens;
    SomeScannedIffSomeNew(v.db, gens, pages);
  }

  lemma NextKeeps(gens: Gens, c: Cache, out: ScanOutput, refreshed: bool)
    ensures Remains(gens + out.newGens, NextGens(gens, c, out, refreshed), refreshed, c.dataPages)
    ensures Remains(if c.schema.pkByteLen > 0 then c.prev + out.newPks else c.prev, NextPrev(c, out, refreshed),
                    refreshed, c.dataPages)
  {
  }

  /** A table without a pointer page is not scanned and keeps what it has. */
  lemma SyncWithoutList(f: TableFile, wm: nat, snap: Option<Snapshot>, fate: Fate, a: Slice, b: Slice,
      out: ScanOutput, stats: Option<Stats>)
    requires IsSync(f, wm, snap, fate, a, b, out, stats) && PointerPage(f, a.cache).None?
    ensures stats == Some(Stats(0, 0, 0, wm, 0)) && b.gens == a.gens && b.table == a.table && b.cache.Some?
    ensures if a.cache.Some? then b.cache == a.cache
            else b.cache.value == Cache(f.schema, None, 0, [], if snap.Some? && f.schema.pkByteLen > 0 then snap.value
                                                               else map[])
  {
    hide IsScan, IsAdvance;
  }

  lemma NewGensDiffer(db: Db, gens: Gens, pages: seq<int>)
    ensures forall p :: p in NewGens(db, gens, pages) ==>
              p in pages && (p in gens ==> NewGens(db, gens, pages)[p] != gens[p])
  {
    hide Generation, Visited;
  }

  lemma SomeScanned(v: View, gens: Gens, prev: Snapshot, pages: seq<int>, out: ScanOutput)
    requires v.schema.Valid() && IsScan(v, gens, prev, pages, out)
    ensures PagesScanned(out) > 0 <==> exists p :: p in out.newGens
    ensures forall p :: p in out.newGens ==> p in pages && (p in gens ==> out.newGens[p] != gens[p])
  {
    hide PagesFound, AreNewSnapshots, IsExpress, Schema.Valid, NewGens;
    SomeScannedIffSomeNew(v.db, gens, pages);
    NewGensDiffer(v.db, gens, pages);
    if forall p :: p !in out.newGens { assert out.newGens == map[]; }
  }

  /** Pages count as scanned if and only if some page has a generation that was not recorded. */
  lemma ScannedIffMoved(f: TableFile, wm: nat, snap: Option<Snapshot>, fate: Fate, a: Slice, b: Slice, out: ScanOutput,
      stats: Stats)
    requires IsSync(f, wm, snap, fate, a, b, out, Some(stats))
    ensures stats.pagesScanned > 0 <==> exists p :: p in b.gens && (p in a.gens ==> b.gens[p] != a.gens[p])
  {
    hide IsScan, DeltaApplied, Schema.Valid, Landed, PagesScanned, NextGens, NextPrev;
    var c0 := CacheOf(f, snap, a);
    if Refreshed(f, c0).Some? {
      var (c, refreshed) := Refreshed(f, c0).value;
      NextKeeps(a.gens, c, out, refreshed);
      SomeScanned(View(f.db, c.schema, wm), a.gens, c.prev, c.dataPages, out);
    }
  }

  lemma CacheWhole(c: Cache)
    requires c.Valid()
    ensures c.schema.Valid() && (c.schema.pkByteLen > 0 ==> WholeFlats(c.prev, c.schema.pkByteLen))
  {
  }

  lemma RefreshValid(f: TableFile, c: Cache)
    requires c.Valid() && Refreshed(f, c).Some?
    ensures Refreshed(f, c).value.0.Valid()
  {
    hide KeysOnly, Schema.Valid;
    RefreshKeeps(f, c);
  }

  ghost const NO_SCAN := ScanOutput([], [], 0, 0, [], 0, map[], map[], 0, 0, 0)

  /** The watermark a cycle reports is never below the one it started from. */
  lemma WatermarkRises(f: TableFile, wm: nat, snap: Option<Snapshot>, fate: Fate, a: Slice, b: Slice, out: ScanOutput,
      stats: Option<Stats>)
    requires IsSync(f, wm, snap, fate, a, b, out, stats) && stats.Some?
    ensures stats.value.maxTxn >= wm
    ensures stats.value.maxTxn > wm ==> stats.value.maxTxn == out.maxTxn
  {
    hide DeltaApplied, NextGens, NextPrev, Refreshed, NewCache, Schema.Valid, PagesFound, AreNewSnapshots, IsExpress,
         NewGens;
  }

  /**
   One table's cycle. The caller's generations and cache go in and come out; no statistics
   come back when the delta is not known to be applied, and then only the cache's page list
   and, if the commit took effect, the table may have changed.
   */
  method SyncTable(f: TableFile, sink: Database, name: Name, lastTxn: nat, gens: Gens, cache: Option<Cache>,
                   snap: Option<Snapshot>, fate: Fate)
    returns (gens': Gens, cache': Option<Cache>, stats: Option<Stats>, ghost out: ScanOutput)
    requires name in sink.tables && CacheOf(f, snap, Slice(gens, cache, sink.tables[name])).Valid()
    modifies sink
    ensures name in sink.tables && sink.tables == old(sink.tables)[name := sink.tables[name]]
    ensures IsSync(f, lastTxn, snap, fate, Slice(gens, cache, old(sink.tables)[name]),
                   Slice(gens', cache', sink.tables[name]), out, stats)
  {
    hide IsScan, KeysOnly, Schema.Valid, NextGens, NextPrev, Applied, WholeFlats, Refreshed, NewCache;
    var c0 := if cache.Some? then cache.value else NewCache(f, snap);
    gens', cache', out := gens, Some(c0), NO_SCAN;
    var r := Refreshed(f, c0);
    if r == None {
      stats := Some(Stats(0, 0, 0, lastTxn, 0));
      return;
    }
    var (c, refreshed) := r.value;
    RefreshValid(f, c0);
    CacheWhole(c);
    cache' := Some(c);
    var scan := ScanChangesInto(View(f.db, c.schema, lastTxn), gens, c.prev, c.dataPages);
    out := scan;
    if HasDelta(scan) {
      var ok := sink.ApplyDelta(name, MetaOf(c.schema), scan.upsertBuf, scan.deleteBuf, scan.upserts, scan.deletes,
                                fate);
      if !ok {
        stats := None;
        return;
      }
    }
    gens' := NextGens(gens, c, scan, refreshed);
    cache' := Some(c.(prev := NextPrev(c, scan, refreshed)));
    stats := Some(Stats(scan.upserts, scan.deletes, |scan.expressKeys|, scan.maxTxn, PagesScanned(scan)));
  }
}
