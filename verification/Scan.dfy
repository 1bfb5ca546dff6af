/**
 The scan of a table's data pages: changed rows, stubbed keys, new page generations and
 snapshots, and the express deletes.
 */
module Scan {
  import opened Bytes
  import opened Keys
  import opened Ods
  import opened Changes
  import opened RecordScan
  import opened ChunkRows
  import opened FlatPk
  import opened Express
  import PgCopy

  type Gens = map<int, int>

  // ── What a scan finds ──

  /** Only data pages are looked at. */
  predicate Visited(db: Db, p: int) {
    IsDataPage(db.Page(p))
  }

  /** The recorded generation is not the page's. */
  predicate Changed(db: Db, gens: Gens, p: int) {
    !(p in gens && gens[p] == Generation(db.Page(p)))
  }

  /** With fixed-length keys and no snapshot yet, every page's snapshot is built. */
  predicate FirstCycle(schema: Schema, prev: Snapshot) {
    schema.pkByteLen > 0 && prev == map[]
  }

  function LookAt(v: View, gens: Gens, first: bool, p: int): Look {
    var changed := Changed(v.db, gens, p);
    Look(changed, v.schema.pkByteLen > 0 && (changed || first))
  }

  /** What the first `n` slots of a page contribute. */
  function SlotsFound(v: View, look: Look, page: Bytes, n: nat): Found
    requires v.schema.Valid()
  {
    if n == 0 then NOTHING else
    match SlotBytes(page, n - 1)
    case None => SlotsFound(v, look, page, n - 1)
    case Some(raw) => SlotsFound(v, look, page, n - 1).Add(Effect(v, look, raw))
  }

  function PageFound(v: View, gens: Gens, first: bool, p: int): Found
    requires v.schema.Valid()
  {
    var page := v.db.Page(p);
    if Visited(v.db, p) then SlotsFound(v, LookAt(v, gens, first, p), page, SlotCount(page)) else NOTHING
  }

  /** The rows, the stub keys and the highest transaction of a list of pages. */
  function PagesFound(v: View, gens: Gens, first: bool, pages: seq<int>): Found
    requires v.schema.Valid()
  {
    if pages == [] then NOTHING else
    var n := |pages| - 1;
    PagesFound(v, gens, first, pages[..n]).Add(PageFound(v, gens, first, pages[n]).(keys := []))
  }

  function NewGens(db: Db, gens: Gens, pages: seq<int>): Gens {
    map p | p in pages && Visited(db, p) && Changed(db, gens, p) :: Generation(db.Page(p))
  }

  /** The listed pages that are data pages, in order. */
  function DataPages(db: Db, pages: seq<int>): (found: seq<int>)
    ensures forall p :: p in found <==> p in pages && Visited(db, p)
  {
    if pages == [] then [] else
    var n := |pages| - 1;
    assert pages == pages[..n] + [pages[n]];
    DataPages(db, pages[..n]) + if Visited(db, pages[n]) then [pages[n]] else []
  }

  /** Those of them whose recorded generation is current. */
  function SkippedPages(db: Db, gens: Gens, pages: seq<int>): (found: seq<int>)
    ensures forall p :: p in found <==> p in pages && Visited(db, p) && !Changed(db, gens, p)
  {
    if pages == [] then [] else
    var n := |pages| - 1;
    assert pages == pages[..n] + [pages[n]];
    SkippedPages(db, gens, pages[..n]) +
    if Visited(db, pages[n]) && !Changed(db, gens, pages[n]) then [pages[n]] else []
  }

  /** A page's new snapshot: its keys, sorted and deduplicated. */
  ghost predicate IsPageSnapshot(v: View, gens: Gens, first: bool, p: int, flat: Bytes)
    requires v.schema.Valid()
  {
    SortDedupResult(Join(PageFound(v, gens, first, p).keys), v.schema.pkByteLen, flat)
  }

  predicate Rebuilt(v: View, gens: Gens, first: bool, p: int) {
    Visited(v.db, p) && LookAt(v, gens, first, p).rebuild
  }

  ghost predicate AreNewSnapshots(v: View, gens: Gens, first: bool, pages: seq<int>, news: Snapshot)
    requires v.schema.Valid()
  {
    (forall p :: p in news <==> p in pages && Rebuilt(v, gens, first, p)) &&
    forall p :: p in news ==> IsPageSnapshot(v, gens, first, p, news[p])
  }

  ghost predicate IsExpress(stride: nat, first: bool, prev: Snapshot, news: Snapshot, keys: seq<Bytes>) {
    if stride == 0 || first || news == map[] then keys == [] else
    (forall i, j :: 0 <= i < j < |keys| ==> keys[i] != keys[j]) &&
    (stride <= 64 ==> forall k :: k in keys <==> Vanished(prev, news, stride, k)) &&
    exists alive :: Swept(prev, news, stride, alive, keys)
  }

  /** The result of a scan; `expressKeys` are the keys of the express deletes in the order written. */
  datatype ScanOutput = ScanOutput(
    upsertBuf: Bytes, deleteBuf: Bytes, upserts: nat, deletes: nat, expressKeys: seq<Bytes>,
    maxTxn: nat, newGens: Gens, newPks: Snapshot, pagesTotal: nat, pagesSkipped: nat, recordsChecked: nat)

  ghost predicate IsScan(v: View, gens: Gens, prev: Snapshot, pages: seq<int>, out: ScanOutput)
    requires v.schema.Valid()
  {
    var first := FirstCycle(v.schema, prev);
    var found := PagesFound(v, gens, first, pages);
    out.upsertBuf == PgCopy.Stream(found.upserts) && out.upserts == |found.upserts| &&
    out.deleteBuf == Opened(found.stubs) + KeyTuples(|v.schema.pk|, out.expressKeys) + PgCopy.Trailer() &&
    out.deletes == |found.stubs| + |out.expressKeys| &&
    out.maxTxn == Max(v.lastTxn, found.maxTxn) &&
    out.newGens == NewGens(v.db, gens, pages) &&
    AreNewSnapshots(v, gens, first, pages, out.newPks) &&
    IsExpress(v.schema.pkByteLen, first, prev, out.newPks, out.expressKeys) &&
    out.pagesTotal == |DataPages(v.db, pages)| && out.pagesSkipped == |SkippedPages(v.db, gens, pages)| &&
    out.recordsChecked == found.checked
  }

  // ── The keys of a page ──

  lemma EffectKeys(v: View, look: Look, raw: Bytes)
    requires v.schema.Valid()
    ensures Uniform(Effect(v, look, raw).keys, v.schema.pkByteLen)
  {
    hide Has, RecordCdc, RecordRow, RecordKey, StubKey, Stride, RecordTransaction;
  }

  lemma {:induction false} SlotKeys(v: View, look: Look, page: Bytes, n: nat)
    requires v.schema.Valid()
    ensures Uniform(SlotsFound(v, look, page, n).keys, v.schema.pkByteLen)
  {
    hide Effect, SlotBytes, Stride;
    if n > 0 {
      SlotKeys(v, look, page, n - 1);
      if SlotBytes(page, n - 1).Some? { EffectKeys(v, look, SlotBytes(page, n - 1).value); }
    }
  }

  lemma WholeAppend(a: Bytes, b: Bytes, stride: nat)
    requires stride > 0 && |a| == stride && |b| % stride == 0
    ensures |a + b| % stride == 0
  {
    hide InFlat;
    RowsAppend(a, b, stride, []);
  }

  lemma {:induction false} ChunksOfJoin(keys: seq<Bytes>, stride: nat)
    requires stride > 0 && Uniform(keys, stride)
    ensures Chunks(Join(keys), stride) == keys && |Join(keys)| % stride == 0
  {
    if keys != [] {
      var rest := Join(keys[1..]);
      ChunksOfJoin(keys[1..], stride);
      ConcatSplits(keys[0], rest);
      assert keys == [keys[0]] + keys[1..];
      WholeAppend(keys[0], rest, stride);
    }
  }

  lemma PageKeys(v: View, gens: Gens, first: bool, p: int)
    requires v.schema.Valid()
    ensures Uniform(PageFound(v, gens, first, p).keys, v.schema.pkByteLen)
  {
    hide SlotsFound, Stride;
    var page := v.db.Page(p);
    SlotKeys(v, LookAt(v, gens, first, p), page, SlotCount(page));
  }

  /** A page's new snapshot consists of whole keys. */
  lemma SnapshotWhole(v: View, gens: Gens, first: bool, p: int, flat: Bytes)
    requires v.schema.Valid() && v.schema.pkByteLen > 0 && IsPageSnapshot(v, gens, first, p, flat)
    ensures |flat| % v.schema.pkByteLen == 0
    ensures forall k :: InFlat(flat, v.schema.pkByteLen, k) <==> k in PageFound(v, gens, first, p).keys
  {
    hide PageFound, Chunks, StrictlyAscending, Stride, Join;
    var keys, stride := PageFound(v, gens, first, p).keys, v.schema.pkByteLen;
    PageKeys(v, gens, first, p);
    ChunksOfJoin(keys, stride);
    if stride <= 64 {
      SortedWhole(flat, stride, Chunks(Join(keys), stride));
    }
  }

  lemma SortedWhole(flat: Bytes, stride: nat, input: seq<Bytes>)
    requires stride > 0 && SortedSetOf(flat, stride, input)
    ensures |flat| % stride == 0 && forall k :: InFlat(flat, stride, k) <==> k in input
  {
    hide Chunks, StrictlyAscending;
    Arith.DivModUnique(|flat|, stride, |Chunks(flat, stride)|, 0);
  }

  // ── The loops ──

  lemma AddAssociates(a: Found, b: Found, c: Found)
    ensures a.Add(b).Add(c) == a.Add(b.Add(c))
  {
    ConcatAssociates(a.keys, b.keys, c.keys);
    ConcatAssociates(a.upserts, b.upserts, c.upserts);
    ConcatAssociates(a.stubs, b.stubs, c.stubs);
  }

  lemma AddFromNothing(f: Found)
    ensures f.Add(NOTHING) == f
  {
  }

  /** The slots of one page. */
  method ScanPage(v: View, look: Look, page: Bytes, b: Buffers, ghost f: Found) returns (b': Buffers)
    requires v.schema.Valid() && Holds(b, v.lastTxn, f)
    ensures Holds(b', v.lastTxn, f.Add(SlotsFound(v, look, page, SlotCount(page))))
  {
    hide Holds, Effect, SlotBytes, Stride, SlotCount, Found.Add;
    b' := b;
    AddFromNothing(f);
    var cnt := SlotCount(page);
    for s := 0 to cnt
      invariant Holds(b', v.lastTxn, f.Add(SlotsFound(v, look, page, s)))
    {
      var slot := SlotBytes(page, s);
      ghost var sofar := SlotsFound(v, look, page, s);
      if slot.Some? {
        b' := ScanRecord(v, look, slot.value, b', f.Add(sofar));
        AddAssociates(f, sofar, Effect(v, look, slot.value));
      }
    }
  }

  lemma KeysReset(b: Buffers, lastTxn: nat, f: Found)
    requires Holds(b, lastTxn, f)
    ensures Holds(b.(pagePks := []), lastTxn, f.(keys := []))
  {
    hide Opened;
  }

  lemma AddWithoutKeys(f: Found, g: Found)
    requires f.keys == []
    ensures f.Add(g).(keys := []) == f.Add(g.(keys := [])) && f.Add(g).keys == g.keys
  {
  }

  /** One page, if it is a data page: its slots, its generation and its snapshot. */
  method ScanOne(v: View, gens: Gens, first: bool, p: int, b: Buffers, newGens: Gens, newPks: Snapshot, ghost f: Found)
    returns (b': Buffers, gens': Gens, pks': Snapshot)
    requires v.schema.Valid() && Visited(v.db, p) && Holds(b, v.lastTxn, f) && f.keys == []
    ensures Holds(b', v.lastTxn, f.Add(PageFound(v, gens, first, p).(keys := [])))
    ensures gens' == if Changed(v.db, gens, p) then newGens[p := Generation(v.db.Page(p))] else newGens
    ensures Rebuilt(v, gens, first, p) ==>
              p in pks' && IsPageSnapshot(v, gens, first, p, pks'[p]) && pks' == newPks[p := pks'[p]]
    ensures !Rebuilt(v, gens, first, p) ==> pks' == newPks
  {
    hide Holds, Stride, SlotCount, SlotsFound, Found.Add, SortDedupResult, Join;
    var page := v.db.Page(p);
    var changed := Changed(v.db, gens, p);
    gens', pks' := newGens, newPks;
    if changed { gens' := newGens[p := Generation(page)]; }
    var rebuild := v.schema.pkByteLen > 0 && (changed || first);
    ghost var g := PageFound(v, gens, first, p);
    b' := ScanPage(v, Look(changed, rebuild), page, b, f);
    AddWithoutKeys(f, g);
    if rebuild {
      PagePks(b', v.lastTxn, f.Add(g));
      PageKeys(v, gens, first, p);
      ChunksOfJoin(g.keys, v.schema.pkByteLen);
      var flat := SortedCopy(b'.pagePks, v.schema.pkByteLen);
      pks' := newPks[p := flat];
    }
    KeysReset(b', v.lastTxn, f.Add(g));
    b' := b'.(pagePks := []);
  }

  lemma PagePks(b: Buffers, lastTxn: nat, f: Found)
    requires Holds(b, lastTxn, f)
    ensures b.pagePks == Join(f.keys)
  {
  }

  /** Pages so far: what they contributed is in the buffers and maps. */
  ghost predicate Scanned(v: View, gens: Gens, first: bool, pages: seq<int>, b: Buffers, newGens: Gens,
      newPks: Snapshot)
    requires v.schema.Valid()
  {
    Holds(b, v.lastTxn, PagesFound(v, gens, first, pages)) && newGens == NewGens(v.db, gens, pages) &&
    AreNewSnapshots(v, gens, first, pages, newPks)
  }

  lemma {:induction false} PagesFoundKeys(v: View, gens: Gens, first: bool, pages: seq<int>)
    requires v.schema.Valid()
    ensures PagesFound(v, gens, first, pages).keys == []
  {
    hide PageFound, Stride;
    if pages != [] { PagesFoundKeys(v, gens, first, pages[..|pages| - 1]); }
  }

  lemma OnePageScanned(v: View, gens: Gens, first: bool, pages: seq<int>, p: int)
    requires v.schema.Valid()
    ensures PagesFound(v, gens, first, pages + [p]) ==
            PagesFound(v, gens, first, pages).Add(PageFound(v, gens, first, p).(keys := []))
  {
    hide PageFound, Stride, Found.Add;
    assert (pages + [p])[..|pages|] == pages;
  }

  lemma NewGensGrow(db: Db, gens: Gens, pages: seq<int>, p: int)
    ensures NewGens(db, gens, pages + [p]) ==
            if Visited(db, p) && Changed(db, gens, p) then NewGens(db, gens, pages)[p := Generation(db.Page(p))]
            else NewGens(db, gens, pages)
  {
    hide Visited, Changed, Generation;
  }

  lemma PagesGrow(db: Db, gens: Gens, pages: seq<int>, p: int)
    ensures |DataPages(db, pages + [p])| == |DataPages(db, pages)| + if Visited(db, p) then 1 else 0
    ensures |SkippedPages(db, gens, pages + [p])| ==
            |SkippedPages(db, gens, pages)| + if Visited(db, p) && !Changed(db, gens, p) then 1 else 0
  {
    hide Visited, Changed;
    assert (pages + [p])[..|pages|] == pages;
  }

  /** Fewer pages are skipped than looked at exactly when some generation moved. */
  lemma {:induction false} SomeScannedIffSomeNew(db: Db, gens: Gens, pages: seq<int>)
    ensures |SkippedPages(db, gens, pages)| <= |DataPages(db, pages)|
    ensures |SkippedPages(db, gens, pages)| < |DataPages(db, pages)| <==> NewGens(db, gens, pages) != map[]
  {
    hide Visited, Changed, Generation, DataPages, SkippedPages, NewGens;
    if pages == [] {
      NoPagesNoGens(db, gens);
    } else {
      var init, p := pages[..|pages| - 1], pages[|pages| - 1];
      assert pages == init + [p];
      SomeScannedIffSomeNew(db, gens, init);
      PagesGrow(db, gens, init, p);
      NewGensGrow(db, gens, init, p);
      NotEmptied(NewGens(db, gens, init), p, Generation(db.Page(p)));
    }
  }

  lemma NoPagesNoGens(db: Db, gens: Gens)
    ensures DataPages(db, []) == [] && SkippedPages(db, gens, []) == [] && NewGens(db, gens, []) == map[]
  {
  }

  lemma NotEmptied(m: Gens, p: int, gen: int)
    ensures m[p := gen] != map[]
  {
    assert p in m[p := gen];
  }

  lemma SnapshotsGrow(v: View, gens: Gens, first: bool, pages: seq<int>, p: int, news: Snapshot, flat: Bytes)
    requires v.schema.Valid() && AreNewSnapshots(v, gens, first, pages, news)
    ensures Rebuilt(v, gens, first, p) && IsPageSnapshot(v, gens, first, p, flat) ==>
              AreNewSnapshots(v, gens, first, pages + [p], news[p := flat])
    ensures !Rebuilt(v, gens, first, p) ==> AreNewSnapshots(v, gens, first, pages + [p], news)
  {
    hide Rebuilt, IsPageSnapshot, Stride;
  }

  method ScanPages(v: View, gens: Gens, first: bool, pages: seq<int>, start: Buffers)
    returns (b: Buffers, newGens: Gens, newPks: Snapshot, total: nat, skipped: nat)
    requires v.schema.Valid() && Holds(start, v.lastTxn, NOTHING)
    ensures Scanned(v, gens, first, pages, b, newGens, newPks)
    ensures total == |DataPages(v.db, pages)| && skipped == |SkippedPages(v.db, gens, pages)|
  {
    hide Holds, Stride, PageFound, Visited, Changed, Generation, Found.Add, IsPageSnapshot;
    b, newGens, newPks, total, skipped := start, map[], map[], 0, 0;
    assert pages[..0] == [];
    for i := 0 to |pages|
      invariant Scanned(v, gens, first, pages[..i], b, newGens, newPks)
      invariant total == |DataPages(v.db, pages[..i])| && skipped == |SkippedPages(v.db, gens, pages[..i])|
    {
      var p := pages[i];
      ghost var done := pages[..i];
      assert pages[..i + 1] == done + [p];
      OnePageScanned(v, gens, first, done, p);
      NewGensGrow(v.db, gens, done, p);
      PagesGrow(v.db, gens, done, p);
      if Visited(v.db, p) {
        total := total + 1;
        if !Changed(v.db, gens, p) { skipped := skipped + 1; }
        PagesFoundKeys(v, gens, first, done);
        ghost var before := newPks;
        b, newGens, newPks := ScanOne(v, gens, first, p, b, newGens, newPks, PagesFound(v, gens, first, done));
        SnapshotsGrow(v, gens, first, done, p, before, if p in newPks then newPks[p] else []);
      } else {
        NothingVisited(v, gens, first, p);
        AddFromNothing(PagesFound(v, gens, first, done));
        SnapshotsGrow(v, gens, first, done, p, newPks, []);
      }
    }
    assert pages[..|pages|] == pages;
  }

  lemma NothingVisited(v: View, gens: Gens, first: bool, p: int)
    requires v.schema.Valid() && !Visited(v.db, p)
    ensures PageFound(v, gens, first, p).(keys := []) == NOTHING && !Rebuilt(v, gens, first, p)
  {
  }

  /** The whole scan: COPY headers, the pages, the express diff, COPY trailers. */
  method ScanChangesInto(v: View, gens: Gens, prev: Snapshot, pages: seq<int>) returns (out: ScanOutput)
    requires v.schema.Valid() && (v.schema.pkByteLen > 0 ==> WholeFlats(prev, v.schema.pkByteLen))
    ensures IsScan(v, gens, prev, pages, out)
  {
    hide Stride, PageFound, Visited, Changed, Generation, Found.Add, IsPageSnapshot, PagesFound, NewGens, HasKey,
         Vanished;
    var first := v.schema.pkByteLen > 0 && prev == map[];
    var header := PgCopy.Header();
    Untouched(header, v.lastTxn);
    var b, newGens, newPks, total, skipped :=
      ScanPages(v, gens, first, pages, Buffers(header, 0, header, 0, v.lastTxn, 0, []));
    var deleteBuf, expressKeys: seq<Bytes> := b.deleteBuf, [];
    if v.schema.pkByteLen > 0 && !first && newPks != map[] {
      NewSnapshotsWhole(v, gens, first, pages, newPks);
      deleteBuf, expressKeys := ExpressDeletes(prev, newPks, v.schema.pkByteLen, |v.schema.pk|, deleteBuf);
    } else {
      assert deleteBuf + [] == deleteBuf;
    }
    out := ScanOutput(b.upsertBuf + PgCopy.Trailer(), deleteBuf + PgCopy.Trailer(), b.upserts,
                      b.deletes + |expressKeys|, expressKeys, b.maxTxn, newGens, newPks, total, skipped, b.checked);
  }

  lemma Untouched(header: Bytes, lastTxn: nat)
    requires header == PgCopy.Header()
    ensures Holds(Buffers(header, 0, header, 0, lastTxn, 0, []), lastTxn, NOTHING)
  {
    hide PgCopy.Header;
    assert header + [] == header;
  }

  lemma NewSnapshotsWhole(v: View, gens: Gens, first: bool, pages: seq<int>, news: Snapshot)
    requires v.schema.Valid() && v.schema.pkByteLen > 0 && AreNewSnapshots(v, gens, first, pages, news)
    ensures WholeFlats(news, v.schema.pkByteLen)
  {
    hide Stride, IsPageSnapshot, Rebuilt, InFlat;
    forall p | p in news
      ensures |news[p]| % v.schema.pkByteLen == 0
    {
      SnapshotWhole(v, gens, first, p, news[p]);
    }
  }

  lemma NothingNew(prev: Snapshot, stride: nat)
    requires stride > 0
    ensures forall k :: !Vanished(prev, map[], stride, k)
  {
  }
}
