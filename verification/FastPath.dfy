/** The scan without its fast path, and the proof that skipping loses nothing but transactions. */
module FastPath {
  import opened Bytes
  import opened Ods
  import opened Changes
  import opened RecordScan
  import opened Express
  import opened Scan
  import ChunkRows
  import FlatPk
  import PgCopy

  /** What the first `n` slots contribute when no slot is skipped. */
  ghost function SlowSlots(v: View, look: Look, page: Bytes, n: nat): Found
    requires v.schema.Valid()
  {
    if n == 0 then NOTHING else
    match SlotBytes(page, n - 1)
    case None => SlowSlots(v, look, page, n - 1)
    case Some(raw) =>
      var before := SlowSlots(v, look, page, n - 1);
      if HasHeader(raw) then before.Add(SlowEffect(v, look, raw)) else before
  }

  ghost function SlowPage(v: View, gens: Gens, first: bool, p: int): Found
    requires v.schema.Valid()
  {
    var page := v.db.Page(p);
    if Visited(v.db, p) then SlowSlots(v, LookAt(v, gens, first, p), page, SlotCount(page)) else NOTHING
  }

  ghost function SlowPages(v: View, gens: Gens, first: bool, pages: seq<int>): Found
    requires v.schema.Valid()
  {
    if pages == [] then NOTHING else
    var n := |pages| - 1;
    SlowPages(v, gens, first, pages[..n]).Add(SlowPage(v, gens, first, pages[n]).(keys := []))
  }

  /** The same rows and keys, and no higher a transaction. */
  ghost predicate Refines(fast: Found, slow: Found) {
    fast.keys == slow.keys && fast.upserts == slow.upserts && fast.stubs == slow.stubs && fast.maxTxn <= slow.maxTxn &&
    fast.checked <= slow.checked
  }

  lemma {:induction false} SlotsRefine(v: View, look: Look, page: Bytes, n: nat)
    requires v.schema.Valid()
    ensures Refines(SlotsFound(v, look, page, n), SlowSlots(v, look, page, n))
  {
    hide Effect, SlowEffect, SlotBytes, Schema.Valid;
    if n > 0 {
      SlotsRefine(v, look, page, n - 1);
      if SlotBytes(page, n - 1).Some? {
        var raw := SlotBytes(page, n - 1).value;
        FastPathRefines(v, look, raw);
        if !HasHeader(raw) {
          NoHeaderNoEffect(v, look, raw);
          AddFromNothing(SlotsFound(v, look, page, n - 1));
        }
      }
    }
  }

  lemma NoHeaderNoEffect(v: View, look: Look, raw: Bytes)
    requires v.schema.Valid() && !HasHeader(raw)
    ensures Effect(v, look, raw) == NOTHING
  {
  }

  lemma {:induction false} PagesRefine(v: View, gens: Gens, first: bool, pages: seq<int>)
    requires v.schema.Valid()
    ensures Refines(PagesFound(v, gens, first, pages), SlowPages(v, gens, first, pages))
    ensures forall p :: p in pages ==> PageFound(v, gens, first, p).keys == SlowPage(v, gens, first, p).keys
  {
    hide SlotsFound, SlowSlots, Schema.Valid, SlotCount, Visited, LookAt;
    if pages != [] {
      var n := |pages| - 1;
      var p := pages[n];
      PagesRefine(v, gens, first, pages[..n]);
      SlotsRefine(v, LookAt(v, gens, first, p), v.db.Page(p), SlotCount(v.db.Page(p)));
      assert pages == pages[..n] + [p];
    }
  }

  /**
   For every file and state the fast path changes neither a row upserted, nor a key deleted,
   nor a page's snapshot; the watermark it reports is never higher than the plain scan's.
   */
  lemma FastScanRefines(v: View, gens: Gens, prev: Snapshot, pages: seq<int>, out: ScanOutput)
    requires v.schema.Valid() && IsScan(v, gens, prev, pages, out)
    ensures var slow := SlowPages(v, gens, FirstCycle(v.schema, prev), pages);
            out.upsertBuf == PgCopy.Stream(slow.upserts) && out.upserts == |slow.upserts| &&
            out.deleteBuf == Opened(slow.stubs) + KeyTuples(|v.schema.pk|, out.expressKeys) + PgCopy.Trailer() &&
            out.maxTxn <= Max(v.lastTxn, slow.maxTxn) && out.recordsChecked <= slow.checked
    ensures forall p :: p in out.newPks ==>
              FlatPk.SortDedupResult(ChunkRows.Join(SlowPage(v, gens, FirstCycle(v.schema, prev), p).keys),
                                     v.schema.pkByteLen, out.newPks[p])
  {
    hide PagesFound, SlowPages, PageFound, SlowPage, Schema.Valid, Rebuilt, PgCopy.Stream, Opened, IsExpress, NewGens,
         FlatPk.SortDedupResult, ChunkRows.Join;
    PagesRefine(v, gens, FirstCycle(v.schema, prev), pages);
  }
}
