/** Tables whose keys are too wide to be sorted: which keys the snapshot comparison deletes. */
module WideKeys {
  import opened Bytes
  import opened Fields
  import opened Keys
  import opened Ods
  import opened Changes
  import opened RecordScan
  import opened ChunkRows
  import opened FlatPk
  import opened Express
  import opened Scan
  import opened ScanFacts
  import opened Replica
  import opened Live
  import opened OneCycle
  import PgCopy

  /**
   For a table of one page with keys too wide to be sorted, a key is express-deleted if and
   only if it stood on the page and the search misses it among the keys the page has now, in
   the order of their slots.
   */
  lemma WideKeyExpressed(v: View, gens: Gens, prev: Snapshot, p: int, out: ScanOutput, k: Bytes)
    requires v.schema.Valid() && v.schema.pkByteLen > 64 && IsScan(v, gens, prev, [p], out)
    requires Rescanned(v.db, gens, [p], p) && prev.Keys == {p}
    ensures p in prev
    ensures k in out.expressKeys <==>
            InFlat(prev[p], v.schema.pkByteLen, k) &&
            !Searched(Join(PageFound(v, gens, false, p).keys), v.schema.pkByteLen, k)
  {
    hide PagesFound, PageFound, AreNewSnapshots, NewGens, InFlat, Searched, IsAliveList, Rescanned, PgCopy.Stream,
         Opened, KeyTuples, Stride, Desc.Usable, Join, Vanished;
    var stride, news := v.schema.pkByteLen, out.newPks;
    assert p in prev;
    OnlyNewPage(v, gens, p, news);
    var alive :| Swept(prev, news, stride, alive, out.expressKeys);
    OnePageAlive(prev, news, alive, p);
    assert OnPages(prev, news.Keys, stride, k) <==> InFlat(prev[p], stride, k);
  }

  lemma OnlyNewPage(v: View, gens: Gens, p: int, news: Snapshot)
    requires v.schema.Valid() && v.schema.pkByteLen > 64 && AreNewSnapshots(v, gens, false, [p], news)
    requires Rescanned(v.db, gens, [p], p)
    ensures news.Keys == {p} && news[p] == Join(PageFound(v, gens, false, p).keys)
  {
    hide PageFound, Stride, Desc.Usable, Join, Visited, Changed, Chunks;
    RebuiltIsRescanned(v, gens, [p], p);
    assert forall q :: q in news <==> q == p;
  }

  /**
   So a live row is deleted and not brought back: the page has two keys in falling order,
   the first stood there before, and its row is not written again.
   */
  lemma LiveKeyDeletedBeyond64(v: View, gens: Gens, prev: Snapshot, p: int, out: ScanOutput, t: Table, t': Table,
      k: Row, low: Bytes)
    requires IsCycle(v, gens, prev, [p], out, t, t') && v.schema.pkByteLen > 64
    requires Rescanned(v.db, gens, [p], p) && prev.Keys == {p}
    requires PageFound(v, gens, false, p).keys == [EncodeFields(k), low] && Less(low, EncodeFields(k))
    requires p in prev && InFlat(prev[p], v.schema.pkByteLen, EncodeFields(k))
    requires k in t && !Writes(v, gens, [p], k)
    ensures PageKey(v.schema, v.db.Page(p), EncodeFields(k)) && k !in t'
  {
    hide IsCycle, PageFound, Written, Filed, EncodeFields, InFlat, Searched, Stride, Desc.Usable, Rescanned, IsScan,
         Less, Join, Tracking;
    CycleIsScan(v, gens, prev, [p], out, t, t');
    var kb, keys := EncodeFields(k), PageFound(v, gens, false, p).keys;
    CycleOutcome(v, gens, prev, [p], out, t, t', k);
    WideKeyExpressed(v, gens, prev, p, out, kb);
    PageKeys(v, gens, false, p);
    assert |keys[0]| == v.schema.pkByteLen && |keys[1]| == v.schema.pkByteLen;
    JoinOfTwo(kb, low);
    NeverBelowItself(low);
    MissedWhenUnsorted(kb, low, v.schema.pkByteLen);
    OnThePage(v, gens, p, kb);
  }

  lemma JoinOfTwo(a: Bytes, b: Bytes)
    ensures Join([a, b]) == a + b
  {
    assert [a, b][1..] == [b] && [b][1..] == [];
    assert Join([b]) == b + Join([]) == b;
  }

  lemma {:induction false} NeverBelowItself(b: Bytes)
    ensures !Less(b, b)
  {
    if b != [] { NeverBelowItself(b[1..]); }
  }

  lemma OnThePage(v: View, gens: Gens, p: int, k: Bytes)
    requires v.schema.Valid() && Rescanned(v.db, gens, [p], p) && k in PageFound(v, gens, false, p).keys
    ensures PageKey(v.schema, v.db.Page(p), k)
  {
    hide PageFound, OnPage, SnapshotKey, RecordTransaction, Stride, Desc.Usable, Changed, Visited;
    PageFoundIs(v, gens, false, p);
  }
}
