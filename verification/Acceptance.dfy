/** When PostgreSQL takes a scan's delta, and so when a turn is done, told from the file alone. */
module Acceptance {
  import opened Bytes
  import opened Fields
  import opened Keys
  import opened Ods
  import opened Changes
  import opened Express
  import opened Scan
  import opened ScanFacts
  import opened Replica
  import opened Sync
  import opened Watch
  import opened Live
  import opened OneCycle
  import opened Convergence
  import opened Runs
  import opened Places
  import opened ScanPlaces

  /** A place gives a row to upsert, with this key. */
  ghost predicate GivesKey(v: View, gens: Gens, pages: seq<int>, at: Place, k: Row)
    requires Tracking(v.schema)
  {
    var r := UpsertsAt(v, gens, pages)(at);
    r.Some? && |r.value| == |v.schema.slots| && KeyOfRow(r.value, v.schema.pk) == k
  }

  ghost predicate NoNullGiven(v: View, gens: Gens, pages: seq<int>)
    requires Tracking(v.schema)
  {
    forall at: Place, k :: GivesKey(v, gens, pages, at, k) ==> NoNull(k)
  }

  ghost predicate KeysApart(v: View, gens: Gens, pages: seq<int>)
    requires Tracking(v.schema)
  {
    forall at: Place, other: Place, k :: GivesKey(v, gens, pages, at, k) && GivesKey(v, gens, pages, other, k) ==>
      at == other
  }

  ghost predicate AllColumnsKey(schema: Schema) {
    forall c :: 0 <= c < |schema.slots| ==> Some(c) in schema.pk
  }

  /**
   No new record on a changed page has a null in its key, and no two of them have one key,
   which does no harm only if every column is in the key.
   */
  ghost predicate Acceptable(v: View, gens: Gens, pages: seq<int>)
    requires Tracking(v.schema)
  {
    NoNullGiven(v, gens, pages) && (AllColumnsKey(v.schema) || KeysApart(v, gens, pages))
  }

  lemma BeforeEnd(v: View, gens: Gens, pages: seq<int>, at: Place)
    ensures UpsertsAt(v, gens, pages)(at).Some? ==> at.Before(Place(|pages|, 0))
  {
    hide Changed, IsNew, ChangedRow, IsDataPage, SlotBytes, SlotCount;
  }

  /** The places a scan's upserts come from. */
  ghost predicate AreSources(v: View, gens: Gens, pages: seq<int>, ups: seq<Row>, at: seq<Place>) {
    |at| == |ups| && (forall j :: 0 <= j < |at| ==> UpsertsAt(v, gens, pages)(at[j]) == Some(ups[j])) &&
    forall p: Place :: UpsertsAt(v, gens, pages)(p).Some? ==> p in at
  }

  ghost predicate Distinct(at: seq<Place>) {
    forall i, j :: 0 <= i < j < |at| ==> at[i] != at[j]
  }

  lemma UpsertSources(v: View, gens: Gens, first: bool, pages: seq<int>) returns (at: seq<Place>)
    requires v.schema.Valid()
    ensures AreSources(v, gens, pages, PagesFound(v, gens, first, pages).upserts, at) && Distinct(at)
  {
    hide PagesFound, UpsertsAt, InOrder, Stride;
    var ups, f := PagesFound(v, gens, first, pages).upserts, UpsertsAt(v, gens, pages);
    ScanInOrder(v, gens, first, pages);
    at := Sources(f, Place(|pages|, 0), ups);
    forall p: Place
      ensures f(p).Some? ==> p in at
    {
      BeforeEnd(v, gens, pages, p);
    }
  }

  lemma NullsFromFile(v: View, gens: Gens, pages: seq<int>, ups: seq<Row>, at: seq<Place>)
    requires Tracking(v.schema) && Wide(ups, |v.schema.slots|) && AreSources(v, gens, pages, ups, at)
    ensures MetaOf(v.schema).Valid() && (HasNullKey(ups, MetaOf(v.schema)) <==> !NoNullGiven(v, gens, pages))
  {
    hide UpsertsAt, KeyOfRow, NoNull, Stride, Desc.Usable, Indexed;
    MetaIsValid(v.schema);
    if i :| 0 <= i < |ups| && !NoNull(KeyOfRow(ups[i], v.schema.pk)) {
      assert GivesKey(v, gens, pages, at[i], KeyOfRow(ups[i], v.schema.pk));
    }
    if p: Place, k :| GivesKey(v, gens, pages, p, k) && !NoNull(k) {
      var i :| 0 <= i < |at| && at[i] == p;
      assert ups[i] == UpsertsAt(v, gens, pages)(p).value;
    }
  }

  lemma RepeatsFromFile(v: View, gens: Gens, pages: seq<int>, ups: seq<Row>, at: seq<Place>)
    requires Tracking(v.schema) && Wide(ups, |v.schema.slots|) && AreSources(v, gens, pages, ups, at) && Distinct(at)
    ensures MetaOf(v.schema).Valid() && (RepeatsKey(ups, MetaOf(v.schema)) <==> !KeysApart(v, gens, pages))
  {
    hide UpsertsAt, KeyOfRow, NoNull, Stride, Desc.Usable, Indexed;
    MetaIsValid(v.schema);
    if i, j :| 0 <= i < j < |ups| && KeyOfRow(ups[i], v.schema.pk) == KeyOfRow(ups[j], v.schema.pk) {
      var k := KeyOfRow(ups[i], v.schema.pk);
      assert GivesKey(v, gens, pages, at[i], k) && GivesKey(v, gens, pages, at[j], k) && at[i] != at[j];
    }
    if p: Place, q: Place, k :| GivesKey(v, gens, pages, p, k) && GivesKey(v, gens, pages, q, k) && p != q {
      var i :| 0 <= i < |at| && at[i] == p;
      var j :| 0 <= j < |at| && at[j] == q;
      assert GivesKey(v, gens, pages, at[i], KeyOfRow(ups[i], v.schema.pk)) && i != j;
    }
  }

  lemma RejectedFromFile(v: View, gens: Gens, first: bool, pages: seq<int>)
    requires Tracking(v.schema) && Wide(PagesFound(v, gens, first, pages).upserts, |v.schema.slots|)
    ensures MetaOf(v.schema).Valid() &&
            (Rejected(PagesFound(v, gens, first, pages).upserts, MetaOf(v.schema)) <==> !Acceptable(v, gens, pages))
  {
    hide PagesFound, NoNullGiven, KeysApart, HasNullKey, RepeatsKey, AreSources, Distinct, Tracking;
    TrackedIsValid(v.schema);
    var ups := PagesFound(v, gens, first, pages).upserts;
    var at := UpsertSources(v, gens, first, pages);
    NullsFromFile(v, gens, pages, ups, at);
    RepeatsFromFile(v, gens, pages, ups, at);
  }

  /** PostgreSQL accepts a scan's delta if and only if the file's new records allow it. */
  lemma AcceptedFromFile(v: View, gens: Gens, prev: Snapshot, pages: seq<int>, out: ScanOutput, t: Table)
    requires Tracking(v.schema) && IsScan(v, gens, prev, pages, out) &&
             KeysOnly(prev, v.schema.pkByteLen, |v.schema.pk|)
    ensures DeltaApplied(t, v.schema, out).Some? <==> Acceptable(v, gens, pages)
  {
    hide PagesFound, KeyOfRow, Tracking, IsScan, Rejected, Acceptable, KeysOnly, DeltaApplied;
    AcceptedIff(v, gens, prev, pages, out, t);
    RejectedFromFile(v, gens, FirstCycle(v.schema, prev), pages);
  }

  // ── On a file whose new rows are current ──

  /** A slot of a listed page whose generation moved holds a new current version with this key. */
  ghost predicate NewLiveAt(v: View, gens: Gens, pages: seq<int>, p: int, s: nat, k: Row)
    requires Tracking(v.schema)
  {
    p in pages && Visited(v.db, p) && Changed(v.db, gens, p) && s < SlotCount(v.db.Page(p)) &&
    var r := SlotBytes(v.db.Page(p), s);
    r.Some? && IsNew(v, r.value) && exists row :: IsLive(v.schema, r.value, k, row)
  }

  /** No two slots do so for one key. */
  ghost predicate NewKeysApart(v: View, gens: Gens, pages: seq<int>)
    requires Tracking(v.schema)
  {
    forall p, s, q, u, k :: NewLiveAt(v, gens, pages, p, s, k) && NewLiveAt(v, gens, pages, q, u, k) ==>
      p == q && s == u
  }

  lemma NewLiveGivesKey(v: View, gens: Gens, pages: seq<int>, at: Place, k: Row)
    requires Tracking(v.schema) && NewRowsCurrent(v, gens, pages) && at.index < |pages|
    ensures NewLiveAt(v, gens, pages, pages[at.index], at.slot, k) <==> GivesKey(v, gens, pages, at, k)
  {
    hide LiveRow, ChangedRow, Changed, IsNew, KeyOfRow, Stride, Desc.Usable, SlotBytes, SlotCount, IsDataPage,
         Indexed;
    var p := pages[at.index];
    var r := RecordAt(v.db, pages, at);
    if r.Some? {
      assert Listed(v.db, pages, p, r.value);
      LiveIsChanged(v.schema, r.value);
      if GivesKey(v, gens, pages, at, k) { assert IsLive(v.schema, r.value, k, UpsertsAt(v, gens, pages)(at).value); }
    }
  }

  /**
   With pages listed once and new rows that are current, the delta is acceptable if and only
   if no new row has a null in its key and no two new records have one key.
   */
  lemma PromisingIsAcceptable(v: View, gens: Gens, pages: seq<int>)
    requires Tracking(v.schema) && NewRowsCurrent(v, gens, pages)
    requires forall i, j :: 0 <= i < j < |pages| ==> pages[i] != pages[j]
    ensures Acceptable(v, gens, pages) <==>
            (forall p, s, k :: NewLiveAt(v, gens, pages, p, s, k) ==> NoNull(k)) &&
            (AllColumnsKey(v.schema) || NewKeysApart(v, gens, pages))
  {
    hide NewLiveAt, GivesKey, NoNull, Tracking, NewRowsCurrent, AllColumnsKey;
    forall at: Place, k
      ensures GivesKey(v, gens, pages, at, k) ==> at.index < |pages|
      ensures at.index < |pages| ==>
                (NewLiveAt(v, gens, pages, pages[at.index], at.slot, k) <==> GivesKey(v, gens, pages, at, k))
    {
      KeyIsInside(v, gens, pages, at, k);
      if at.index < |pages| { NewLiveGivesKey(v, gens, pages, at, k); }
    }
    forall p, s, k | NewLiveAt(v, gens, pages, p, s, k)
      ensures exists at: Place :: at.index < |pages| && at.slot == s && pages[at.index] == p &&
                GivesKey(v, gens, pages, at, k)
    {
      NewLiveIsListed(v, gens, pages, p, s, k);
      var i :| 0 <= i < |pages| && pages[i] == p;
      assert GivesKey(v, gens, pages, Place(i, s), k);
    }
  }

  lemma KeyIsInside(v: View, gens: Gens, pages: seq<int>, at: Place, k: Row)
    requires Tracking(v.schema)
    ensures GivesKey(v, gens, pages, at, k) ==> at.index < |pages|
  {
    hide UpsertsAt, KeyOfRow, Stride, Desc.Usable;
    BeforeEnd(v, gens, pages, at);
  }

  lemma NewLiveIsListed(v: View, gens: Gens, pages: seq<int>, p: int, s: nat, k: Row)
    requires Tracking(v.schema) && NewLiveAt(v, gens, pages, p, s, k)
    ensures p in pages
  {
  }

  // ── Turns ──

  lemma NothingIsAcceptable(v: View, gens: Gens, prev: Snapshot, pages: seq<int>, out: ScanOutput, t: Table)
    requires Tracking(v.schema) && IsScan(v, gens, prev, pages, out) && !HasDelta(out) &&
             KeysOnly(prev, v.schema.pkByteLen, |v.schema.pk|)
    ensures Acceptable(v, gens, pages)
  {
    hide PagesFound, KeyOfRow, Tracking, Acceptable, KeysOnly, DeltaApplied, NewGens, AreNewSnapshots, IsExpress;
    AcceptedIff(v, gens, prev, pages, out, t);
    RejectedFromFile(v, gens, FirstCycle(v.schema, prev), pages);
  }

  lemma NoPagesAcceptable(v: View, gens: Gens)
    requires Tracking(v.schema)
    ensures Acceptable(v, gens, [])
  {
    hide UpsertsAt, KeyOfRow, Tracking, NoNull, AllColumnsKey;
    forall at: Place, k
      ensures !GivesKey(v, gens, [], at, k)
    {
      KeyIsInside(v, gens, [], at, k);
    }
  }

  /**
   A turn whose delta nothing in the world breaks is done if and only if PostgreSQL accepts
   what the file's new records give it.
   */
  lemma TurnIsDone(schema: Schema, n: Name, s: Between, e: TableEvent)
    requires AllSound(schema, s) && e.Turned? && IsMove(n, s, e) && OfSchema(schema, n, s, e) && e.fate.Works?
    requires (s.a.keyed || n in e.file.keyed) && (s.a.cache.Some? || n in e.file.readable)
    ensures Tracking(schema) && s.a.txn >= 0
    ensures e.turn.Done? <==>
            Acceptable(TurnView(schema, e.file.tables[n], s.a, e.global), s.a.gens, ListedPages(e.file.tables[n], s.a))
    ensures !e.turn.Done? ==> e.turn.Failed?
  {
    hide IsScan, Tracking, Schema.Valid, NextGens, NextPrev, DeltaApplied, NewCache, KeysOnly, Filed, Refreshed,
         Acceptable;
    var f := e.file.tables[n];
    TurnCache(schema, f, s.a);
    SameCache(f, s.a, s.t);
    var c0 := CacheOf(f, s.a.Snap(), Slice(s.a.gens, s.a.cache, map[]));
    RefreshKeeps(f, c0);
    var v, prev, pages := TurnView(schema, f, s.a, e.global), s.a.Prev(schema.pkByteLen), ListedPages(f, s.a);
    if Refreshed(f, c0).None? {
      NoPagesAcceptable(v, s.a.gens);
    } else {
      AcceptedFromFile(v, s.a.gens, prev, pages, e.out, s.t);
      if !HasDelta(e.out) { NothingIsAcceptable(v, s.a.gens, prev, pages, e.out, s.t); }
    }
  }

  /** A turn the world does not break, on a file that keeps its promises and whose new records are acceptable. */
  ghost predicate IsWorkingTurn(schema: Schema, n: Name, s: Between, e: TableEvent) {
    AllSound(schema, s) && e.Turned? && IsMove(n, s, e) && OfSchema(schema, n, s, e) && e.fate.Works? &&
    (s.a.keyed || n in e.file.keyed) && (s.a.cache.Some? || n in e.file.readable) &&
    var f := e.file.tables[n];
    var v, pages := TurnView(schema, f, s.a, e.global), ListedPages(f, s.a);
    Faithful(v, s.a.gens, pages, s.seen) && Acceptable(v, s.a.gens, pages)
  }

  /** Such a turn is done, and converges exactly when the live rows arrive and the vanished keys are caught. */
  lemma WorkingTurnConverges(schema: Schema, n: Name, s: Between, e: TableEvent)
    requires IsWorkingTurn(schema, n, s, e) && schema.pkByteLen <= 64
    requires Tracking(schema) && SnapshotOf(schema, s.a.Prev(schema.pkByteLen), s.seen)
    ensures s.a.txn >= 0 && e.turn.Done? && ConvergedIff(schema, e.file.tables[n], s, e.global, e.t')
  {
    hide AllSound, IsMove, OfSchema, Faithful, Acceptable, Tracking, SnapshotOf, ListedPages, ConvergedIff;
    SoundParts(schema, s);
    TurnIsDone(schema, n, s, e);
    DoneTurnConverges(schema, n, s, e);
  }

  /**
   The first such turn of a table copies it: over an empty replica, with no generation
   recorded and every live record above the watermark, the replica becomes the file's table.
   */
  lemma FirstTurnCopies(schema: Schema, n: Name, s: Between, e: TableEvent)
    requires IsWorkingTurn(schema, n, s, e) && schema.pkByteLen <= 64 && Tracking(schema) && s.a.txn >= 0
    requires s.t == map[] && s.a.gens == map[] && s.a.Prev(schema.pkByteLen) == map[]
    requires var f := e.file.tables[n];
             forall p, raw :: Listed(f.db, ListedPages(f, s.a), p, raw) && LiveRow(schema, raw).Some? ==>
               IsNew(TurnView(schema, f, s.a, e.global), raw)
    ensures e.turn.Done? && IsTable(schema, PagesOf(e.file.tables[n].db, ListedPages(e.file.tables[n], s.a)), e.t')
  {
    hide AllSound, IsTurn, OfSchema, Faithful, Acceptable, Tracking, ListedPages, PagesOf, LiveRow, IsNew, Listed,
         LiveIn, LiveKey, Generation;
    var f := e.file.tables[n];
    var v, pages := TurnView(schema, f, s.a, e.global), ListedPages(f, s.a);
    NoSnapshot(schema, s.seen);
    WorkingTurnConverges(schema, n, s, e);
    forall k, row | LiveIn(schema, PagesOf(f.db, pages), k, row)
      ensures Fresh(v, s.a.gens, pages, k, row)
    {
      var p, raw := LiveSource(v, pages, k, row);
    }
  }
}
