/**
 Runs of one table, through failures, lost answers, saves, crashes and restarts: what is
 remembered stays true of the file, and when the replica is the file's table.
 */
module Runs {
  import opened Bytes
  import opened Fields
  import opened Keys
  import opened Ods
  import opened Changes
  import opened RecordScan
  import opened Express
  import opened Scan
  import opened ScanFacts
  import opened Replica
  import opened Sync
  import opened Watch
  import opened Live
  import opened OneCycle
  import opened Convergence

  // ── The next cycle remembers the pages just scanned ──

  lemma NextRecorded(v: View, gens: Gens, pages: seq<int>, next: Gens)
    requires forall p :: p in pages ==>
               (p in next <==> p in gens + NewGens(v.db, gens, pages)) &&
                 (p in next ==> next[p] == (gens + NewGens(v.db, gens, pages))[p])
    ensures Recorded(next, PagesOf(v.db, pages))
  {
    hide Visited, Generation;
  }

  /** Every record the scan left uncounted is on an unchanged page, where it was settled before. */
  lemma NextSettled(v: View, gens: Gens, prev: Snapshot, pages: seq<int>, out: ScanOutput, txn: int, seen: Pages)
    requires v.schema.Valid() && IsScan(v, gens, prev, pages, out)
    requires GenerationsTell(v.db, gens, pages, seen) && Settled(seen, txn) && txn <= v.lastTxn
    ensures Settled(PagesOf(v.db, pages), out.maxTxn)
  {
    hide Visited, Generation, OnPage, PagesFound, Stride, Desc.Usable, RecordTransaction, Has, AreNewSnapshots,
         IsExpress, NewGens;
    var first := FirstCycle(v.schema, prev);
    forall p, raw | p in PagesOf(v.db, pages) && OnPage(v.db.Page(p), raw) && RecordTransaction(raw).Some?
      ensures RecordTransaction(raw).value <= out.maxTxn
    {
      if Changed(v.db, gens, p) {
        NoHeaderNothing(v, raw);
        assert Listed(v.db, pages, p, raw) && Counted(v, gens, first, p, raw);
        WatermarkCovers(v, gens, first, pages, p, raw);
      } else {
        assert seen[p] == v.db.Page(p);
      }
    }
  }

  lemma NextSnapshot(v: View, gens: Gens, prev: Snapshot, pages: seq<int>, out: ScanOutput, seen: Pages, next: Snapshot)
    requires Tracking(v.schema) && v.schema.pkByteLen > 0
    requires GenerationsTell(v.db, gens, pages, seen) && SnapshotOf(v.schema, prev, seen)
    requires AreNewSnapshots(v, gens, FirstCycle(v.schema, prev), pages, out.newPks)
    requires forall p :: p in pages ==>
               (p in next <==> p in prev + out.newPks) && (p in next ==> next[p] == (prev + out.newPks)[p])
    ensures SnapshotOf(v.schema, next, PagesOf(v.db, pages))
  {
    hide Visited, Generation, InFlat, PageKey, Stride, Desc.Usable, IsPageSnapshot, Tracking;
    TrackedIsValid(v.schema);
    forall p | p in pages && Visited(v.db, p)
      ensures p in next && forall k :: InFlat(next[p], v.schema.pkByteLen, k) <==> PageKey(v.schema, v.db.Page(p), k)
    {
      if Rebuilt(v, gens, FirstCycle(v.schema, prev), p) {
        NewSnapshotIs(v, gens, FirstCycle(v.schema, prev), p, out.newPks[p]);
      } else {
        assert p in seen && p in prev && p !in out.newPks;
      }
    }
  }

  /**
   Advancing generations and watermark after a scan makes them those of the pages just
   scanned, and the snapshot too if it was one of the pages seen before. No word of the
   replica: this holds of a crashed run's restart too.
   */
  lemma RemembersNext(v: View, gens: Gens, c: Cache, out: ScanOutput, txn: int, seen: Pages, refreshed: bool)
    requires Tracking(v.schema) && v.schema == c.schema && c.Valid()
    requires IsScan(v, gens, c.prev, c.dataPages, out) && txn <= v.lastTxn
    requires Marks(v.schema, gens, txn, seen)
    requires GenerationsTell(v.db, gens, c.dataPages, seen) && PagesKeyed(v.schema, PagesOf(v.db, c.dataPages))
    ensures Marks(v.schema, NextGens(gens, c, out, refreshed), out.maxTxn, PagesOf(v.db, c.dataPages))
    ensures SnapshotOf(v.schema, c.prev, seen) ==>
              SnapshotOf(v.schema, NextPrev(c, out, refreshed), PagesOf(v.db, c.dataPages))
    ensures KeysOnly(NextPrev(c, out, refreshed), v.schema.pkByteLen, |v.schema.pk|)
  {
    hide Visited, OnPage, PagesFound, Stride, Desc.Usable, IsExpress, SnapshotOf, Recorded, Settled, PagesKeyed,
         KeysOnly, Tracking, GenerationsTell, AreNewSnapshots, NewGens, FirstCycle, Schema.Valid;
    var pages := c.dataPages;
    TrackedIsValid(v.schema);
    NextRecorded(v, gens, pages, NextGens(gens, c, out, refreshed));
    NextSettled(v, gens, c.prev, pages, out, txn, seen);
    if SnapshotOf(v.schema, c.prev, seen) {
      if v.schema.pkByteLen > 0 {
        NextSnapshot(v, gens, c.prev, pages, out, seen, NextPrev(c, out, refreshed));
      } else {
        NoStrideNoSnapshot(v.schema, c.prev, seen, PagesOf(v.db, pages));
        assert NextPrev(c, out, refreshed) == map[];
      }
    }
    CacheStaysValid(v, gens, c, out, refreshed);
  }

  lemma NoStrideNoSnapshot(schema: Schema, prev: Snapshot, seen: Pages, next: Pages)
    requires Tracking(schema) && schema.pkByteLen == 0 && SnapshotOf(schema, prev, seen)
    ensures prev == map[] && SnapshotOf(schema, map[], next)
  {
  }

  lemma CacheStaysValid(v: View, gens: Gens, c: Cache, out: ScanOutput, refreshed: bool)
    requires v.schema == c.schema && c.Valid() && IsScan(v, gens, c.prev, c.dataPages, out)
    ensures KeysOnly(NextPrev(c, out, refreshed), c.schema.pkByteLen, |c.schema.pk|)
  {
    hide IsScan, KeysOnly, Schema.Valid, NextPrev;
    AdvanceKeepsKeys(TableFile(v.db, v.schema, None, map[]), v.lastTxn, gens, c, out, refreshed);
  }

  // ── Events of one table ──

  /**
   A table between turns, in memory and on disk. `seen` is the contents of its pages at the
   last turn that was done, `savedSeen` that at the last save. `fits` and `whole` tell
   whether the snapshots in memory and on disk are those of these pages.
   */
  datatype Between = Between(
    a: Tracked, t: Table, seen: Pages, fits: bool, saved: Tracked, savedSeen: Pages, whole: bool)

  /** What can happen to it; `a'` and `t'` are the record and the rows a turn leaves. */
  datatype TableEvent =
    | Turned(file: File, global: nat, fate: Fate, turn: Turn, out: ScanOutput, a': Tracked, t': Table)
    | Stored(snapshots: bool)
    | Restarted(found: bool)
    | Remapped

  /** The pages a turn looks at. */
  function ListedPages(f: TableFile, a: Tracked): seq<int> {
    match Refreshed(f, CacheOf(f, a.Snap(), Slice(a.gens, a.cache, map[])))
    case None => []
    case Some((c, _)) => c.dataPages
  }

  /**
   A turn looks at the file's present page list if and only if the list was never read, the
   pointer page's generation moved, or the cached list is still the present one: the
   generation of the first pointer page is all that is checked.
   */
  lemma ListIsCurrent(f: TableFile, a: Tracked)
    requires f.firstPp.Some? && (a.cache.Some? && a.cache.value.firstPp.Some? ==> a.cache.value.firstPp == f.firstPp)
    ensures var pp := f.firstPp.value;
            ListedPages(f, a) == f.DataPagesFor(pp) <==>
            a.cache.None? || a.cache.value.firstPp.None? || a.cache.value.ppGen != Generation(f.db.Page(pp)) ||
            a.cache.value.dataPages == f.DataPagesFor(pp)
  {
  }

  ghost predicate IsMove(n: Name, s: Between, e: TableEvent) {
    match e
    case Turned(file, global, fate, turn, out, a', t') =>
      n in file.tables && s.a.txn >= 0 && IsTurn(file, n, global, fate, s.a, s.t, a', t', turn, out)
    case Stored(_) => true
    case Restarted(_) => true
    case Remapped => true
  }

  /**
   A restart goes back to what was saved last, without a snapshot if the file cannot be
   read, and with the replica as it is; a new file size drops the cache, and the snapshot in
   it. When only the state file could be written, the old snapshot stays, and does not fit.
   */
  function Following(n: Name, s: Between, e: TableEvent): Between
    requires e.Turned? ==> n in e.file.tables
  {
    match e
    case Turned(file, _, _, turn, _, a', t') =>
      var seen := if turn.Done? then PagesOf(file.tables[n].db, ListedPages(file.tables[n], s.a)) else s.seen;
      s.(a := a', t := t', seen := seen)
    case Stored(snapshots) =>
      var saved := SavedTable(s.a);
      s.(saved := if snapshots then saved else saved.(pending := s.saved.pending), savedSeen := s.seen,
         whole := snapshots && s.fits)
    case Restarted(found) => s.(a := LoadedTable(s.saved, found), seen := s.savedSeen, fits := s.whole || !found)
    case Remapped => s.(a := s.a.(cache := None), fits := s.fits || s.a.pending == None)
  }

  /** Any sequence of events. */
  ghost predicate IsTableRun(n: Name, s: Between, events: seq<TableEvent>)
    decreases |events|, 0
  {
    events == [] ||
    var k := |events| - 1;
    IsTableRun(n, s, events[..k]) && IsMove(n, BetweenAfter(n, s, events[..k]), events[k])
  }

  ghost function BetweenAfter(n: Name, s: Between, events: seq<TableEvent>): Between
    requires IsTableRun(n, s, events)
    decreases |events|, 1
  {
    if events == [] then s else
    var k := |events| - 1;
    Following(n, BetweenAfter(n, s, events[..k]), events[k])
  }

  // ── Saving and starting again ──

  /** Only a save changes what is on disk. */
  lemma {:induction false} DiskStays(n: Name, s: Between, events: seq<TableEvent>)
    requires IsTableRun(n, s, events) && forall i :: 0 <= i < |events| ==> !events[i].Stored?
    ensures var y := BetweenAfter(n, s, events);
            y.saved == s.saved && y.savedSeen == s.savedSeen && y.whole == s.whole
    decreases |events|
  {
    hide IsMove, ListedPages, PagesOf;
    if events != [] {
      var k := |events| - 1;
      DiskStays(n, s, events[..k]);
    }
  }

  /**
   A start goes back to the last save, whatever happened since: the watermark, the key, the
   generations and the pages seen are those of the save, and so is the snapshot if its file
   was written and can be read.
   */
  lemma RestartRestores(n: Name, s: Between, events: seq<TableEvent>, snapshots: bool, found: bool, pkByteLen: nat)
    requires var saved := Following(n, s, Stored(snapshots));
             IsTableRun(n, saved, events) && forall i :: 0 <= i < |events| ==> !events[i].Stored?
    requires s.a.cache.Some? ==> s.a.pending == None && s.a.cache.value.schema.pkByteLen == pkByteLen
    requires s.saved.cache == None
    ensures var y := Following(n, BetweenAfter(n, Following(n, s, Stored(snapshots)), events), Restarted(found));
            y.a.txn == s.a.txn && y.a.keyed == s.a.keyed && y.a.gens == s.a.gens && y.seen == s.seen &&
            y.t == BetweenAfter(n, Following(n, s, Stored(snapshots)), events).t &&
            y.a.Prev(pkByteLen) ==
              (if !found then map[]
               else if !snapshots then s.saved.Prev(pkByteLen)
               else if s.a.cache.Some? && pkByteLen > 0 then s.a.Prev(pkByteLen)
               else map[]) &&
            y.fits == (!found || (snapshots && s.fits))
  {
    hide IsMove, ListedPages, PagesOf;
    DiskStays(n, Following(n, s, Stored(snapshots)), events);
  }

  // ── What no event breaks ──

  /** A record whose cache describes the schema and whose snapshot holds encoded keys. */
  ghost predicate Sound(schema: Schema, a: Tracked) {
    a.txn >= 0 && (a.cache.Some? ==> a.cache.value.schema == schema && a.pending == None) &&
    KeysOnly(a.Prev(schema.pkByteLen), schema.pkByteLen, |schema.pk|)
  }

  ghost predicate AllSound(schema: Schema, s: Between) {
    Tracking(schema) && Sound(schema, s.a) && Sound(schema, s.saved) && s.saved.cache == None && Filed(schema, s.t)
  }

  /** The table has this schema whenever a turn reads the catalog. */
  ghost predicate OfSchema(schema: Schema, n: Name, s: Between, e: TableEvent) {
    e.Turned? && n in e.file.tables && s.a.cache.None? ==> e.file.tables[n].schema == schema
  }

  function TurnView(schema: Schema, f: TableFile, a: Tracked, global: nat): View
    requires a.txn >= 0
  {
    View(f.db, schema, Max(a.txn, global))
  }

  /** The turn scanned the file, and its delta, if there was one, took effect, answered or not. */
  ghost predicate Took(schema: Schema, n: Name, s: Between, e: TableEvent)
    requires e.Turned? && n in e.file.tables
  {
    e.turn.Done? || (e.turn.Failed? && e.fate.Unanswered? && DeltaApplied(s.t, schema, e.out).Some?)
  }

  lemma TurnCache(schema: Schema, f: TableFile, a: Tracked)
    requires Sound(schema, a) && (a.cache.None? ==> f.schema == schema)
    ensures CacheOf(f, a.Snap(), Slice(a.gens, a.cache, map[])).prev == a.Prev(schema.pkByteLen)
    ensures CacheOf(f, a.Snap(), Slice(a.gens, a.cache, map[])).schema == schema
  {
    hide KeysOnly;
  }

  lemma SameCache(f: TableFile, a: Tracked, t: Table)
    ensures CacheOf(f, a.Snap(), Slice(a.gens, a.cache, t)) == CacheOf(f, a.Snap(), Slice(a.gens, a.cache, map[]))
  {
  }

  /** A turn that took is a cycle of `OneCycle`; one that did not leaves the rows alone. */
  lemma TurnIsCycle(schema: Schema, n: Name, s: Between, e: TableEvent)
    requires AllSound(schema, s) && e.Turned? && IsMove(n, s, e) && OfSchema(schema, n, s, e)
    ensures var f := e.file.tables[n];
            var c0 := CacheOf(f, s.a.Snap(), Slice(s.a.gens, s.a.cache, map[]));
            (Took(schema, n, s, e) && Refreshed(f, c0).Some? ==>
              IsCycle(TurnView(schema, f, s.a, e.global), s.a.gens, s.a.Prev(schema.pkByteLen), ListedPages(f, s.a),
                      e.out, s.t, e.t')) &&
            (!(Took(schema, n, s, e) && Refreshed(f, c0).Some?) ==> e.t' == s.t)
  {
    hide IsScan, Tracking, Schema.Valid, NextGens, NextPrev, DeltaApplied, NewCache, KeysOnly, Filed, Refreshed;
    var f := e.file.tables[n];
    TurnCache(schema, f, s.a);
    SameCache(f, s.a, s.t);
    RefreshKeeps(f, CacheOf(f, s.a.Snap(), Slice(s.a.gens, s.a.cache, map[])));
  }

  lemma TurnStaysSound(schema: Schema, n: Name, s: Between, e: TableEvent)
    requires AllSound(schema, s) && e.Turned? && IsMove(n, s, e) && OfSchema(schema, n, s, e)
    ensures AllSound(schema, Following(n, s, e))
  {
    hide IsScan, Tracking, Schema.Valid, NextGens, NextPrev, DeltaApplied, NewCache, KeysOnly, Filed, Refreshed,
         IsCycle, ListedPages, PagesOf;
    var f := e.file.tables[n];
    TurnCache(schema, f, s.a);
    SameCache(f, s.a, s.t);
    TurnIsCycle(schema, n, s, e);
    var c0 := CacheOf(f, s.a.Snap(), Slice(s.a.gens, s.a.cache, map[]));
    if e.t' != s.t {
      FiledStays(TurnView(schema, f, s.a, e.global), s.a.gens, s.a.Prev(schema.pkByteLen), ListedPages(f, s.a), e.out,
                 s.t, e.t');
    }
    NoKeys(schema.pkByteLen, |schema.pk|);
    if e.turn.Done? || e.turn.Failed? {
      TrackedIsValid(schema);
      SyncKeepsValid(f, Max(s.a.txn, e.global), s.a.Snap(), e.fate, Slice(s.a.gens, s.a.cache, s.t),
                     Slice(e.a'.gens, e.a'.cache, e.t'), e.out, e.turn.Result());
      if e.turn.Done? {
        WatermarkRises(f, Max(s.a.txn, e.global), s.a.Snap(), e.fate, Slice(s.a.gens, s.a.cache, s.t),
                       Slice(e.a'.gens, e.a'.cache, e.t'), e.out, e.turn.Result());
      }
    }
  }

  lemma StoreStaysSound(schema: Schema, n: Name, s: Between, e: TableEvent)
    requires AllSound(schema, s) && !e.Turned?
    ensures AllSound(schema, Following(n, s, e)) && Following(n, s, e).t == s.t
  {
    hide Tracking, KeysOnly, Filed;
    NoKeys(schema.pkByteLen, |schema.pk|);
  }

  ghost predicate AllOfSchema(schema: Schema, n: Name, s: Between, events: seq<TableEvent>)
    requires IsTableRun(n, s, events)
    decreases |events|
  {
    events == [] ||
    var k := |events| - 1;
    AllOfSchema(schema, n, s, events[..k]) && OfSchema(schema, n, BetweenAfter(n, s, events[..k]), events[k])
  }

  lemma {:induction false} RunIsSound(schema: Schema, n: Name, s: Between, events: seq<TableEvent>)
    requires AllSound(schema, s) && IsTableRun(n, s, events) && AllOfSchema(schema, n, s, events)
    ensures AllSound(schema, BetweenAfter(n, s, events))
    decreases |events|
  {
    hide AllSound, IsMove, Following, OfSchema;
    if events != [] {
      var k := |events| - 1;
      RunIsSound(schema, n, s, events[..k]);
      var x := BetweenAfter(n, s, events[..k]);
      var e := events[k];
      if e.Turned? { TurnStaysSound(schema, n, x, e); } else { StoreStaysSound(schema, n, x, e); }
    }
  }

  lemma {:induction false} RunPrefix(schema: Schema, n: Name, s: Between, events: seq<TableEvent>, i: nat)
    requires IsTableRun(n, s, events) && AllOfSchema(schema, n, s, events) && i < |events|
    ensures IsTableRun(n, s, events[..i]) && AllOfSchema(schema, n, s, events[..i])
    ensures var x := BetweenAfter(n, s, events[..i]);
            IsMove(n, x, events[i]) && OfSchema(schema, n, x, events[i]) &&
            IsTableRun(n, s, events[..i + 1]) && BetweenAfter(n, s, events[..i + 1]) == Following(n, x, events[i])
    decreases |events|
  {
    hide IsMove, Following, OfSchema;
    var k := |events| - 1;
    if i == k {
      assert events[..i + 1] == events;
    } else {
      RunPrefix(schema, n, s, events[..k], i);
      assert events[..k][..i] == events[..i] && events[..k][..i + 1] == events[..i + 1];
    }
  }

  /** The turn scanned the file; without a pointer page there is nothing to scan. */
  predicate HasPages(f: TableFile, a: Tracked) {
    Refreshed(f, CacheOf(f, a.Snap(), Slice(a.gens, a.cache, map[]))).Some?
  }

  /** The file's present data pages, whichever of them a turn looks at. */
  function FilePages(f: TableFile): Pages {
    match f.firstPp
    case None => map[]
    case Some(pp) => PagesOf(f.db, f.DataPagesFor(pp))
  }

  /**
   Every run, exactly: whatever fails, crashes, is half saved or goes unanswered, on any
   files, a turn whose delta took effect leaves the table holding the live rows of the file's
   present pages, looked at or not, if and only if every live row arrives and every other key
   leaves; every other event leaves the rows as they were.
   */
  lemma RunExact(schema: Schema, n: Name, s: Between, events: seq<TableEvent>, i: nat)
    requires AllSound(schema, s) && IsTableRun(n, s, events) && AllOfSchema(schema, n, s, events) && i < |events|
    ensures IsTableRun(n, s, events[..i]) && IsTableRun(n, s, events[..i + 1])
    ensures var x, y, e := BetweenAfter(n, s, events[..i]), BetweenAfter(n, s, events[..i + 1]), events[i];
            Tracking(schema) && x.a.txn >= 0 && EventExact(schema, n, x, e, y)
  {
    hide AllSound, IsMove, OfSchema, Took, IsCycle, HasPages, ListedPages, IsTable, LiveIn, PagesOf, FilePages,
         TurnView, Tracking, AllOfSchema, IsTableRun, BetweenAfter, ExactlyIf;
    RunPrefix(schema, n, s, events, i);
    RunIsSound(schema, n, s, events[..i]);
    var x, e := BetweenAfter(n, s, events[..i]), events[i];
    SoundParts(schema, x);
    if e.Turned? {
      MoveOnTable(n, x, e);
      TurnOutcome(schema, n, x, e, FilePages(e.file.tables[n]));
    }
  }

  /** What one event did to the rows: a turn that took is exact, any other event leaves them. */
  ghost predicate EventExact(schema: Schema, n: Name, x: Between, e: TableEvent, y: Between)
    requires Tracking(schema) && x.a.txn >= 0
  {
    if e.Turned? && n in e.file.tables && Took(schema, n, x, e) && HasPages(e.file.tables[n], x.a) then
      ExactlyIf(schema, x, e.file.tables[n], e.global, e.out, FilePages(e.file.tables[n]), y.t)
    else y.t == x.t
  }

  /**
   A turn from `s` on file `f` leaves `t'`, which holds the live rows of the pages `file` if
   and only if every one of them is written, or was in the table and is neither overwritten
   nor dropped, and every other key is not written and is dropped if it was there.
   */
  ghost predicate ExactlyIf(schema: Schema, s: Between, f: TableFile, global: nat, out: ScanOutput, file: Pages,
      t': Table)
    requires Tracking(schema) && s.a.txn >= 0
  {
    var v, pages, prev := TurnView(schema, f, s.a, global), ListedPages(f, s.a), s.a.Prev(schema.pkByteLen);
    IsTable(schema, file, t') <==>
    (forall k, row :: LiveIn(schema, file, k, row) ==> Arrives(v, s.a.gens, prev, pages, out, s.t, k, row)) &&
    forall k :: !LiveKey(schema, file, k) ==> Leaves(v, s.a.gens, prev, pages, out, s.t, k)
  }

  lemma MoveOnTable(n: Name, s: Between, e: TableEvent)
    requires e.Turned? && IsMove(n, s, e)
    ensures n in e.file.tables && Following(n, s, e).t == e.t'
  {
  }

  lemma SoundParts(schema: Schema, s: Between)
    requires AllSound(schema, s)
    ensures Tracking(schema) && schema.Valid() && s.a.txn >= 0 && Filed(schema, s.t)
    ensures KeysOnly(s.a.Prev(schema.pkByteLen), schema.pkByteLen, |schema.pk|)
  {
  }

  lemma TurnOutcome(schema: Schema, n: Name, s: Between, e: TableEvent, file: Pages)
    requires AllSound(schema, s) && e.Turned? && IsMove(n, s, e) && OfSchema(schema, n, s, e)
    ensures Tracking(schema) && s.a.txn >= 0
    ensures var f := e.file.tables[n];
            if Took(schema, n, s, e) && HasPages(f, s.a) then ExactlyIf(schema, s, f, e.global, e.out, file, e.t')
            else e.t' == s.t
  {
    hide AllSound, IsMove, OfSchema, Took, IsCycle, ListedPages, Arrives, Leaves, IsTable, LiveIn, Tracking,
         Refreshed, CacheOf, LiveKey;
    MoveOnTable(n, s, e);
    TurnIsCycle(schema, n, s, e);
    SoundParts(schema, s);
    if Took(schema, n, s, e) && HasPages(e.file.tables[n], s.a) {
      var f := e.file.tables[n];
      CycleIsExact(TurnView(schema, f, s.a, e.global), s.a.gens, s.a.Prev(schema.pkByteLen), ListedPages(f, s.a), e.out,
                   s.t, e.t', file);
    }
  }

  // ── Runs on files that keep their promises ──

  /** Memory and disk are of the pages seen, and so are the snapshots that fit. */
  ghost predicate Remembered(schema: Schema, s: Between) {
    Tracking(schema) && Marks(schema, s.a.gens, s.a.txn, s.seen) &&
    Marks(schema, s.saved.gens, s.saved.txn, s.savedSeen) &&
    (s.fits ==> SnapshotOf(schema, s.a.Prev(schema.pkByteLen), s.seen)) &&
    (s.whole ==> SnapshotOf(schema, s.saved.Prev(schema.pkByteLen), s.savedSeen))
  }

  /**
   What is asked of an event: a file keeps its promises when a turn on it is done. Nothing
   is asked of a turn that fails, a save or a restart.
   */
  ghost predicate Keeps(schema: Schema, n: Name, s: Between, e: TableEvent)
    requires Tracking(schema) && s.a.txn >= 0 && (e.Turned? ==> n in e.file.tables)
  {
    e.Turned? && e.turn.Done? ==>
      var f := e.file.tables[n];
      Faithful(TurnView(schema, f, s.a, e.global), s.a.gens, ListedPages(f, s.a), s.seen)
  }

  ghost predicate AllKeep(schema: Schema, n: Name, s: Between, events: seq<TableEvent>)
    requires AllSound(schema, s) && IsTableRun(n, s, events) && AllOfSchema(schema, n, s, events)
    decreases |events|
  {
    events == [] ||
    var k := |events| - 1;
    RunPrefix(schema, n, s, events, k);
    RunIsSound(schema, n, s, events[..k]);
    AllKeep(schema, n, s, events[..k]) && Keeps(schema, n, BetweenAfter(n, s, events[..k]), events[k])
  }

  lemma NothingSeen(schema: Schema, gens: Gens, txn: int)
    requires Tracking(schema)
    ensures Marks(schema, gens, txn, map[])
  {
    hide Tracking;
  }

  lemma SeesNothing(schema: Schema, prev: Snapshot, seen: Pages)
    requires Tracking(schema)
    ensures SnapshotOf(schema, map[], seen)
    ensures SnapshotOf(schema, prev, seen) ==> SnapshotOf(schema, prev, map[])
  {
  }

  /** A done turn that scanned: the cache it used, and what it left. */
  lemma DoneTurn(schema: Schema, n: Name, s: Between, e: TableEvent) returns (c: Cache, refreshed: bool)
    requires AllSound(schema, s) && e.Turned? && IsMove(n, s, e) && OfSchema(schema, n, s, e) && e.turn.Done?
    requires HasPages(e.file.tables[n], s.a)
    ensures c.schema == schema && c.prev == s.a.Prev(schema.pkByteLen) && c.Valid()
    ensures c.dataPages == ListedPages(e.file.tables[n], s.a)
    ensures IsScan(TurnView(schema, e.file.tables[n], s.a, e.global), s.a.gens, c.prev, c.dataPages, e.out)
    ensures e.a'.gens == NextGens(s.a.gens, c, e.out, refreshed) && e.a'.txn == e.out.maxTxn
    ensures e.a'.cache.Some? && e.a'.cache.value.prev == NextPrev(c, e.out, refreshed)
  {
    hide IsScan, Tracking, Schema.Valid, NextGens, NextPrev, DeltaApplied, NewCache, KeysOnly, Filed, Refreshed;
    var f := e.file.tables[n];
    TurnCache(schema, f, s.a);
    SameCache(f, s.a, s.t);
    var c0 := CacheOf(f, s.a.Snap(), Slice(s.a.gens, s.a.cache, map[]));
    RefreshKeeps(f, c0);
    SoundParts(schema, s);
    c, refreshed := Refreshed(f, c0).value.0, Refreshed(f, c0).value.1;
  }

  /** A done turn without a pointer page changes neither generations nor snapshot. */
  lemma EmptyTurn(schema: Schema, n: Name, s: Between, e: TableEvent)
    requires AllSound(schema, s) && e.Turned? && IsMove(n, s, e) && OfSchema(schema, n, s, e) && e.turn.Done?
    requires !HasPages(e.file.tables[n], s.a)
    ensures e.a'.gens == s.a.gens && e.a'.Prev(schema.pkByteLen) == s.a.Prev(schema.pkByteLen) && e.t' == s.t
    ensures ListedPages(e.file.tables[n], s.a) == []
  {
    hide IsScan, Tracking, Schema.Valid, NextGens, NextPrev, DeltaApplied, NewCache, KeysOnly, Filed, Refreshed;
    TurnCache(schema, e.file.tables[n], s.a);
    SameCache(e.file.tables[n], s.a, s.t);
  }

  lemma UndoneTurnRemembers(schema: Schema, n: Name, s: Between, e: TableEvent)
    requires AllSound(schema, s) && Remembered(schema, s) && e.Turned? && IsMove(n, s, e)
    requires OfSchema(schema, n, s, e) && !e.turn.Done?
    ensures Remembered(schema, Following(n, s, e))
  {
    hide IsSync, Tracking, Schema.Valid, NewCache, KeysOnly, Filed, SnapshotOf, Marks, PagesOf;
    var f := e.file.tables[n];
    TurnCache(schema, f, s.a);
    SameCache(f, s.a, s.t);
    SeesNothing(schema, s.a.Prev(schema.pkByteLen), s.seen);
    NoKeys(schema.pkByteLen, |schema.pk|);
    if e.turn.Failed? {
      FailureChangesNothing(f, Max(s.a.txn, e.global), s.a.Snap(), e.fate, Slice(s.a.gens, s.a.cache, s.t),
                            Slice(e.a'.gens, e.a'.cache, e.t'), e.out);
    }
  }

  lemma TurnRemembers(schema: Schema, n: Name, s: Between, e: TableEvent)
    requires AllSound(schema, s) && Remembered(schema, s) && e.Turned? && IsMove(n, s, e)
    requires OfSchema(schema, n, s, e) && Keeps(schema, n, s, e)
    ensures Remembered(schema, Following(n, s, e))
  {
    hide IsTurn, Tracking, Schema.Valid, NextGens, NextPrev, NewCache, KeysOnly, Filed, Refreshed, HasPages,
         SnapshotOf, Marks, GenerationsTell, NewRowsCurrent, StubsTell, PagesOf, IsScan, ListedPages;
    var f := e.file.tables[n];
    SoundParts(schema, s);
    SeesNothing(schema, s.a.Prev(schema.pkByteLen), s.seen);
    if !e.turn.Done? {
      UndoneTurnRemembers(schema, n, s, e);
    } else if HasPages(f, s.a) {
      var c, refreshed := DoneTurn(schema, n, s, e);
      RemembersNext(TurnView(schema, f, s.a, e.global), s.a.gens, c, e.out, s.a.txn, s.seen, refreshed);
    } else {
      EmptyTurn(schema, n, s, e);
      NoPagesNoSeen(f.db);
      NothingSeen(schema, s.a.gens, e.a'.txn);
    }
  }

  lemma NoPagesNoSeen(db: Db)
    ensures PagesOf(db, []) == map[]
  {
  }

  lemma StoreRemembers(schema: Schema, n: Name, s: Between, e: TableEvent)
    requires AllSound(schema, s) && Remembered(schema, s) && !e.Turned? && Keeps(schema, n, s, e)
    ensures Remembered(schema, Following(n, s, e))
  {
    hide Tracking, KeysOnly, Filed, SnapshotOf, Marks;
    NoKeys(schema.pkByteLen, |schema.pk|);
    SeesNothing(schema, s.a.Prev(schema.pkByteLen), s.seen);
    NoSnapshot(schema, s.savedSeen);
    NoStrideNoKeys(map[], |schema.pk|);
    if e.Stored? { StoredPrev(schema, s.a, s.seen); }
  }

  lemma NoSnapshot(schema: Schema, seen: Pages)
    requires Tracking(schema)
    ensures SnapshotOf(schema, map[], seen)
  {
  }

  /** A saved snapshot is the cached one, or none. */
  lemma StoredPrev(schema: Schema, a: Tracked, seen: Pages)
    requires Tracking(schema)
    ensures SnapshotOf(schema, a.Prev(schema.pkByteLen), seen) ==>
              SnapshotOf(schema, SavedTable(a).Prev(schema.pkByteLen), seen)
  {
  }

  lemma {:induction false} RunRemembers(schema: Schema, n: Name, s: Between, events: seq<TableEvent>)
    requires AllSound(schema, s) && Remembered(schema, s) && IsTableRun(n, s, events)
    requires AllOfSchema(schema, n, s, events) && AllKeep(schema, n, s, events)
    ensures AllSound(schema, BetweenAfter(n, s, events)) && Remembered(schema, BetweenAfter(n, s, events))
    decreases |events|
  {
    hide AllSound, IsMove, Following, OfSchema, Remembered, Keeps;
    if events != [] {
      var k := |events| - 1;
      RunRemembers(schema, n, s, events[..k]);
      RunPrefix(schema, n, s, events, k);
      RunIsSound(schema, n, s, events);
      assert events[..k + 1] == events;
      var x := BetweenAfter(n, s, events[..k]);
      var e := events[k];
      if e.Turned? { TurnRemembers(schema, n, x, e); } else { StoreRemembers(schema, n, x, e); }
    }
  }

  lemma KeepLast(schema: Schema, n: Name, s: Between, events: seq<TableEvent>, k: nat)
    requires AllSound(schema, s) && IsTableRun(n, s, events) && AllOfSchema(schema, n, s, events)
    requires AllKeep(schema, n, s, events) && |events| == k + 1
    ensures IsTableRun(n, s, events[..k]) && AllOfSchema(schema, n, s, events[..k])
    ensures AllKeep(schema, n, s, events[..k])
    ensures var x := BetweenAfter(n, s, events[..k]);
            AllSound(schema, x) && Tracking(schema) && x.a.txn >= 0 &&
            (events[k].Turned? ==> n in events[k].file.tables) && Keeps(schema, n, x, events[k])
  {
    hide AllSound, IsMove, Following, OfSchema, Keeps, Tracking, BetweenAfter;
    RunPrefix(schema, n, s, events, k);
    RunIsSound(schema, n, s, events[..k]);
    SoundParts(schema, BetweenAfter(n, s, events[..k]));
    if events[k].Turned? { MoveOnTable(n, BetweenAfter(n, s, events[..k]), events[k]); }
  }

  lemma {:induction false} KeepPrefix(schema: Schema, n: Name, s: Between, events: seq<TableEvent>, i: nat)
    requires AllSound(schema, s) && IsTableRun(n, s, events) && AllOfSchema(schema, n, s, events)
    requires AllKeep(schema, n, s, events) && i < |events|
    ensures IsTableRun(n, s, events[..i]) && AllOfSchema(schema, n, s, events[..i])
    ensures AllKeep(schema, n, s, events[..i])
    ensures var x := BetweenAfter(n, s, events[..i]);
            AllSound(schema, x) && Tracking(schema) && x.a.txn >= 0 &&
            (events[i].Turned? ==> n in events[i].file.tables) && Keeps(schema, n, x, events[i])
    decreases |events|
  {
    hide AllSound, IsMove, Following, OfSchema, Keeps, Tracking, AllKeep, AllOfSchema, IsTableRun, BetweenAfter;
    var k := |events| - 1;
    KeepLast(schema, n, s, events, k);
    if i < k {
      KeepPrefix(schema, n, s, events[..k], i);
      assert events[..k][..i] == events[..i];
    }
  }

  /**
   A turn that is done, on a file that keeps its promises: exactly when the replica ends up
   holding the file's rows.
   */
  ghost predicate ConvergedIff(schema: Schema, f: TableFile, s: Between, global: nat, t': Table)
    requires Tracking(schema) && s.a.txn >= 0
  {
    var v, pages := TurnView(schema, f, s.a, global), ListedPages(f, s.a);
    IsTable(schema, PagesOf(f.db, pages), t') <==>
    RowsArrive(v, s.a.gens, pages, s.t) && VanishedCaught(v, s.a.Prev(schema.pkByteLen), pages, s.t)
  }

  lemma DoneTurnConverges(schema: Schema, n: Name, s: Between, e: TableEvent)
    requires AllSound(schema, s) && schema.pkByteLen <= 64
    requires e.Turned? && e.turn.Done? && IsMove(n, s, e) && OfSchema(schema, n, s, e) && Tracking(schema)
    requires s.a.txn >= 0 && Keeps(schema, n, s, e) && SnapshotOf(schema, s.a.Prev(schema.pkByteLen), s.seen)
    ensures ConvergedIff(schema, e.file.tables[n], s, e.global, e.t')
  {
    hide IsTurn, Tracking, Schema.Valid, PagesOf, ListedPages, Faithful, VanishedCaught, RowsArrive, IsTable,
         IsCycle, Refreshed, CacheOf, Marks, SnapshotOf, AllSound;
    var f := e.file.tables[n];
    var v, prev, pages := TurnView(schema, f, s.a, e.global), s.a.Prev(schema.pkByteLen), ListedPages(f, s.a);
    SoundParts(schema, s);
    if HasPages(f, s.a) {
      TurnIsCycle(schema, n, s, e);
      Converges(v, s.a.gens, prev, pages, e.out, s.t, e.t', s.seen);
    } else {
      EmptyTurn(schema, n, s, e);
      NothingConverges(v, s.a.gens, prev, s.t);
    }
  }

  /** With no page listed the file has no rows and nothing is caught. */
  lemma NothingConverges(v: View, gens: Gens, prev: Snapshot, t: Table)
    requires Tracking(v.schema)
    ensures IsTable(v.schema, PagesOf(v.db, []), t) <==> RowsArrive(v, gens, [], t) && VanishedCaught(v, prev, [], t)
  {
    hide Tracking, OnPage, IsLive, InFlat, EncodeFields, Schema.Valid, IsStub;
    TrackedIsValid(v.schema);
    assert forall k, row :: !LiveIn(v.schema, PagesOf(v.db, []), k, row);
    assert forall k :: !Caught(v, prev, [], k);
  }

  /**
   What one event of a run did. After a turn that is done, over a snapshot of the pages
   last seen, the replica holds exactly the live rows of the pages looked at if and only if
   every live row was upserted or already there, and every key that left was caught by a
   stub or by the snapshot. If it held the rows of the pages last seen, the rows arrive when
   the old rows on changed pages are known to it; if it held those of the pages looked at
   already, it still does. It is then the table of the file's present pages exactly if
   these have the same rows as those looked at. Any other event leaves the rows alone,
   unless a commit took effect unanswered.
   */
  ghost predicate EventConverges(schema: Schema, n: Name, x: Between, e: TableEvent, y: Between)
    requires Tracking(schema) && x.a.txn >= 0
  {
    if e.Turned? && e.turn.Done? then
      n in e.file.tables &&
      var f := e.file.tables[n];
      var v, pages := TurnView(schema, f, x.a, e.global), ListedPages(f, x.a);
      y.seen == PagesOf(f.db, pages) &&
      (SnapshotOf(schema, x.a.Prev(schema.pkByteLen), x.seen) ==>
        ConvergedIff(schema, f, x, e.global, y.t) &&
        (IsTable(schema, y.seen, x.t) ==> IsTable(schema, y.seen, y.t))) &&
      (IsTable(schema, x.seen, x.t) && OldRowsKnown(v, x.a.gens, pages, x.t) ==>
        RowsArrive(v, x.a.gens, pages, x.t)) &&
      (IsTable(schema, y.seen, y.t) ==>
        (IsTable(schema, FilePages(f), y.t) <==> SameRows(schema, FilePages(f), y.seen)))
    else
      y.t == x.t || (e.Turned? && e.fate.Unanswered? && DeltaApplied(x.t, schema, e.out) == Some(y.t))
  }

  ghost predicate SameRows(schema: Schema, pages: Pages, others: Pages)
    requires Tracking(schema)
  {
    forall k, row :: LiveIn(schema, pages, k, row) <==> LiveIn(schema, others, k, row)
  }

  /**
   Convergence over every run on files that keep their promises, with failed deltas, lost
   answers, crashes and restarts from the last save, half written or not, in any order: what
   every event did, with the record true of the pages seen throughout, and the snapshot too
   while it fits.
   */
  lemma RunConverges(schema: Schema, n: Name, s: Between, events: seq<TableEvent>, i: nat)
    requires AllSound(schema, s) && Remembered(schema, s) && schema.pkByteLen <= 64
    requires IsTableRun(n, s, events) && AllOfSchema(schema, n, s, events) && AllKeep(schema, n, s, events)
    requires i < |events|
    ensures IsTableRun(n, s, events[..i]) && IsTableRun(n, s, events[..i + 1])
    ensures var x, y := BetweenAfter(n, s, events[..i]), BetweenAfter(n, s, events[..i + 1]);
            Remembered(schema, x) && Remembered(schema, y) && Tracking(schema) && x.a.txn >= 0 &&
            EventConverges(schema, n, x, events[i], y)
  {
    hide AllSound, IsMove, OfSchema, Remembered, Following, Tracking, AllOfSchema, IsTableRun, BetweenAfter, AllKeep,
         EventConverges, Keeps;
    RunPrefix(schema, n, s, events, i);
    KeepPrefix(schema, n, s, events, i);
    RunRemembers(schema, n, s, events[..i]);
    StepConverges(schema, n, BetweenAfter(n, s, events[..i]), events[i]);
  }

  lemma StepConverges(schema: Schema, n: Name, x: Between, e: TableEvent)
    requires AllSound(schema, x) && Remembered(schema, x) && schema.pkByteLen <= 64
    requires IsMove(n, x, e) && OfSchema(schema, n, x, e)
    requires Tracking(schema) && x.a.txn >= 0 && (e.Turned? ==> n in e.file.tables) && Keeps(schema, n, x, e)
    ensures Remembered(schema, Following(n, x, e)) && EventConverges(schema, n, x, e, Following(n, x, e))
  {
    hide AllSound, IsTurn, OfSchema, Remembered, ListedPages, IsTable, PagesOf, RowsArrive, VanishedCaught, TurnView,
         Tracking, OldRowsKnown, FilePages, SameRows, SnapshotOf, DeltaApplied, Keeps;
    if e.Turned? { TurnRemembers(schema, n, x, e); } else { StoreRemembers(schema, n, x, e); }
    if e.Turned? && e.turn.Done? {
      DoneTurnOutcome(schema, n, x, e);
    } else if e.Turned? {
      UndoneTurnRows(schema, n, x, e);
    }
  }

  lemma DoneTurnOutcome(schema: Schema, n: Name, x: Between, e: TableEvent)
    requires AllSound(schema, x) && Remembered(schema, x) && schema.pkByteLen <= 64
    requires e.Turned? && e.turn.Done? && IsMove(n, x, e) && OfSchema(schema, n, x, e)
    requires Tracking(schema) && x.a.txn >= 0 && n in e.file.tables && Keeps(schema, n, x, e)
    ensures EventConverges(schema, n, x, e, Following(n, x, e))
  {
    hide AllSound, IsTurn, OfSchema, Remembered, ListedPages, IsTable, PagesOf, RowsArrive, VanishedCaught, Tracking,
         OldRowsKnown, FilePages, LiveIn, SnapshotOf, Keeps, DeltaApplied;
    var f, y := e.file.tables[n], Following(n, x, e);
    var v, pages := TurnView(schema, f, x.a, e.global), ListedPages(f, x.a);
    var prev := x.a.Prev(schema.pkByteLen);
    if SnapshotOf(schema, prev, x.seen) {
      DoneTurnConverges(schema, n, x, e);
      if IsTable(schema, y.seen, x.t) { HeldRowsStay(v, x.a.gens, prev, pages, x.t); }
    }
    if IsTable(schema, x.seen, x.t) && OldRowsKnown(v, x.a.gens, pages, x.t) {
      KeptTells(schema, n, x, e);
      OldKnownArrives(v, x.a.gens, pages, x.t, x.seen);
    }
    if IsTable(schema, y.seen, y.t) { TableOfBoth(schema, y.t, y.seen, FilePages(f)); }
  }

  lemma KeptTells(schema: Schema, n: Name, s: Between, e: TableEvent)
    requires Tracking(schema) && s.a.txn >= 0 && e.Turned? && e.turn.Done? && n in e.file.tables
    requires Keeps(schema, n, s, e)
    ensures GenerationsTell(e.file.tables[n].db, s.a.gens, ListedPages(e.file.tables[n], s.a), s.seen)
  {
    hide GenerationsTell, KeysUnique, NewRowsCurrent, StubsTell, Tracking, ListedPages;
  }

  lemma UndoneTurnRows(schema: Schema, n: Name, s: Between, e: TableEvent)
    requires AllSound(schema, s) && e.Turned? && IsMove(n, s, e) && OfSchema(schema, n, s, e) && !e.turn.Done?
    ensures e.t' == s.t || (e.fate.Unanswered? && DeltaApplied(s.t, schema, e.out) == Some(e.t'))
  {
    hide IsSync, Tracking, KeysOnly, Filed, DeltaApplied, NewCache;
    var f := e.file.tables[n];
    TurnCache(schema, f, s.a);
    SameCache(f, s.a, s.t);
    if e.turn.Failed? {
      FailureChangesNothing(f, Max(s.a.txn, e.global), s.a.Snap(), e.fate, Slice(s.a.gens, s.a.cache, s.t),
                            Slice(e.a'.gens, e.a'.cache, e.t'), e.out);
      FailedSchema(f, Max(s.a.txn, e.global), s.a.Snap(), e.fate, Slice(s.a.gens, s.a.cache, s.t),
                   Slice(e.a'.gens, e.a'.cache, e.t'), e.out);
    }
  }

  lemma FailedSchema(f: TableFile, wm: nat, snap: Option<Snapshot>, fate: Fate, a: Slice, b: Slice, out: ScanOutput)
    requires IsSync(f, wm, snap, fate, a, b, out, None)
    ensures b.cache.Some? && b.cache.value.schema == CacheOf(f, snap, a).schema
  {
    hide IsScan, DeltaApplied;
    RefreshKeeps(f, CacheOf(f, snap, a));
  }

  // ── Runs in step ──

  /**
   The event does not separate replica and memory: a done turn knows the old rows and
   catches what vanished, no commit goes unanswered, and nothing was done since the save a
   restart goes back to, whose snapshot, if it is found, fits.
   */
  ghost predicate Tame(schema: Schema, n: Name, s: Between, e: TableEvent)
    requires Tracking(schema) && s.a.txn >= 0 && (e.Turned? ==> n in e.file.tables)
  {
    match e
    case Turned(file, global, fate, turn, _, _, _) =>
      var f := file.tables[n];
      var v, pages := TurnView(schema, f, s.a, global), ListedPages(f, s.a);
      if turn.Done? then
        OldRowsKnown(v, s.a.gens, pages, s.t) && VanishedCaught(v, s.a.Prev(schema.pkByteLen), pages, s.t)
      else !fate.Unanswered?
    case Restarted(found) => s.savedSeen == s.seen && (found ==> s.whole)
    case _ => true
  }

  ghost predicate AllTame(schema: Schema, n: Name, s: Between, events: seq<TableEvent>)
    requires AllSound(schema, s) && IsTableRun(n, s, events) && AllOfSchema(schema, n, s, events)
    requires AllKeep(schema, n, s, events)
    decreases |events|
  {
    events == [] ||
    var k := |events| - 1;
    KeepLast(schema, n, s, events, k);
    AllTame(schema, n, s, events[..k]) && Tame(schema, n, BetweenAfter(n, s, events[..k]), events[k])
  }

  lemma TameStep(schema: Schema, n: Name, x: Between, e: TableEvent)
    requires Tracking(schema) && x.a.txn >= 0 && (e.Turned? ==> n in e.file.tables)
    requires Remembered(schema, x) && x.fits && IsTable(schema, x.seen, x.t) && Tame(schema, n, x, e)
    requires EventConverges(schema, n, x, e, Following(n, x, e))
    ensures Following(n, x, e).fits && IsTable(schema, Following(n, x, e).seen, Following(n, x, e).t)
  {
    hide Tracking, IsTable, ListedPages, PagesOf, RowsArrive, OldRowsKnown, VanishedCaught, Marks, SnapshotOf,
         DeltaApplied, FilePages, SameRows, TurnView;
  }

  /** Then the replica holds the rows of the pages last seen all along. */
  lemma {:induction false} RunStaysInStep(schema: Schema, n: Name, s: Between, events: seq<TableEvent>)
    requires AllSound(schema, s) && Remembered(schema, s) && schema.pkByteLen <= 64
    requires IsTableRun(n, s, events) && AllOfSchema(schema, n, s, events) && AllKeep(schema, n, s, events)
    requires AllTame(schema, n, s, events) && IsTable(schema, s.seen, s.t) && s.fits
    ensures var y := BetweenAfter(n, s, events);
            Tracking(schema) && InStep(schema, y.a.gens, y.a.Prev(schema.pkByteLen), y.t, y.a.txn, y.seen) && y.fits
    decreases |events|
  {
    hide AllSound, IsMove, OfSchema, Keeps, IsTable, AllOfSchema, Marks, SnapshotOf, KeysOnly, IsTableRun,
         BetweenAfter, AllKeep, Tame, EventConverges, Following;
    RunRemembers(schema, n, s, events);
    SoundParts(schema, BetweenAfter(n, s, events));
    if events == [] {
      NoEvents(n, s);
    } else {
      var k := |events| - 1;
      KeepLast(schema, n, s, events, k);
      RunStaysInStep(schema, n, s, events[..k]);
      RunConverges(schema, n, s, events, k);
      RunPrefix(schema, n, s, events, k);
      assert events[..k + 1] == events;
      TameStep(schema, n, BetweenAfter(n, s, events[..k]), events[k]);
    }
  }

  lemma NoEvents(n: Name, s: Between)
    ensures IsTableRun(n, s, []) && BetweenAfter(n, s, []) == s
  {
  }

  /** A table never synced, over any filed replica table, remembers nothing; over an empty one it is in step. */
  lemma FreshRemembers(schema: Schema, t: Table)
    requires Tracking(schema) && Filed(schema, t)
    ensures var s := Between(FRESH, t, map[], true, FRESH, map[], true);
            AllSound(schema, s) && Remembered(schema, s) && (IsTable(schema, s.seen, t) <==> t == map[])
  {
    hide Tracking, Filed, OnPage, IsLive;
    NoKeys(schema.pkByteLen, |schema.pk|);
    assert forall k, row :: !LiveIn(schema, map[], k, row);
    assert t != map[] ==> exists k :: k in t;
  }
}
