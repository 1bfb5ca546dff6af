/**
 Where a scan's rows, keys and counts come from: the slots of the listed pages, each giving
 at most one of a kind, in order.
 */
module ScanPlaces {
  import opened Bytes
  import opened Fields
  import opened Keys
  import opened Ods
  import opened Changes
  import opened Scan
  import opened ScanFacts
  import opened Live
  import opened Places

  /** The row of a new record on a page whose generation moved. */
  ghost function UpsertsAt(v: View, gens: Gens, pages: seq<int>): Place -> Option<Row> {
    (at: Place) =>
      var r := RecordAt(v.db, pages, at);
      if r.Some? && Changed(v.db, gens, pages[at.index]) && IsNew(v, r.value) then ChangedRow(v.schema, r.value)
      else None
  }

  /** The key a new delete stub names, on any page. */
  ghost function StubsAt(v: View, pages: seq<int>): Place -> Option<Row>
    requires v.schema.Valid()
  {
    (at: Place) =>
      var r := RecordAt(v.db, pages, at);
      if r.Some? && IsNew(v, r.value) then StubKey(v.db, v.schema, r.value) else None
  }

  /** The record, if its transaction is looked at. */
  ghost function CountedAt(v: View, gens: Gens, first: bool, pages: seq<int>): Place -> Option<Bytes> {
    (at: Place) =>
      var r := RecordAt(v.db, pages, at);
      if r.Some? && Counted(v, gens, first, pages[at.index], r.value) then r else None
  }

  /** The key a slot of one page adds to the page's snapshot. */
  ghost function KeysAt(v: View, p: int): Place -> Option<Bytes>
    requires v.schema.Valid()
  {
    (at: Place) =>
      var r := RecordAt(v.db, [p], at);
      if r.Some? then SnapshotKey(v.schema, r.value) else None
  }

  // ── One record ──

  lemma EffectIsOne(v: View, gens: Gens, first: bool, p: int, raw: Bytes)
    requires v.schema.Valid()
    ensures var e := Effect(v, LookAt(v, gens, first, p), raw);
            e.upserts == ToSeq(if Changed(v.db, gens, p) && IsNew(v, raw) then ChangedRow(v.schema, raw) else None) &&
            e.stubs == ToSeq(if IsNew(v, raw) then StubKey(v.db, v.schema, raw) else None) &&
            e.checked == (if Counted(v, gens, first, p, raw) then 1 else 0) &&
            (LookAt(v, gens, first, p).rebuild ==> e.keys == ToSeq(SnapshotKey(v.schema, raw)))
  {
    hide Has, ChangedRow, StubKey, SnapshotKey, RecordTransaction, Stride;
    FastPathRefines(v, LookAt(v, gens, first, p), raw);
    NoHeaderNothing(v, raw);
    if SnapshotKey(v.schema, raw).Some? { KeyHasTransaction(v.schema, raw); }
  }

  // ── The slots of a page ──

  lemma SlotNarrow(page: Bytes)
    ensures SlotCount(page) < U16_LIMIT
  {
  }

  lemma PlacesNarrow(v: View, gens: Gens, first: bool, pages: seq<int>, p: int)
    requires v.schema.Valid()
    ensures Narrow(UpsertsAt(v, gens, pages)) && Narrow(StubsAt(v, pages))
    ensures Narrow(CountedAt(v, gens, first, pages)) && Narrow(KeysAt(v, p))
  {
    hide Stride, SlotCount, ChangedRow, StubKey, SnapshotKey, IsNew, Counted;
    forall at: Place
      ensures RecordAt(v.db, pages, at).Some? ==> at.slot < U16_LIMIT
      ensures RecordAt(v.db, [p], at).Some? ==> at.slot < U16_LIMIT
    {
      SlotNarrow(v.db.Page(p));
      if at.index < |pages| { SlotNarrow(v.db.Page(pages[at.index])); }
    }
  }

  /** What was found before slot `n` of the page at `i`: in order, and `raws` are the records counted. */
  ghost predicate FoundAt(v: View, gens: Gens, first: bool, pages: seq<int>, limit: Place, f: Found, raws: seq<Bytes>)
    requires v.schema.Valid()
  {
    InOrder(UpsertsAt(v, gens, pages), limit, f.upserts) && InOrder(StubsAt(v, pages), limit, f.stubs) &&
    InOrder(CountedAt(v, gens, first, pages), limit, raws) && |raws| == f.checked
  }

  lemma SlotFound(v: View, gens: Gens, first: bool, pages: seq<int>, i: nat, s: nat, f: Found, raws: seq<Bytes>)
    returns (all: seq<Bytes>)
    requires v.schema.Valid() && i < |pages| && Visited(v.db, pages[i]) && s < SlotCount(v.db.Page(pages[i]))
    requires FoundAt(v, gens, first, pages, Place(i, s), f, raws)
    ensures var r := SlotBytes(v.db.Page(pages[i]), s);
            var more := if r.Some? then f.Add(Effect(v, LookAt(v, gens, first, pages[i]), r.value)) else f;
            FoundAt(v, gens, first, pages, Place(i, s + 1), more, all)
  {
    hide Stride, SlotCount, ChangedRow, StubKey, SnapshotKey, IsNew, Counted, InOrder, SlotBytes, Effect, LookAt,
         Generation;
    var at, p := Place(i, s), pages[i];
    SlotInOrder(UpsertsAt(v, gens, pages), i, s, f.upserts);
    SlotInOrder(StubsAt(v, pages), i, s, f.stubs);
    SlotInOrder(CountedAt(v, gens, first, pages), i, s, raws);
    all := raws + ToSeq(CountedAt(v, gens, first, pages)(at));
    var r := SlotBytes(v.db.Page(p), s);
    if r.Some? {
      EffectIsOne(v, gens, first, p, r.value);
    } else {
      assert f.upserts + [] == f.upserts && f.stubs + [] == f.stubs;
    }
  }

  lemma {:induction false} SlotsAre(v: View, gens: Gens, first: bool, pages: seq<int>, i: nat, n: nat, f: Found,
      raws: seq<Bytes>) returns (all: seq<Bytes>)
    requires v.schema.Valid() && i < |pages| && Visited(v.db, pages[i]) && n <= SlotCount(v.db.Page(pages[i]))
    requires FoundAt(v, gens, first, pages, Place(i, 0), f, raws)
    ensures FoundAt(v, gens, first, pages, Place(i, n),
                    f.Add(SlotsFound(v, LookAt(v, gens, first, pages[i]), v.db.Page(pages[i]), n)), all)
  {
    hide Stride, SlotCount, SlotBytes, Effect, FoundAt, Visited, Found.Add, LookAt;
    all := raws;
    AddFromNothing(f);
    if n > 0 {
      var page, look := v.db.Page(pages[i]), LookAt(v, gens, first, pages[i]);
      all := SlotsAre(v, gens, first, pages, i, n - 1, f, raws);
      var sofar := SlotsFound(v, look, page, n - 1);
      all := SlotFound(v, gens, first, pages, i, n - 1, f.Add(sofar), all);
      if SlotBytes(page, n - 1).Some? { AddAssociates(f, sofar, Effect(v, look, SlotBytes(page, n - 1).value)); }
    }
  }

  // ── The pages of the list ──

  lemma PageEnds(v: View, gens: Gens, first: bool, pages: seq<int>, i: nat, n: nat, f: Found, raws: seq<Bytes>)
    requires v.schema.Valid() && i < |pages| && FoundAt(v, gens, first, pages, Place(i, n), f, raws)
    requires forall s: nat :: s >= n ==> RecordAt(v.db, pages, Place(i, s)) == None
    ensures FoundAt(v, gens, first, pages, Place(i + 1, 0), f, raws)
  {
    hide Stride, ChangedRow, StubKey, IsNew, Counted, InOrder, RecordAt, Changed;
    PageInOrder(UpsertsAt(v, gens, pages), i, n, f.upserts);
    PageInOrder(StubsAt(v, pages), i, n, f.stubs);
    PageInOrder(CountedAt(v, gens, first, pages), i, n, raws);
  }

  lemma SameLists(v: View, gens: Gens, first: bool, pages: seq<int>, limit: Place, f: Found, g: Found,
      raws: seq<Bytes>)
    requires v.schema.Valid() && FoundAt(v, gens, first, pages, limit, f, raws)
    requires g.upserts == f.upserts && g.stubs == f.stubs && g.checked == f.checked
    ensures FoundAt(v, gens, first, pages, limit, g, raws)
  {
  }

  lemma NothingYet(v: View, gens: Gens, first: bool, pages: seq<int>)
    requires v.schema.Valid()
    ensures FoundAt(v, gens, first, pages, START, NOTHING, [])
  {
  }

  lemma PageIs(v: View, gens: Gens, first: bool, pages: seq<int>, i: nat, f: Found, raws: seq<Bytes>)
    returns (all: seq<Bytes>)
    requires v.schema.Valid() && i < |pages| && FoundAt(v, gens, first, pages, Place(i, 0), f, raws)
    ensures FoundAt(v, gens, first, pages, Place(i + 1, 0),
                    f.Add(PageFound(v, gens, first, pages[i]).(keys := [])), all)
  {
    hide Stride, SlotCount, FoundAt, LookAt, SlotsFound, SlotBytes;
    var p := pages[i];
    var page := v.db.Page(p);
    if Visited(v.db, p) {
      all := SlotsAre(v, gens, first, pages, i, SlotCount(page), f, raws);
      var g := PageFound(v, gens, first, p);
      SameLists(v, gens, first, pages, Place(i, SlotCount(page)), f.Add(g), f.Add(g.(keys := [])), all);
      PageEnds(v, gens, first, pages, i, SlotCount(page), f.Add(g.(keys := [])), all);
    } else {
      all := raws;
      AddFromNothing(f);
      NothingVisited(v, gens, first, p);
      PageEnds(v, gens, first, pages, i, 0, f, raws);
    }
  }

  lemma {:induction false} PagesAre(v: View, gens: Gens, first: bool, pages: seq<int>, n: nat)
    returns (raws: seq<Bytes>)
    requires v.schema.Valid() && n <= |pages|
    ensures FoundAt(v, gens, first, pages, Place(n, 0), PagesFound(v, gens, first, pages[..n]), raws)
  {
    hide Stride, SlotCount, FoundAt, Visited, Found.Add, LookAt, SlotsFound, PageFound;
    if n == 0 {
      raws := [];
      NothingYet(v, gens, first, pages);
    } else {
      var i, p := n - 1, pages[n - 1];
      assert pages[..n] == pages[..i] + [p];
      OnePageScanned(v, gens, first, pages[..i], p);
      raws := PagesAre(v, gens, first, pages, i);
      raws := PageIs(v, gens, first, pages, i, PagesFound(v, gens, first, pages[..i]), raws);
    }
  }

  /**
   The rows a scan upserts are the changed rows of the listed pages' slots, in the order of
   pages and slots, one for each slot that has one; so are the keys its stubs name, and the
   count of records it looked at.
   */
  lemma ScanInOrder(v: View, gens: Gens, first: bool, pages: seq<int>)
    requires v.schema.Valid()
    ensures var found, end := PagesFound(v, gens, first, pages), Place(|pages|, 0);
            InOrder(UpsertsAt(v, gens, pages), end, found.upserts) && InOrder(StubsAt(v, pages), end, found.stubs) &&
            found.checked == |PlacesBefore(CountedAt(v, gens, first, pages), end)|
  {
    hide Stride, UpsertsAt, StubsAt, CountedAt, PagesFound, Narrow, InOrder;
    var raws := PagesAre(v, gens, first, pages, |pages|);
    assert pages[..|pages|] == pages;
    PlacesNarrow(v, gens, first, pages, 0);
    Counts(CountedAt(v, gens, first, pages), Place(|pages|, 0), raws, []);
  }

  /** A row is upserted, and a key deleted, as often as there are places that give it; nothing else is counted. */
  lemma ScanCounts(v: View, gens: Gens, first: bool, pages: seq<int>, row: Row)
    requires v.schema.Valid()
    ensures var found, end := PagesFound(v, gens, first, pages), Place(|pages|, 0);
            multiset(found.upserts)[row] == |PlacesOf(UpsertsAt(v, gens, pages), end, row)| &&
            |found.upserts| == |PlacesBefore(UpsertsAt(v, gens, pages), end)| &&
            multiset(found.stubs)[row] == |PlacesOf(StubsAt(v, pages), end, row)| &&
            |found.stubs| == |PlacesBefore(StubsAt(v, pages), end)|
  {
    hide Stride, UpsertsAt, StubsAt, CountedAt, PagesFound, Narrow, InOrder;
    var found, end := PagesFound(v, gens, first, pages), Place(|pages|, 0);
    ScanInOrder(v, gens, first, pages);
    PlacesNarrow(v, gens, first, pages, 0);
    Counts(UpsertsAt(v, gens, pages), end, found.upserts, row);
    Counts(StubsAt(v, pages), end, found.stubs, row);
  }

  // ── The pages counted ──

  /** The places of the list where a data page stands, and those where its recorded generation is current. */
  ghost function DataIndexes(db: Db, pages: seq<int>): set<nat> {
    set i: nat | i < |pages| && Visited(db, pages[i])
  }

  ghost function CurrentIndexes(db: Db, gens: Gens, pages: seq<int>): set<nat> {
    set i: nat | i < |pages| && Visited(db, pages[i]) && !Changed(db, gens, pages[i])
  }

  /** Pages are counted once for every place they have on the list. */
  lemma {:induction false} PagesCounted(db: Db, gens: Gens, pages: seq<int>)
    ensures |DataPages(db, pages)| == |DataIndexes(db, pages)|
    ensures |SkippedPages(db, gens, pages)| == |CurrentIndexes(db, gens, pages)|
  {
    hide Visited, Changed, DataPages, SkippedPages, DataIndexes, CurrentIndexes;
    if pages == [] {
      NoPagesNoGens(db, gens);
      NoIndexes(db, gens);
    } else {
      var n := |pages| - 1;
      var init, p := pages[..n], pages[n];
      assert pages == init + [p];
      PagesCounted(db, gens, init);
      PagesGrow(db, gens, init, p);
      IndexesGrow(db, gens, init, p);
    }
  }

  lemma NoIndexes(db: Db, gens: Gens)
    ensures DataIndexes(db, []) == {} && CurrentIndexes(db, gens, []) == {}
  {
  }

  lemma IndexesGrow(db: Db, gens: Gens, pages: seq<int>, p: int)
    ensures |DataIndexes(db, pages + [p])| == |DataIndexes(db, pages)| + if Visited(db, p) then 1 else 0
    ensures |CurrentIndexes(db, gens, pages + [p])| ==
            |CurrentIndexes(db, gens, pages)| + if Visited(db, p) && !Changed(db, gens, p) then 1 else 0
  {
    hide Visited, Changed, DataIndexes, CurrentIndexes;
    forall i: nat
      ensures i in DataIndexes(db, pages + [p]) <==>
              i in DataIndexes(db, pages) || (i == |pages| && Visited(db, p))
      ensures i in CurrentIndexes(db, gens, pages + [p]) <==>
              i in CurrentIndexes(db, gens, pages) || (i == |pages| && Visited(db, p) && !Changed(db, gens, p))
      ensures i in DataIndexes(db, pages) || i in CurrentIndexes(db, gens, pages) ==> i < |pages|
    {
      IndexIs(db, gens, pages, p, i);
    }
    OneMoreIndex(DataIndexes(db, pages), DataIndexes(db, pages + [p]), |pages|);
    OneMoreIndex(CurrentIndexes(db, gens, pages), CurrentIndexes(db, gens, pages + [p]), |pages|);
  }

  lemma IndexIs(db: Db, gens: Gens, pages: seq<int>, p: int, i: nat)
    ensures i in DataIndexes(db, pages + [p]) <==>
            i in DataIndexes(db, pages) || (i == |pages| && Visited(db, p))
    ensures i in CurrentIndexes(db, gens, pages + [p]) <==>
            i in CurrentIndexes(db, gens, pages) || (i == |pages| && Visited(db, p) && !Changed(db, gens, p))
    ensures i in DataIndexes(db, pages) || i in CurrentIndexes(db, gens, pages) ==> i < |pages|
  {
    hide Visited, Changed;
  }

  lemma OneMoreIndex(s: set<nat>, t: set<nat>, n: nat)
    requires n !in s && forall i :: i in t ==> i in s || i == n
    requires forall i :: i in s ==> i in t
    ensures |t| == |s| + if n in t then 1 else 0
  {
    assert t == if n in t then s + {n} else s;
  }

  // ── The keys of a page ──

  lemma {:induction false} SlotKeysInOrder(v: View, gens: Gens, first: bool, p: int, n: nat)
    requires v.schema.Valid() && Visited(v.db, p) && LookAt(v, gens, first, p).rebuild && n <= SlotCount(v.db.Page(p))
    ensures InOrder(KeysAt(v, p), Place(0, n), SlotsFound(v, LookAt(v, gens, first, p), v.db.Page(p), n).keys)
  {
    hide Stride, SlotCount, SlotBytes, Effect, SnapshotKey, LookAt, InOrder;
    var page, look := v.db.Page(p), LookAt(v, gens, first, p);
    if n == 0 {
      NoKeysYet(v, p);
    } else {
      SlotKeysInOrder(v, gens, first, p, n - 1);
      var sofar := SlotsFound(v, look, page, n - 1);
      SlotInOrder(KeysAt(v, p), 0, n - 1, sofar.keys);
      if SlotBytes(page, n - 1).Some? {
        EffectIsOne(v, gens, first, p, SlotBytes(page, n - 1).value);
      } else {
        assert sofar.keys + [] == sofar.keys;
      }
    }
  }

  lemma NoKeysYet(v: View, p: int)
    requires v.schema.Valid()
    ensures InOrder(KeysAt(v, p), START, [])
  {
  }

  /** A rebuilt page's snapshot is made of the keys of its slots, in order, one for each slot that has one. */
  lemma PageKeysInOrder(v: View, gens: Gens, first: bool, p: int)
    requires v.schema.Valid() && Rebuilt(v, gens, first, p)
    ensures InOrder(KeysAt(v, p), Place(1, 0), PageFound(v, gens, first, p).keys)
  {
    hide Stride, SlotCount, SlotsFound, SnapshotKey, LookAt, InOrder, SlotBytes;
    var n := SlotCount(v.db.Page(p));
    SlotKeysInOrder(v, gens, first, p, n);
    PageInOrder(KeysAt(v, p), 0, n, PageFound(v, gens, first, p).keys);
  }
}
