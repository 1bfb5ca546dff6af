/** Things found slot by slot on a list of pages: each place gives at most one, in order, and none is left out. */
module Places {
  import opened Bytes
  import opened Ods
  import opened Changes

  /** A slot of the page that stands at `index` of a page list. */
  datatype Place = Place(index: nat, slot: nat)
  {
    predicate Before(other: Place) {
      index < other.index || (index == other.index && slot < other.slot)
    }
  }

  /** The record at a place, if the page there is a data page and the slot is usable. */
  function RecordAt(db: Db, pages: seq<int>, at: Place): Option<Bytes> {
    if at.index < |pages| && IsDataPage(db.Page(pages[at.index])) && at.slot < SlotCount(db.Page(pages[at.index]))
    then SlotBytes(db.Page(pages[at.index]), at.slot)
    else None
  }

  // ── In order ──

  ghost predicate NoneBetween<T>(f: Place -> Option<T>, from: Place, limit: Place) {
    forall p: Place :: (p == from || from.Before(p)) && p.Before(limit) ==> f(p) == None
  }

  const START := Place(0, 0)

  ghost predicate IsLast<T>(f: Place -> Option<T>, limit: Place, p: Place) {
    p.Before(limit) && f(p).Some? && NoneBetween(f, Place(p.index, p.slot + 1), limit)
  }

  /**
   The list is what `f` gives at the places before `limit`, in the order of pages and slots,
   once for each place: its last item comes from the last place that gives any, and the
   others from the places before that one.
   */
  ghost predicate InOrder<T>(f: Place -> Option<T>, limit: Place, items: seq<T>)
    decreases |items|
  {
    if items == [] then NoneBetween(f, START, limit) else
    var n := |items| - 1;
    exists p :: IsLast(f, limit, p) && f(p) == Some(items[n]) && InOrder(f, p, items[..n])
  }

  lemma SlotInOrder<T>(f: Place -> Option<T>, i: nat, s: nat, items: seq<T>)
    requires InOrder(f, Place(i, s), items)
    ensures InOrder(f, Place(i, s + 1), items + ToSeq(f(Place(i, s))))
  {
    var p := Place(i, s);
    if f(p).None? {
      assert items + ToSeq(f(p)) == items;
      NothingMore(f, p, Place(i, s + 1), items);
    } else {
      assert IsLast(f, Place(i, s + 1), p);
      assert (items + [f(p).value])[..|items|] == items;
    }
  }

  lemma NothingMore<T>(f: Place -> Option<T>, from: Place, limit: Place, items: seq<T>)
    requires InOrder(f, from, items) && NoneBetween(f, from, limit) && (from == limit || from.Before(limit))
    ensures InOrder(f, limit, items)
  {
    if items != [] {
      var n := |items| - 1;
      var p :| IsLast(f, from, p) && f(p) == Some(items[n]) && InOrder(f, p, items[..n]);
      assert IsLast(f, limit, p);
    }
  }

  /** Past a page's last slot comes the next page. */
  lemma PageInOrder<T>(f: Place -> Option<T>, i: nat, n: nat, items: seq<T>)
    requires InOrder(f, Place(i, n), items) && forall s: nat :: s >= n ==> f(Place(i, s)) == None
    ensures InOrder(f, Place(i + 1, 0), items)
  {
    forall p: Place | (p == Place(i, n) || Place(i, n).Before(p)) && p.Before(Place(i + 1, 0))
      ensures f(p) == None
    {
      assert p == Place(i, p.slot);
    }
    NothingMore(f, Place(i, n), Place(i + 1, 0), items);
  }

  /** The last item's place, which the list itself determines. */
  lemma LastPlace<T>(f: Place -> Option<T>, limit: Place, items: seq<T>) returns (p: Place)
    requires InOrder(f, limit, items) && items != []
    ensures IsLast(f, limit, p) && f(p) == Some(items[|items| - 1]) && InOrder(f, p, items[..|items| - 1])
  {
    p :| IsLast(f, limit, p) && f(p) == Some(items[|items| - 1]) && InOrder(f, p, items[..|items| - 1]);
  }

  lemma SomeMeansLast<T>(f: Place -> Option<T>, limit: Place, items: seq<T>, p: Place)
    requires InOrder(f, limit, items) && IsLast(f, limit, p)
    ensures items != []
  {
    assert p == START || START.Before(p);
  }

  /** There is one such list. */
  lemma {:induction false} InOrderUnique<T>(f: Place -> Option<T>, limit: Place, items: seq<T>, others: seq<T>)
    requires InOrder(f, limit, items) && InOrder(f, limit, others)
    ensures items == others
    decreases |items|
  {
    hide InOrder, IsLast;
    if items == [] {
      if others != [] {
        var q := LastPlace(f, limit, others);
        SomeMeansLast(f, limit, items, q);
      }
    } else {
      var n, m := |items| - 1, |others| - 1;
      var p := LastPlace(f, limit, items);
      SomeMeansLast(f, limit, others, p);
      var q := LastPlace(f, limit, others);
      LastIsOne(f, limit, p, q);
      InOrderUnique(f, p, items[..n], others[..m]);
      assert items == items[..n] + [items[n]] && others == others[..m] + [others[m]];
    }
  }

  /** Functions that agree give the same list. */
  lemma {:induction false} InOrderOfSame<T>(f: Place -> Option<T>, g: Place -> Option<T>, limit: Place, items: seq<T>)
    requires InOrder(f, limit, items) && forall p: Place :: p.Before(limit) ==> f(p) == g(p)
    ensures InOrder(g, limit, items)
    decreases |items|
  {
    if items != [] {
      var n := |items| - 1;
      var p :| IsLast(f, limit, p) && f(p) == Some(items[n]) && InOrder(f, p, items[..n]);
      InOrderOfSame(f, g, p, items[..n]);
      assert IsLast(g, limit, p);
    }
  }

  lemma LastIsOne<T>(f: Place -> Option<T>, limit: Place, p: Place, q: Place)
    requires IsLast(f, limit, p) && IsLast(f, limit, q)
    ensures p == q
  {
    assert p == Place(p.index, p.slot) && q == Place(q.index, q.slot);
  }

  /** The places the items come from. */
  lemma {:induction false} Sources<T>(f: Place -> Option<T>, limit: Place, items: seq<T>) returns (at: seq<Place>)
    requires InOrder(f, limit, items)
    ensures |at| == |items| && forall j :: 0 <= j < |at| ==> at[j].Before(limit) && f(at[j]) == Some(items[j])
    ensures forall i, j :: 0 <= i < j < |at| ==> at[i].Before(at[j])
    ensures forall p: Place :: p.Before(limit) && f(p).Some? ==> p in at
    decreases |items|
  {
    if items == [] {
      at := [];
      assert forall p: Place :: p == START || START.Before(p);
    } else {
      var n := |items| - 1;
      var p :| IsLast(f, limit, p) && f(p) == Some(items[n]) && InOrder(f, p, items[..n]);
      var init := Sources(f, p, items[..n]);
      at := init + [p];
      forall q: Place | q.Before(limit) && f(q).Some?
        ensures q in at
      {
        OneMore(f, limit, p, q);
      }
    }
  }

  lemma OneMore<T>(f: Place -> Option<T>, limit: Place, p: Place, q: Place)
    requires IsLast(f, limit, p)
    ensures q.Before(limit) && f(q).Some? <==> (q.Before(p) && f(q).Some?) || q == p
  {
    assert p.Before(q) ==> q == Place(p.index, p.slot + 1) || Place(p.index, p.slot + 1).Before(q);
    assert q == p || q.Before(p) || p.Before(q);
  }

  // ── How many ──

  /** The places before `limit` that give `x`. */
  ghost function PlacesOf<T>(f: Place -> Option<T>, limit: Place, x: T): set<Place> {
    set i, s | 0 <= i <= limit.index && 0 <= s < U16_LIMIT && Place(i, s).Before(limit) && f(Place(i, s)) == Some(x) ::
      Place(i, s)
  }

  /** The places before `limit` that give anything. */
  ghost function PlacesBefore<T>(f: Place -> Option<T>, limit: Place): set<Place> {
    set i, s | 0 <= i <= limit.index && 0 <= s < U16_LIMIT && Place(i, s).Before(limit) && f(Place(i, s)).Some? ::
      Place(i, s)
  }

  /** A slot number has 16 bits. */
  ghost predicate Narrow<T>(f: Place -> Option<T>) {
    forall p: Place :: f(p).Some? ==> p.slot < U16_LIMIT
  }

  lemma InPlacesOf<T>(f: Place -> Option<T>, limit: Place, x: T, p: Place)
    requires Narrow(f)
    ensures p in PlacesOf(f, limit, x) <==> p.Before(limit) && f(p) == Some(x)
    ensures p in PlacesBefore(f, limit) <==> p.Before(limit) && f(p).Some?
  {
    assert p == Place(p.index, p.slot);
  }

  /** A thing is on the list as often as there are places that give it, and as many things as places are. */
  lemma {:induction false} Counts<T>(f: Place -> Option<T>, limit: Place, items: seq<T>, x: T)
    requires InOrder(f, limit, items) && Narrow(f)
    ensures multiset(items)[x] == |PlacesOf(f, limit, x)| && |items| == |PlacesBefore(f, limit)|
    ensures x in items <==> exists p: Place :: p.Before(limit) && f(p) == Some(x)
    decreases |items|
  {
    hide PlacesOf, PlacesBefore, Narrow, IsLast;
    if items == [] {
      NoPlaces(f, limit, x);
    } else {
      var n := |items| - 1;
      var p :| IsLast(f, limit, p) && f(p) == Some(items[n]) && InOrder(f, p, items[..n]);
      Counts(f, p, items[..n], x);
      OnePlaceMore(f, limit, x, p);
      assert items == items[..n] + [items[n]];
    }
  }

  lemma NoPlaces<T>(f: Place -> Option<T>, limit: Place, x: T)
    requires NoneBetween(f, START, limit)
    ensures PlacesOf(f, limit, x) == {} && PlacesBefore(f, limit) == {}
    ensures forall p: Place :: p.Before(limit) ==> f(p) == None
  {
    assert forall p: Place :: p == START || START.Before(p);
  }

  lemma OnePlaceMore<T>(f: Place -> Option<T>, limit: Place, x: T, p: Place)
    requires Narrow(f) && IsLast(f, limit, p)
    ensures |PlacesOf(f, limit, x)| == |PlacesOf(f, p, x)| + if f(p) == Some(x) then 1 else 0
    ensures |PlacesBefore(f, limit)| == |PlacesBefore(f, p)| + 1
    ensures forall q: Place :: q.Before(limit) && f(q).Some? <==> (q.Before(p) && f(q).Some?) || q == p
  {
    hide PlacesOf, PlacesBefore, Narrow, IsLast, Place.Before;
    forall q: Place
      ensures q.Before(limit) && f(q).Some? <==> (q.Before(p) && f(q).Some?) || q == p
      ensures q in PlacesOf(f, limit, x) <==> q in PlacesOf(f, p, x) || (q == p && f(p) == Some(x))
      ensures q in PlacesBefore(f, limit) <==> q in PlacesBefore(f, p) || q == p
    {
      InPlacesOf(f, limit, x, q);
      InPlacesOf(f, p, x, q);
      OneMore(f, limit, p, q);
    }
    InPlacesOf(f, p, x, p);
    NotBeforeItself(p);
    OneAdded(PlacesBefore(f, p), PlacesBefore(f, limit), p, true);
    OneAdded(PlacesOf(f, p, x), PlacesOf(f, limit, x), p, f(p) == Some(x));
  }

  lemma NotBeforeItself(p: Place)
    ensures !p.Before(p)
  {
  }

  lemma OneAdded(s: set<Place>, t: set<Place>, p: Place, added: bool)
    requires p !in s && forall q :: q in t <==> q in s || (q == p && added)
    ensures |t| == |s| + if added then 1 else 0
  {
    assert t == if added then s + {p} else s;
  }
}
