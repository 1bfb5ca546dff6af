/**
 Express deletes: keys that vanished from the snapshot without a delete stub, found by a
 sort and a binary search over the changed pages only.
 */
module Express {
  import opened Arith
  import opened Bytes
  import opened ChunkRows
  import opened FlatPk

  /** The flat key list of every page. */
  type Snapshot = map<int, Bytes>

  ghost predicate WholeFlats(m: Snapshot, stride: nat)
    requires stride > 0
  {
    forall p :: p in m ==> |m[p]| % stride == 0
  }

  predicate InFlat(flat: Bytes, stride: nat, k: Bytes)
    requires stride > 0
  {
    k in Chunks(flat, stride)
  }

  /** Some page of the snapshot holds the key. */
  ghost predicate HasKey(m: Snapshot, stride: nat, k: Bytes)
    requires stride > 0
  {
    exists p :: p in m && InFlat(m[p], stride, k)
  }

  /** The key is on a page scanned anew, or on a page whose old snapshot still stands. */
  ghost predicate Alive(prev: Snapshot, news: Snapshot, stride: nat, k: Bytes)
    requires stride > 0
  {
    HasKey(news, stride, k) || HasKey(prev - news.Keys, stride, k)
  }

  /** On the old snapshot of a page scanned anew, and nowhere now. */
  ghost predicate Vanished(prev: Snapshot, news: Snapshot, stride: nat, k: Bytes)
    requires stride > 0
  {
    (exists p :: p in prev && p in news && InFlat(prev[p], stride, k)) && !Alive(prev, news, stride, k)
  }

  /** Looking only at changed pages finds exactly what the whole snapshot loses when it is advanced. */
  lemma DiffIsExact(prev: Snapshot, news: Snapshot, stride: nat, k: Bytes)
    requires stride > 0
    ensures Vanished(prev, news, stride, k) <==> HasKey(prev, stride, k) && !HasKey(prev + news, stride, k)
  {
    hide InFlat;
    var after := prev + news;
    if HasKey(after, stride, k) {
      var p :| p in after && InFlat(after[p], stride, k);
      if p !in news { assert p in prev - news.Keys; }
    }
    if HasKey(news, stride, k) {
      var p :| p in news && InFlat(news[p], stride, k);
      assert p in after && after[p] == news[p];
    }
    if HasKey(prev - news.Keys, stride, k) {
      var p :| p in prev - news.Keys && InFlat((prev - news.Keys)[p], stride, k);
      assert p in after && after[p] == prev[p];
    }
    if HasKey(prev, stride, k) && !HasKey(after, stride, k) {
      var p :| p in prev && InFlat(prev[p], stride, k);
      assert p in after;
      assert p in news;
    }
  }

  // ── Building the alive list ──

  lemma RowsAppend(a: Bytes, b: Bytes, stride: nat, k: Bytes)
    requires stride > 0 && |a| % stride == 0 && |b| % stride == 0
    ensures |a + b| % stride == 0
    ensures InFlat(a + b, stride, k) <==> InFlat(a, stride, k) || InFlat(b, stride, k)
  {
    WholeRows(|a|, stride);
    WholeRows(|b|, stride);
    ChunksOfAppend(a, b, stride, |a| / stride);
    MulAdds(|a| / stride, |b| / stride, stride);
    DivModUnique(|a| + |b|, stride, |a| / stride + |b| / stride, 0);
  }

  lemma RowsAppendAll(a: Bytes, b: Bytes, stride: nat)
    requires stride > 0 && |a| % stride == 0 && |b| % stride == 0
    ensures |a + b| % stride == 0
    ensures forall k :: InFlat(a + b, stride, k) <==> InFlat(a, stride, k) || InFlat(b, stride, k)
  {
    forall k: Bytes
      ensures |a + b| % stride == 0 && (InFlat(a + b, stride, k) <==> InFlat(a, stride, k) || InFlat(b, stride, k))
    {
      RowsAppend(a, b, stride, k);
    }
    RowsAppend(a, b, stride, []);
  }

  /** The pages of a snapshot, each once. */
  ghost predicate Lists(order: seq<int>, m: Snapshot) {
    (forall p :: p in order <==> p in m) && forall i, j :: 0 <= i < j < |order| ==> order[i] != order[j]
  }

  /** Their flat lists, one after the other. */
  ghost function Flats(m: Snapshot, order: seq<int>): Bytes
    requires forall p :: p in order ==> p in m
  {
    if order == [] then [] else
    var p := order[|order| - 1];
    assert p in order;
    Flats(m, order[..|order| - 1]) + m[p]
  }

  lemma ListGrows(m: Snapshot, order: seq<int>, p: int, base: Bytes)
    requires p in m && p !in order && forall q :: q in order ==> q in m
    ensures forall q :: q in order + [p] <==> q in order || q == p
    ensures base + Flats(m, order) + m[p] == base + Flats(m, order + [p])
  {
    assert (order + [p])[..|order|] == order;
    ConcatAssociates(base, Flats(m, order), m[p]);
  }

  /** The flat lists of a snapshot after `base`, in the order the hash map is iterated. */
  method AppendFlats(m: Snapshot, stride: nat, base: Bytes) returns (flat: Bytes, ghost order: seq<int>)
    requires stride > 0 && WholeFlats(m, stride) && |base| % stride == 0
    ensures |flat| % stride == 0
    ensures forall k :: InFlat(flat, stride, k) <==> InFlat(base, stride, k) || HasKey(m, stride, k)
    ensures Lists(order, m) && flat == base + Flats(m, order)
  {
    hide InFlat;
    flat, order := base, [];
    assert base + [] == base;
    var todo := m.Keys;
    while todo != {}
      invariant todo <= m.Keys && |flat| % stride == 0
      invariant forall p :: p in order <==> p in m && p !in todo
      invariant forall i, j :: 0 <= i < j < |order| ==> order[i] != order[j]
      invariant flat == base + Flats(m, order)
      invariant forall k :: InFlat(flat, stride, k) <==> InFlat(base, stride, k) || HasKey(m - todo, stride, k)
    {
      SomePage(todo);
      var p :| p in todo;
      RowsAppendAll(flat, m[p], stride);
      ListGrows(m, order, p, base);
      flat, order := flat + m[p], order + [p];
      ghost var before := m - todo;
      todo := todo - {p};
      OnePageMore(m, stride, before, m - todo, p);
    }
    assert m - {} == m;
  }

  lemma OnePageMore(m: Snapshot, stride: nat, before: Snapshot, after: Snapshot, p: int)
    requires stride > 0 && p in m && p in after && after[p] == m[p]
    requires forall q :: q in after <==> q in before || q == p
    requires forall q :: q in before ==> q != p && q in after && before[q] == after[q]
    ensures forall k :: HasKey(after, stride, k) <==> HasKey(before, stride, k) || InFlat(m[p], stride, k)
  {
    hide InFlat;
    forall k: Bytes
      ensures HasKey(after, stride, k) <==> HasKey(before, stride, k) || InFlat(m[p], stride, k)
    {
      if HasKey(after, stride, k) {
        var q :| q in after && InFlat(after[q], stride, k);
      }
      if HasKey(before, stride, k) {
        var q :| q in before && InFlat(before[q], stride, k);
        assert q in after && InFlat(after[q], stride, k);
      }
    }
  }

  /** The new lists in some order, then the old lists of the pages not rescanned. */
  ghost predicate IsAliveList(prev: Snapshot, news: Snapshot, alive: Bytes) {
    exists first, rest :: Lists(first, news) && Lists(rest, prev - news.Keys) &&
      alive == Flats(news, first) + Flats(prev - news.Keys, rest)
  }

  method AliveFlat(prev: Snapshot, news: Snapshot, stride: nat) returns (alive: Bytes)
    requires stride > 0 && WholeFlats(prev, stride) && WholeFlats(news, stride)
    ensures |alive| % stride == 0
    ensures forall k :: InFlat(alive, stride, k) <==> Alive(prev, news, stride, k)
    ensures IsAliveList(prev, news, alive)
  {
    hide InFlat, Flats;
    NoRows(stride);
    ghost var first, rest;
    alive, first := AppendFlats(news, stride, []);
    assert [] + Flats(news, first) == Flats(news, first);
    alive, rest := AppendFlats(prev - news.Keys, stride, alive);
  }

  lemma HasHead(order: seq<int>)
    ensures order != [] ==> order[0] in order
  {
  }

  lemma ListOfOne(order: seq<int>, m: Snapshot, p: int)
    requires Lists(order, m) && m.Keys == {p}
    ensures order == [p]
  {
    assert p in m && p in order;
    assert order[0] in order && order[|order| - 1] in order;
  }

  /** With one page, old and new, the order is no matter. */
  lemma OnePageAlive(prev: Snapshot, news: Snapshot, alive: Bytes, p: int)
    requires IsAliveList(prev, news, alive) && news.Keys == {p} && prev.Keys <= {p}
    ensures p in news && alive == news[p]
  {
    var first, rest :| Lists(first, news) && Lists(rest, prev - news.Keys) &&
      alive == Flats(news, first) + Flats(prev - news.Keys, rest);
    HasHead(rest);
    ListOfOne(first, news, p);
    assert first == [p] && first[..0] == [];
    assert Flats(news, first) == [] + news[p];
  }

  lemma NoRows(stride: nat)
    requires stride > 0
    ensures forall k :: !InFlat([], stride, k)
  {
  }

  method SortedCopy(flat: Bytes, stride: nat) returns (sorted: Bytes)
    requires stride > 0 && |flat| % stride == 0
    ensures SortDedupResult(flat, stride, sorted)
  {
    hide SortDedupResult;
    var a := new Byte[|flat|](i requires 0 <= i < |flat| => flat[i]);
    assert a[..] == flat;
    var len := FlatPkSortDedup(a, stride);
    sorted := a[..len];
  }

  // ── Emitting ──

  /** What the loop has emitted: no key twice, and exactly the searched keys missing from `alive`. */
  ghost predicate Emitted(emitted: seq<Bytes>, looked: iset<Bytes>, alive: Bytes, stride: nat)
    requires stride > 0
  {
    (forall i, j :: 0 <= i < j < |emitted| ==> emitted[i] != emitted[j]) &&
    forall k :: k in emitted <==> k in looked && !Searched(alive, stride, k)
  }

  /** The delete tuples of the keys: the key's bytes behind a column count. */
  function KeyTuples(nPk: int, keys: seq<Bytes>): Bytes {
    if keys == [] then [] else KeyTuples(nPk, keys[..|keys| - 1]) + (Be16(nPk) + keys[|keys| - 1])
  }

  lemma EmitsOne(emitted: seq<Bytes>, looked: iset<Bytes>, alive: Bytes, stride: nat, k: Bytes)
    requires stride > 0 && Emitted(emitted, looked, alive, stride)
    ensures var more := if !Searched(alive, stride, k) && k !in emitted then emitted + [k] else emitted;
            Emitted(more, looked + iset{k}, alive, stride)
  {
    hide Searched;
  }

  method EmitPage(flat: Bytes, alive: Bytes, stride: nat, nPk: int, buf: Bytes, sofar: seq<Bytes>, ghost base: Bytes,
                  ghost looked: iset<Bytes>)
    returns (out: Bytes, emitted: seq<Bytes>)
    requires stride > 0 && Emitted(sofar, looked, alive, stride) && buf == base + KeyTuples(nPk, sofar)
    ensures Emitted(emitted, looked + (iset k | InFlat(flat, stride, k)), alive, stride)
    ensures out == base + KeyTuples(nPk, emitted)
  {
    hide Bisect, Be16, Emitted, KeyTuples, ISetOf;
    out, emitted := buf, sofar;
    var pks := Chunks(flat, stride);
    ghost var all := looked;
    SetOfNone(looked);
    assert pks[..0] == [];
    for i := 0 to |pks|
      invariant all == looked + ISetOf(pks[..i]) && Emitted(emitted, all, alive, stride)
      invariant out == base + KeyTuples(nPk, emitted)
    {
      var pk := pks[i];
      assert pks[..i + 1] == pks[..i] + [pk];
      SetGrows(looked, pks[..i], pk);
      var found := FlatPkContains(alive, stride, pk);
      EmitsOne(emitted, all, alive, stride, pk);
      all := all + iset{pk};
      if !found && pk !in emitted {
        out := out + Be16(nPk);
        out := out + pk;
        TuplesGrow(base, nPk, emitted, pk);
        emitted := emitted + [pk];
      }
    }
    assert pks[..|pks|] == pks;
    SetOfChunks(flat, stride);
  }

  ghost function ISetOf(s: seq<Bytes>): iset<Bytes> {
    iset k | k in s
  }

  lemma SetOfNone(looked: iset<Bytes>)
    ensures looked + ISetOf([]) == looked
  {
  }

  lemma SetGrows(looked: iset<Bytes>, s: seq<Bytes>, k: Bytes)
    ensures looked + ISetOf(s + [k]) == looked + ISetOf(s) + iset{k}
  {
  }

  lemma SetOfChunks(flat: Bytes, stride: nat)
    requires stride > 0
    ensures ISetOf(Chunks(flat, stride)) == iset k | InFlat(flat, stride, k)
  {
  }

  lemma TuplesGrow(base: Bytes, nPk: int, keys: seq<Bytes>, k: Bytes)
    ensures base + KeyTuples(nPk, keys) + Be16(nPk) + k == base + KeyTuples(nPk, keys + [k])
  {
    hide Be16;
    assert (keys + [k])[..|keys|] == keys;
    ConcatAssociates(base + KeyTuples(nPk, keys), Be16(nPk), k);
    ConcatAssociates(base, KeyTuples(nPk, keys), Be16(nPk) + k);
  }

  ghost predicate OnPages(prev: Snapshot, pages: set<int>, stride: nat, k: Bytes)
    requires stride > 0
  {
    exists p :: p in prev && p in pages && InFlat(prev[p], stride, k)
  }

  lemma SomePage(pages: set<int>)
    requires pages != {}
    ensures exists p :: p in pages
  {
    assert (forall p :: p !in pages) ==> pages == {};
  }

  /** The keys of the old snapshot on the given pages. */
  ghost function LookedAt(prev: Snapshot, pages: set<int>, stride: nat): iset<Bytes>
    requires stride > 0
  {
    iset k | OnPages(prev, pages, stride, k)
  }

  lemma LookedMore(prev: Snapshot, pages: set<int>, p: int, stride: nat)
    requires stride > 0 && p in prev
    ensures LookedAt(prev, pages + {p}, stride) == LookedAt(prev, pages, stride) + (iset k | InFlat(prev[p], stride, k))
  {
    hide InFlat;
    forall k: Bytes
      ensures OnPages(prev, pages + {p}, stride, k) <==> OnPages(prev, pages, stride, k) || InFlat(prev[p], stride, k)
    {
      if OnPages(prev, pages + {p}, stride, k) {
        var q :| q in prev && q in pages + {p} && InFlat(prev[q], stride, k);
        assert q != p ==> q in pages;
      }
      if OnPages(prev, pages, stride, k) {
        var q :| q in prev && q in pages && InFlat(prev[q], stride, k);
        assert q in pages + {p};
      }
      if InFlat(prev[p], stride, k) { assert p in pages + {p}; }
    }
  }

  /** The keys emitted are those of rescanned pages that the search misses in a list of the keys alive. */
  ghost predicate Swept(prev: Snapshot, news: Snapshot, stride: nat, alive: Bytes, keys: seq<Bytes>)
    requires stride > 0
  {
    (forall k :: InFlat(alive, stride, k) <==> Alive(prev, news, stride, k)) &&
    (stride > 64 ==> IsAliveList(prev, news, alive)) &&
    forall k :: k in keys <==> OnPages(prev, news.Keys, stride, k) && !Searched(alive, stride, k)
  }

  /** The diff loop; the order of pages is the hash map's. */
  method ExpressDeletes(prev: Snapshot, news: Snapshot, stride: nat, nPk: int, buf: Bytes)
    returns (out: Bytes, emitted: seq<Bytes>)
    requires stride > 0 && WholeFlats(prev, stride) && WholeFlats(news, stride)
    ensures out == buf + KeyTuples(nPk, emitted)
    ensures forall i, j :: 0 <= i < j < |emitted| ==> emitted[i] != emitted[j]
    ensures stride <= 64 ==> forall k :: k in emitted <==> Vanished(prev, news, stride, k)
    ensures exists alive :: Swept(prev, news, stride, alive, emitted)
  {
    hide InFlat, Searched, SortDedupResult, Be16, IsAliveList;
    var flat := AliveFlat(prev, news, stride);
    var alive := SortedCopy(flat, stride);
    out, emitted := buf, [];
    assert buf + [] == buf;
    var todo := prev.Keys;
    while todo != {}
      invariant todo <= prev.Keys && out == buf + KeyTuples(nPk, emitted)
      invariant Emitted(emitted, LookedAt(prev, news.Keys * (prev.Keys - todo), stride), alive, stride)
    {
      SomePage(todo);
      var p :| p in todo;
      ghost var pages := news.Keys * (prev.Keys - todo);
      todo := todo - {p};
      if p in news {
        out, emitted := EmitPage(prev[p], alive, stride, nPk, out, emitted, buf, LookedAt(prev, pages, stride));
        LookedMore(prev, pages, p, stride);
        assert news.Keys * (prev.Keys - todo) == pages + {p};
      } else {
        assert news.Keys * (prev.Keys - todo) == pages;
      }
    }
    assert news.Keys * (prev.Keys - {}) == news.Keys * prev.Keys;
    EmittedAreVanished(prev, news, stride, flat, alive, emitted);
  }

  lemma EmittedAreVanished(prev: Snapshot, news: Snapshot, stride: nat, flat: Bytes, alive: Bytes, emitted: seq<Bytes>)
    requires stride > 0 && SortDedupResult(flat, stride, alive)
    requires (forall k :: InFlat(flat, stride, k) <==> Alive(prev, news, stride, k)) && IsAliveList(prev, news, flat)
    requires Emitted(emitted, LookedAt(prev, news.Keys * prev.Keys, stride), alive, stride)
    ensures stride <= 64 ==> forall k :: k in emitted <==> Vanished(prev, news, stride, k)
    ensures Swept(prev, news, stride, alive, emitted)
  {
    hide Searched, SortDedupResult, HasKey, IsAliveList;
    if stride > 64 { WideIsUntouched(flat, stride, alive); }
    forall k: Bytes
      ensures k in emitted <==> OnPages(prev, news.Keys, stride, k) && !Searched(alive, stride, k)
      ensures stride <= 64 ==> (k in emitted <==> Vanished(prev, news, stride, k))
      ensures InFlat(alive, stride, k) <==> InFlat(flat, stride, k)
    {
      LookedHas(prev, news, stride, k);
      SortKeepsRow(flat, stride, alive, k);
      if stride <= 64 { SearchFinds(flat, stride, alive, k); }
    }
  }

  lemma WideIsUntouched(flat: Bytes, stride: nat, out: Bytes)
    requires stride > 64 && SortDedupResult(flat, stride, out)
    ensures out == flat
  {
  }

  lemma SortKeepsRow(flat: Bytes, stride: nat, out: Bytes, k: Bytes)
    requires stride > 0 && SortDedupResult(flat, stride, out)
    ensures InFlat(out, stride, k) <==> InFlat(flat, stride, k)
  {
  }

  lemma LookedHas(prev: Snapshot, news: Snapshot, stride: nat, k: Bytes)
    requires stride > 0
    ensures k in LookedAt(prev, news.Keys * prev.Keys, stride) <==>
            exists p :: p in prev && p in news && InFlat(prev[p], stride, k)
    ensures k in LookedAt(prev, news.Keys * prev.Keys, stride) <==> OnPages(prev, news.Keys, stride, k)
  {
    hide InFlat;
    if p :| p in prev && p in news && InFlat(prev[p], stride, k) {
      assert p in news.Keys * prev.Keys;
      assert OnPages(prev, news.Keys * prev.Keys, stride, k) && OnPages(prev, news.Keys, stride, k);
    }
  }

  lemma SearchFinds(flat: Bytes, stride: nat, alive: Bytes, k: Bytes)
    requires 0 < stride <= 64 && SortDedupResult(flat, stride, alive)
    ensures Searched(alive, stride, k) <==> InFlat(flat, stride, k)
  {
    SearchIsMembership(alive, stride, Chunks(flat, stride), k);
  }
}
