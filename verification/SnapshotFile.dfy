/** The binary side file that carries the per-page key snapshots over a restart. */
module SnapshotFile {
  import opened Bytes
  import opened Text

  const FDBS: Bytes := [70, 68, 66, 83]

  /** The pages of a snapshot in the order its hash map is iterated. */
  type Pages = seq<(int, Bytes)>

  /** What a table's cache contributes: its stride, and its pages in iteration order. */
  datatype Cached = Cached(pkByteLen: nat, pages: Pages)

  /** The caches in iteration order; a table that was never initialised has no cache. */
  type Caches = seq<(Bytes, Option<Cached>)>

  type PageMap = map<int, Bytes>
  datatype Snapshot = Snapshot(pkByteLen: int, pages: PageMap)
  type Loaded = map<Bytes, Snapshot>

  // ── Writing ──

  predicate Written(c: Option<Cached>) {
    c.Some? && c.value.pkByteLen > 0 && c.value.pages != []
  }

  function Kept(caches: Caches): seq<(Bytes, Cached)> {
    if caches == [] then []
    else if Written(caches[0].1) then [(caches[0].0, caches[0].1.value)] + Kept(caches[1..])
    else Kept(caches[1..])
  }

  function PageBytes(page: (int, Bytes)): Bytes {
    Le32(page.0 % U32_LIMIT) + (Le32(|page.1|) + page.1)
  }

  function PagesBytes(pages: Pages): Bytes {
    if pages == [] then [] else PageBytes(pages[0]) + PagesBytes(pages[1..])
  }

  function TableHead(name: Bytes, c: Cached): Bytes {
    Le32(|name|) + (name + (Le32(c.pkByteLen) + Le64(|c.pages|)))
  }

  function TablesBytes(tables: seq<(Bytes, Cached)>): Bytes {
    if tables == [] then []
    else TableHead(tables[0].0, tables[0].1) + (PagesBytes(tables[0].1.pages) + TablesBytes(tables[1..]))
  }

  function FileHead(n: nat): (b: Bytes)
    ensures |b| == 16
  {
    FDBS + (Le32(1) + Le64(n))
  }

  function File(caches: Caches): Bytes {
    FileHead(|Kept(caches)|) + TablesBytes(Kept(caches))
  }

  lemma {:induction false} KeptAppend(caches: Caches, entry: (Bytes, Option<Cached>))
    ensures Kept(caches + [entry]) ==
            Kept(caches) + if Written(entry.1) then [(entry.0, entry.1.value)] else []
  {
    if caches == [] {
      assert (caches + [entry])[1..] == [];
    } else {
      KeptAppend(caches[1..], entry);
      assert (caches + [entry])[1..] == caches[1..] + [entry];
    }
  }

  lemma {:induction false} PagesBytesAppend(pages: Pages, page: (int, Bytes))
    ensures PagesBytes(pages + [page]) == PagesBytes(pages) + PageBytes(page)
  {
    if pages == [] {
      assert (pages + [page])[1..] == [];
      assert PageBytes(page) + [] == PageBytes(page);
      assert [] + PageBytes(page) == PageBytes(page);
    } else {
      PagesBytesAppend(pages[1..], page);
      assert (pages + [page])[1..] == pages[1..] + [page];
      ConcatAssociates(PageBytes(pages[0]), PagesBytes(pages[1..]), PageBytes(page));
    }
  }

  function TableBytes(table: (Bytes, Cached)): Bytes {
    TableHead(table.0, table.1) + PagesBytes(table.1.pages)
  }

  lemma {:induction false} TablesBytesAppend(tables: seq<(Bytes, Cached)>, table: (Bytes, Cached))
    ensures TablesBytes(tables + [table]) == TablesBytes(tables) + TableBytes(table)
  {
    if tables == [] {
      assert (tables + [table])[1..] == [];
      assert PagesBytes(table.1.pages) + [] == PagesBytes(table.1.pages);
      assert [] + TableBytes(table) == TableBytes(table);
    } else {
      TablesBytesAppend(tables[1..], table);
      assert (tables + [table])[1..] == tables[1..] + [table];
      var head, pages := TableHead(tables[0].0, tables[0].1), PagesBytes(tables[0].1.pages);
      var rest, last := TablesBytes(tables[1..]), TableBytes(table);
      ConcatAssociates(pages, rest, last);
      ConcatAssociates(head, pages + rest, last);
    }
  }

  method CountWritten(caches: Caches) returns (n: nat)
    ensures n == |Kept(caches)|
  {
    n := 0;
    assert caches[..|caches|] == caches;
    for k := 0 to |caches|
      invariant n == |Kept(caches[..k])|
    {
      KeptAppend(caches[..k], caches[k]);
      assert caches[..k + 1] == caches[..k] + [caches[k]];
      if Written(caches[k].1) { n := n + 1; }
    }
  }

  method WriteTable(buf: Bytes, name: Bytes, c: Cached) returns (out: Bytes)
    ensures out == buf + TableBytes((name, c))
  {
    out := buf + Le32(|name|);
    out := out + name;
    out := out + Le32(c.pkByteLen);
    out := out + Le64(|c.pages|);
    assert out == buf + TableHead(name, c);
    ghost var head := out;
    assert out == head + [];
    for k := 0 to |c.pages|
      invariant out == head + PagesBytes(c.pages[..k])
    {
      ghost var before := out;
      out := out + Le32(c.pages[k].0 % U32_LIMIT);
      out := out + Le32(|c.pages[k].1|);
      out := out + c.pages[k].1;
      assert out == before + PageBytes(c.pages[k]);
      PagesBytesAppend(c.pages[..k], c.pages[k]);
      assert c.pages[..k + 1] == c.pages[..k] + [c.pages[k]];
      ConcatAssociates(head, PagesBytes(c.pages[..k]), PageBytes(c.pages[k]));
    }
    assert c.pages[..|c.pages|] == c.pages;
    ConcatAssociates(buf, TableHead(name, c), PagesBytes(c.pages));
  }

  /** The file's bytes; writing them next to the target and renaming is left to the caller. */
  method SaveSnapshots(caches: Caches) returns (buf: Bytes)
    ensures buf == File(caches)
  {
    var n := CountWritten(caches);
    buf := FDBS;
    buf := buf + Le32(1);
    buf := buf + Le64(n);
    assert buf == FileHead(n);
    ghost var head := buf;
    assert buf == head + [];
    for k := 0 to |caches|
      invariant buf == head + TablesBytes(Kept(caches[..k]))
    {
      KeptAppend(caches[..k], caches[k]);
      assert caches[..k + 1] == caches[..k] + [caches[k]];
      var (name, c) := caches[k];
      if c.None? || c.value.pkByteLen == 0 || c.value.pages == [] {
        assert Kept(caches[..k]) + [] == Kept(caches[..k]);
        continue;
      }
      TablesBytesAppend(Kept(caches[..k]), (name, c.value));
      ConcatAssociates(head, TablesBytes(Kept(caches[..k])), TableBytes((name, c.value)));
      buf := WriteTable(buf, name, c.value);
    }
    assert caches[..|caches|] == caches;
  }

  // ── Reading ──

  /** `n` pages from offset `i`, inserted into `acc`, and the offset after them. */
  function ReadPages(data: Bytes, i: nat, n: nat, acc: PageMap): (r: Option<(PageMap, nat)>)
    ensures r.Some? && i <= |data| ==> i <= r.value.1 <= |data|
    decreases n
  {
    if n == 0 then Some((acc, i))
    else if i + 8 > |data| || i + 8 + U32Le(data, i + 4) > |data| then None
    else
      var fl := U32Le(data, i + 4);
      ReadPages(data, i + 8 + fl, n - 1, acc[U32Le(data, i) := data[i + 8..i + 8 + fl]])
  }

  datatype Head = Head(name: Bytes, pkByteLen: nat, nPages: nat, next: nat)

  function ReadHead(data: Bytes, i: nat): (r: Option<Head>)
    ensures r.Some? ==> i < r.value.next <= |data|
  {
    if i + 4 > |data| then None else
    var j := i + 4 + U32Le(data, i);
    if j > |data| || !WellFormedUtf8(data[i + 4..j]) || j + 12 > |data| then None
    else Some(Head(data[i + 4..j], U32Le(data, j), U64Le(data, j + 4), j + 12))
  }

  datatype Table = Table(name: Bytes, entry: Snapshot, next: nat)

  function ReadTable(data: Bytes, i: nat): (r: Option<Table>)
    ensures r.Some? ==> i < r.value.next <= |data|
  {
    match ReadHead(data, i)
    case None => None
    case Some(h) =>
      match ReadPages(data, h.next, h.nPages, map[])
      case None => None
      case Some((pages, j)) => Some(Table(h.name, Snapshot(h.pkByteLen, pages), j))
  }

  function ReadTables(data: Bytes, i: nat, n: nat, acc: Loaded): (r: Option<(Loaded, nat)>)
    ensures r.Some? && i <= |data| ==> i <= r.value.1 <= |data|
    decreases n
  {
    if n == 0 then Some((acc, i)) else
    match ReadTable(data, i)
    case None => None
    case Some(t) => ReadTables(data, t.next, n - 1, acc[t.name := t.entry])
  }

  /** What a load yields: the empty map for anything that does not parse. */
  function Parsed(data: Bytes): Loaded {
    if |data| < 16 || data[..4] != FDBS || U32Le(data, 4) != 1 then map[]
    else match ReadTables(data, 16, U64Le(data, 8), map[])
      case None => map[]
      case Some((o, _)) => o
  }

  /** A file that is short, of another kind or of another version loads as the empty map. */
  lemma ForeignFileIsEmpty(data: Bytes)
    requires |data| < 16 || data[..4] != [70, 68, 66, 83] || U32Le(data, 4) != 1
    ensures Parsed(data) == map[]
  {
  }

  method LoadPages(data: Bytes, start: nat, n: nat) returns (r: Option<(PageMap, nat)>)
    requires start <= |data|
    ensures r == ReadPages(data, start, n, map[])
  {
    var i: nat := start;
    var pages: PageMap := map[];
    for k := 0 to n
      invariant i <= |data|
      invariant ReadPages(data, start, n, map[]) == ReadPages(data, i, n - k, pages)
    {
      if i + 8 > |data| { return None; }
      var pn := U32Le(data, i);
      i := i + 4;
      var fl := U32Le(data, i);
      i := i + 4;
      if i + fl > |data| { return None; }
      pages := pages[pn := data[i..i + fl]];
      i := i + fl;
    }
    r := Some((pages, i));
  }

  method LoadHead(data: Bytes, start: nat) returns (r: Option<Head>)
    requires start <= |data|
    ensures r == ReadHead(data, start)
  {
    hide WellFormedUtf8;
    var i := start;
    if i + 4 > |data| { return None; }
    var nl := U32Le(data, i);
    i := i + 4;
    if i + nl > |data| { return None; }
    var name := data[i..i + nl];
    if !WellFormedUtf8(name) { return None; }
    i := i + nl;
    if i + 4 > |data| { return None; }
    var pkByteLen := U32Le(data, i);
    i := i + 4;
    if i + 8 > |data| { return None; }
    r := Some(Head(name, pkByteLen, U64Le(data, i), i + 8));
  }

  method LoadTable(data: Bytes, i: nat) returns (r: Option<Table>)
    requires i <= |data|
    ensures r == ReadTable(data, i)
  {
    var h := LoadHead(data, i);
    if h.None? { return None; }
    var pages := LoadPages(data, h.value.next, h.value.nPages);
    if pages.None? { return None; }
    r := Some(Table(h.value.name, Snapshot(h.value.pkByteLen, pages.value.0), pages.value.1));
  }

  method LoadSnapshots(data: Bytes) returns (o: Loaded)
    ensures o == Parsed(data)
  {
    hide ReadTable;
    if |data| < 16 || data[0..4] != FDBS { return map[]; }
    if U32Le(data, 4) != 1 { return map[]; }
    var n := U64Le(data, 8);
    o := map[];
    var i: nat := 16;
    for k := 0 to n
      invariant i <= |data|
      invariant ReadTables(data, 16, n, map[]) == ReadTables(data, i, n - k, o)
    {
      var t := LoadTable(data, i);
      if t.None? { return map[]; }
      o := o[t.value.name := t.value.entry];
      i := t.value.next;
    }
  }

  // ── Round trip ──

  /** A listing read back as a map, later entries winning. */
  function Listed<K, V>(entries: seq<(K, V)>, acc: map<K, V>): map<K, V> {
    if entries == [] then acc else Listed(entries[1..], acc[entries[0].0 := entries[0].1])
  }

  function Entry(c: Cached): Snapshot {
    Snapshot(c.pkByteLen, Listed(c.pages, map[]))
  }

  function Entries(tables: seq<(Bytes, Cached)>): seq<(Bytes, Snapshot)> {
    seq(|tables|, i requires 0 <= i < |tables| => (tables[i].0, Entry(tables[i].1)))
  }

  /** Sizes and counts fit their fields; page numbers are 32-bit. */
  predicate PagesSized(pages: Pages) {
    pages == [] || (0 <= pages[0].0 < U32_LIMIT && |pages[0].1| < U32_LIMIT && PagesSized(pages[1..]))
  }

  /** As `PagesSized`, and names are text. */
  predicate TablesSized(tables: seq<(Bytes, Cached)>) {
    tables == [] || (TableSized(tables[0].0, tables[0].1) && TablesSized(tables[1..]))
  }

  predicate TableSized(name: Bytes, c: Cached) {
    |name| < U32_LIMIT && WellFormedUtf8(name) &&
    c.pkByteLen < U32_LIMIT && |c.pages| < U64_LIMIT && PagesSized(c.pages)
  }

  predicate AllSized(tables: seq<(Bytes, Cached)>) {
    |tables| < U64_LIMIT && TablesSized(tables)
  }

  lemma WordInPlace(data: Bytes, i: nat, v: nat)
    requires InPlace(data, i, Le32(v)) && v < U32_LIMIT
    ensures i + 4 <= |data| && U32Le(data, i) == v
  {
    Le32At(data, i, v);
  }

  lemma LongInPlace(data: Bytes, i: nat, v: nat)
    requires InPlace(data, i, Le64(v)) && v < U64_LIMIT
    ensures i + 8 <= |data| && U64Le(data, i) == v
  {
    Le64At(data, i, v);
  }

  lemma PageInPlace(data: Bytes, i: nat, page: (int, Bytes))
    requires InPlace(data, i, PageBytes(page)) && 0 <= page.0 < U32_LIMIT && |page.1| < U32_LIMIT
    ensures |PageBytes(page)| == 8 + |page.1|
    ensures i + 8 + |page.1| <= |data| && U32Le(data, i) == page.0 && U32Le(data, i + 4) == |page.1|
    ensures data[i + 8..i + 8 + |page.1|] == page.1
  {
    hide InPlace, U32Le, Le32;
    WordLength(page.0 % U32_LIMIT);
    WordLength(|page.1|);
    InPlaceSplits(data, i, Le32(page.0 % U32_LIMIT), Le32(|page.1|) + page.1);
    InPlaceSplits(data, i + 4, Le32(|page.1|), page.1);
    WordInPlace(data, i, page.0);
    WordInPlace(data, i + 4, |page.1|);
    SliceInPlace(data, i + 8, page.1);
  }

  lemma WordLength(v: nat)
    ensures |Le32(v)| == 4
  {
  }

  lemma SliceInPlace(data: Bytes, i: nat, b: Bytes)
    requires InPlace(data, i, b)
    ensures i + |b| <= |data| && data[i..i + |b|] == b
  {
  }

  lemma {:induction false} PagesRoundTrip(data: Bytes, i: nat, pages: Pages, acc: PageMap)
    requires InPlace(data, i, PagesBytes(pages)) && PagesSized(pages)
    ensures ReadPages(data, i, |pages|, acc) == Some((Listed(pages, acc), i + |PagesBytes(pages)|))
    decreases |pages|
  {
    hide InPlace, PageBytes, U32Le;
    if pages != [] {
      var page := pages[0];
      InPlaceSplits(data, i, PageBytes(page), PagesBytes(pages[1..]));
      PageInPlace(data, i, page);
      PagesRoundTrip(data, i + |PageBytes(page)|, pages[1..], acc[page.0 := page.1]);
    }
  }

  lemma HeadRoundTrip(data: Bytes, i: nat, name: Bytes, c: Cached)
    requires InPlace(data, i, TableHead(name, c))
    requires TableSized(name, c)
    ensures ReadHead(data, i) == Some(Head(name, c.pkByteLen, |c.pages|, i + |TableHead(name, c)|))
  {
    hide WellFormedUtf8;
    var tail := Le32(c.pkByteLen) + Le64(|c.pages|);
    var j := i + 4 + |name|;
    InPlaceSplits(data, i, Le32(|name|), name + tail);
    InPlaceSplits(data, i + 4, name, tail);
    InPlaceSplits(data, j, Le32(c.pkByteLen), Le64(|c.pages|));
    WordInPlace(data, i, |name|);
    WordInPlace(data, j, c.pkByteLen);
    LongInPlace(data, j + 4, |c.pages|);
  }

  lemma {:induction false} TablesRoundTrip(data: Bytes, i: nat, tables: seq<(Bytes, Cached)>, acc: Loaded)
    requires InPlace(data, i, TablesBytes(tables)) && TablesSized(tables)
    ensures ReadTables(data, i, |tables|, acc) ==
            Some((Listed(Entries(tables), acc), i + |TablesBytes(tables)|))
    decreases |tables|
  {
    hide ReadTable;
    if tables != [] {
      var t := TablesFront(data, i, tables);
      var acc' := acc[t.name := t.entry];
      TablesStep(data, i, |tables|, acc, t);
      TablesRoundTrip(data, t.next, tables[1..], acc');
      EntriesListed(tables, acc);
    }
  }

  lemma TablesStep(data: Bytes, i: nat, n: nat, acc: Loaded, t: Table)
    requires n > 0 && ReadTable(data, i) == Some(t)
    ensures ReadTables(data, i, n, acc) == ReadTables(data, t.next, n - 1, acc[t.name := t.entry])
  {
  }

  lemma TablesFront(data: Bytes, i: nat, tables: seq<(Bytes, Cached)>) returns (t: Table)
    requires InPlace(data, i, TablesBytes(tables)) && TablesSized(tables) && tables != []
    ensures ReadTable(data, i) == Some(t) && t.name == tables[0].0 && t.entry == Entry(tables[0].1)
    ensures InPlace(data, t.next, TablesBytes(tables[1..])) && TablesSized(tables[1..])
    ensures i + |TablesBytes(tables)| == t.next + |TablesBytes(tables[1..])|
  {
    hide ReadTable;
    var name, c := tables[0].0, tables[0].1;
    TableRoundTrip(data, i, name, c, TablesBytes(tables[1..]));
    t := ReadTable(data, i).value;
  }

  lemma EntriesListed(tables: seq<(Bytes, Cached)>, acc: Loaded)
    requires tables != []
    ensures Listed(Entries(tables), acc) == Listed(Entries(tables[1..]), acc[tables[0].0 := Entry(tables[0].1)])
  {
    assert Entries(tables)[1..] == Entries(tables[1..]);
  }

  lemma TableRoundTrip(data: Bytes, i: nat, name: Bytes, c: Cached, rest: Bytes)
    requires InPlace(data, i, TableHead(name, c) + (PagesBytes(c.pages) + rest)) && TableSized(name, c)
    ensures var j := i + |TableBytes((name, c))|;
            InPlace(data, j, rest) && ReadTable(data, i) == Some(Table(name, Entry(c), j))
  {
    hide ReadHead, ReadPages;
    var head, pages := TableHead(name, c), PagesBytes(c.pages);
    InPlaceSplits(data, i, head, pages + rest);
    InPlaceSplits(data, i + |head|, pages, rest);
    HeadRoundTrip(data, i, name, c);
    PagesRoundTrip(data, i + |head|, c.pages, map[]);
  }

  lemma HeadReads(f: Bytes, n: nat)
    requires InPlace(f, 0, FileHead(n)) && n < U64_LIMIT
    ensures |f| >= 16 && f[..4] == FDBS && U32Le(f, 4) == 1 && U64Le(f, 8) == n
  {
    InPlaceSplits(f, 0, FDBS, Le32(1) + Le64(n));
    InPlaceSplits(f, 4, Le32(1), Le64(n));
    assert f[..4] == f[0..4];
    WordInPlace(f, 4, 1);
    LongInPlace(f, 8, n);
  }

  lemma FileParses(caches: Caches)
    requires AllSized(Kept(caches))
    ensures var f, kept := File(caches), Kept(caches);
            |f| >= 16 && f[..4] == FDBS && U32Le(f, 4) == 1 && U64Le(f, 8) == |kept| &&
            ReadTables(f, 16, |kept|, map[]) == Some((Listed(Entries(kept), map[]), |f|))
  {
    hide ReadTables, TablesBytes, FileHead, Entries, Kept;
    var f, kept := File(caches), Kept(caches);
    var head, body := FileHead(|kept|), TablesBytes(kept);
    assert InPlace(f, 0, head + body) by { assert f[0..|f|] == f; }
    InPlaceSplits(f, 0, head, body);
    HeadReads(f, |kept|);
    TablesRoundTrip(f, 16, kept, map[]);
  }

  lemma FileIsListing(caches: Caches)
    requires AllSized(Kept(caches))
    ensures Parsed(File(caches)) == Listed(Entries(Kept(caches)), map[])
  {
    FileParses(caches);
  }

  // ── Listings and maps ──

  ghost predicate DistinctKeys<K, V>(entries: seq<(K, V)>) {
    forall i, j :: 0 <= i < j < |entries| ==> entries[i].0 != entries[j].0
  }

  lemma RestDistinct<K, V>(entries: seq<(K, V)>, acc: map<K, V>)
    requires entries != [] && DistinctKeys(entries) && forall i :: 0 <= i < |entries| ==> entries[i].0 !in acc
    ensures DistinctKeys(entries[1..])
    ensures forall i :: 0 <= i < |entries[1..]| ==> entries[1..][i].0 !in acc[entries[0].0 := entries[0].1]
  {
    var rest := entries[1..];
    assert forall i :: 0 <= i < |rest| ==> rest[i] == entries[i + 1];
  }

  lemma {:induction false} EntryListed<K, V>(entries: seq<(K, V)>, acc: map<K, V>, k: K, v: V)
    requires DistinctKeys(entries) && forall i :: 0 <= i < |entries| ==> entries[i].0 !in acc
    ensures k in Listed(entries, acc) && Listed(entries, acc)[k] == v <==>
            (k in acc && acc[k] == v) || (k, v) in entries
    decreases |entries|
  {
    if entries != [] {
      var rest := entries[1..];
      RestDistinct(entries, acc);
      EntryListed(rest, acc[entries[0].0 := entries[0].1], k, v);
      assert entries == [entries[0]] + rest;
      if (k, v) in rest {
        var i :| 0 <= i < |rest| && rest[i] == (k, v);
        assert rest[i] == entries[i + 1];
      }
    }
  }

  /** The entries are those of the map, each once, in some order. */
  ghost predicate IsListing<K(!new), V(!new)>(entries: seq<(K, V)>, m: map<K, V>) {
    DistinctKeys(entries) && forall k, v :: (k, v) in entries <==> k in m && m[k] == v
  }

  /** Reading a listing back gives the map it lists, so its order does not matter. */
  lemma ListedExactly<K(!new), V(!new)>(entries: seq<(K, V)>, m: map<K, V>)
    requires IsListing(entries, m)
    ensures Listed(entries, map[]) == m
  {
    var l := Listed(entries, map[]);
    forall k
      ensures k in l <==> k in m
      ensures k in l && k in m ==> l[k] == m[k]
    {
      if k in l { EntryListed(entries, map[], k, l[k]); }
      if k in m { EntryListed(entries, map[], k, m[k]); }
    }
  }

  /** The program's caches by name; a table that was never initialised has none. */
  type CacheMap = map<Bytes, Option<Snapshot>>

  ghost predicate IsCached(c: Option<Cached>, s: Option<Snapshot>) {
    match c
    case None => s == None
    case Some(cached) =>
      s.Some? && s.value.pkByteLen == cached.pkByteLen && IsListing(cached.pages, s.value.pages)
  }

  /** One order in which the hash map of caches, and the page map of each, can be iterated. */
  ghost predicate Iterates(caches: Caches, m: CacheMap) {
    DistinctKeys(caches) &&
    (forall i :: 0 <= i < |caches| ==> caches[i].0 in m && IsCached(caches[i].1, m[caches[i].0])) &&
    forall name :: name in m ==> exists i :: 0 <= i < |caches| && caches[i].0 == name
  }

  predicate OfUse(s: Option<Snapshot>) {
    s.Some? && s.value.pkByteLen > 0 && s.value.pages != map[]
  }

  lemma {:induction false} KeptIs(caches: Caches, name: Bytes, c: Cached)
    ensures (name, c) in Kept(caches) <==> (name, Some(c)) in caches && Written(Some(c))
  {
    if caches != [] {
      KeptIs(caches[1..], name, c);
      assert caches == [caches[0]] + caches[1..];
    }
  }

  lemma {:induction false} KeptDistinct(caches: Caches)
    requires DistinctKeys(caches)
    ensures DistinctKeys(Kept(caches))
  {
    if caches != [] {
      var rest := caches[1..];
      assert forall i :: 0 <= i < |rest| ==> rest[i] == caches[i + 1];
      KeptDistinct(rest);
      forall j | 0 <= j < |Kept(rest)|
        ensures Kept(rest)[j].0 != caches[0].0
      {
        var (name, c) := Kept(rest)[j];
        KeptIs(rest, name, c);
      }
    }
  }

  lemma EmptyListing(pages: Pages, m: PageMap)
    requires IsListing(pages, m)
    ensures pages == [] <==> m == map[]
  {
    if pages != [] { assert pages[0] in pages && (pages[0].0, pages[0].1) in pages; }
    if m != map[] {
      assert (forall p :: p !in m) ==> m == map[];
      var p :| p in m;
      assert (p, m[p]) in pages;
    }
  }

  lemma CachedUse(c: Option<Cached>, s: Option<Snapshot>)
    requires IsCached(c, s)
    ensures Written(c) <==> OfUse(s)
    ensures c.Some? ==> Entry(c.value) == s.value
  {
    if c.Some? {
      EmptyListing(c.value.pages, s.value.pages);
      ListedExactly(c.value.pages, s.value.pages);
    }
  }

  lemma KeptLists(caches: Caches, m: CacheMap, name: Bytes, s: Snapshot)
    requires Iterates(caches, m)
    ensures (name, s) in Entries(Kept(caches)) <==> name in m && m[name] == Some(s) && OfUse(m[name])
  {
    hide IsCached, Entry, OfUse, Written;
    var kept := Kept(caches);
    if (name, s) in Entries(kept) {
      var j :| 0 <= j < |kept| && Entries(kept)[j] == (name, s);
      assert kept[j] in kept && kept[j] == (name, kept[j].1);
      KeptIs(caches, name, kept[j].1);
      var i :| 0 <= i < |caches| && caches[i] == (name, Some(kept[j].1));
      CachedUse(caches[i].1, m[name]);
      assert m[name].Some? by { UseIsSome(m[name]); }
    }
    if name in m && m[name] == Some(s) && OfUse(m[name]) {
      var i :| 0 <= i < |caches| && caches[i].0 == name;
      CachedUse(caches[i].1, m[name]);
      assert Written(caches[i].1);
      WrittenIsSome(caches[i].1);
      var c := caches[i].1.value;
      assert caches[i] == (name, Some(c));
      KeptIs(caches, name, c);
      var j :| 0 <= j < |kept| && kept[j] == (name, c);
      assert Entries(kept)[j] == (name, s);
    }
  }

  lemma UseIsSome(s: Option<Snapshot>)
    requires OfUse(s)
    ensures s.Some?
  {
  }

  lemma WrittenIsSome(c: Option<Cached>)
    requires Written(c)
    ensures c.Some?
  {
  }

  /**
   Saving and loading gives back exactly the caches with a stride and at least one page,
   whatever order the hash maps are iterated in.
   */
  lemma SnapshotRoundTrip(caches: Caches, m: CacheMap)
    requires Iterates(caches, m) && AllSized(Kept(caches))
    ensures Parsed(File(caches)) == map name | name in m && OfUse(m[name]) :: m[name].value
  {
    hide Iterates, Parsed, File, AllSized, Entry, Kept, OfUse;
    var kept := Entries(Kept(caches));
    var useful := map name | name in m && OfUse(m[name]) :: UsefulSnapshot(m[name]);
    FileIsListing(caches);
    forall name, s
      ensures (name, s) in kept <==> name in useful && useful[name] == s
    {
      KeptLists(caches, m, name, s);
      if name in m && OfUse(m[name]) { UseIsSome(m[name]); }
    }
    assert DistinctKeys(kept) by { EntriesDistinct(caches, m); }
    ListedExactly(kept, useful);
  }

  function UsefulSnapshot(s: Option<Snapshot>): Snapshot
    requires OfUse(s)
  {
    s.value
  }

  lemma EntriesDistinct(caches: Caches, m: CacheMap)
    requires Iterates(caches, m)
    ensures DistinctKeys(Entries(Kept(caches)))
  {
    hide IsCached, Entry, Kept;
    KeptDistinct(caches);
  }

  // ── Counts in the file ──

  /** The table count `load_snapshots` makes room for before it reads any table. */
  function TablesAsked(data: Bytes): Option<nat> {
    if |data| < 16 || data[..4] != FDBS || U32Le(data, 4) != 1 then None else Some(U64Le(data, 8))
  }

  lemma {:induction false} PagesBounded(data: Bytes, i: nat, n: nat, acc: PageMap)
    requires ReadPages(data, i, n, acc).Some? && i <= |data|
    ensures i + 8 * n <= ReadPages(data, i, n, acc).value.1 <= |data|
    decreases n
  {
    if n > 0 {
      var fl := U32Le(data, i + 4);
      PagesBounded(data, i + 8 + fl, n - 1, acc[U32Le(data, i) := data[i + 8..i + 8 + fl]]);
    }
  }

  lemma {:induction false} TablesBounded(data: Bytes, i: nat, n: nat, acc: Loaded)
    requires ReadTables(data, i, n, acc).Some? && i <= |data|
    ensures 16 * n <= |data| - i
    decreases n
  {
    hide ReadTable;
    if n > 0 {
      var t := ReadTable(data, i).value;
      TableLength(data, i);
      TablesBounded(data, t.next, n - 1, acc[t.name := t.entry]);
    }
  }

  /** A table that loads has 16 bytes for its head and 8 for each page it counts. */
  lemma TableLength(data: Bytes, i: nat)
    requires ReadTable(data, i).Some?
    ensures ReadHead(data, i).Some?
    ensures i + 16 + 8 * ReadHead(data, i).value.nPages <= ReadTable(data, i).value.next <= |data|
  {
    hide WellFormedUtf8;
    var h := ReadHead(data, i).value;
    PagesBounded(data, h.next, h.nPages, map[]);
  }

  /**
   A file that loads as anything but the empty map has at least 16 bytes per table counted,
   so a count the file cannot hold is always a damaged one.
   */
  lemma CountFitsFile(data: Bytes)
    requires Parsed(data) != map[]
    ensures TablesAsked(data).Some? && 16 * TablesAsked(data).value <= |data| - 16
  {
    hide ReadTables;
    TablesBounded(data, 16, U64Le(data, 8), map[]);
  }

  /** Sixteen bytes are enough to have room made for any number of tables and then load as the empty map. */
  lemma DamagedCountIsAsked(n: nat)
    requires 0 < n < U64_LIMIT
    ensures TablesAsked(FileHead(n)) == Some(n) && Parsed(FileHead(n)) == map[]
  {
    hide ReadTables, FileHead;
    var f := FileHead(n);
    assert InPlace(f, 0, f) by { assert f[0..|f|] == f; }
    HeadReads(f, n);
    if Parsed(f) != map[] { CountFitsFile(f); }
  }

  // ── Torn files ──

  lemma WordExtends(data: Bytes, more: Bytes, i: nat)
    requires i + 4 <= |data|
    ensures U32Le(data + more, i) == U32Le(data, i)
  {
    assert (data + more)[i..i + 4] == data[i..i + 4];
  }

  lemma {:induction false} PagesExtend(data: Bytes, more: Bytes, i: nat, n: nat, acc: PageMap)
    requires ReadPages(data, i, n, acc).Some?
    ensures ReadPages(data + more, i, n, acc) == ReadPages(data, i, n, acc)
    decreases n
  {
    if n > 0 {
      WordExtends(data, more, i);
      WordExtends(data, more, i + 4);
      var fl := U32Le(data, i + 4);
      assert (data + more)[i + 8..i + 8 + fl] == data[i + 8..i + 8 + fl];
      PagesExtend(data, more, i + 8 + fl, n - 1, acc[U32Le(data, i) := data[i + 8..i + 8 + fl]]);
    }
  }

  lemma SliceExtends(data: Bytes, more: Bytes, i: nat, j: nat)
    requires i <= j <= |data|
    ensures (data + more)[i..j] == data[i..j]
  {
  }

  lemma HeadExtends(data: Bytes, more: Bytes, i: nat)
    requires ReadHead(data, i).Some?
    ensures ReadHead(data + more, i) == ReadHead(data, i)
  {
    hide WellFormedUtf8;
    WordExtends(data, more, i);
    var j := i + 4 + U32Le(data, i);
    WordExtends(data, more, j);
    SliceExtends(data, more, i + 4, j);
    SliceExtends(data, more, j + 4, j + 12);
  }

  lemma {:induction false} TablesExtend(data: Bytes, more: Bytes, i: nat, n: nat, acc: Loaded)
    requires ReadTables(data, i, n, acc).Some?
    ensures ReadTables(data + more, i, n, acc) == ReadTables(data, i, n, acc)
    decreases n
  {
    hide ReadTable;
    if n > 0 {
      TableExtends(data, more, i);
      var t := ReadTable(data, i).value;
      TablesExtend(data, more, t.next, n - 1, acc[t.name := t.entry]);
    }
  }

  lemma TableExtends(data: Bytes, more: Bytes, i: nat)
    requires ReadTable(data, i).Some?
    ensures ReadTable(data + more, i) == ReadTable(data, i)
  {
    hide ReadHead, ReadPages;
    HeadExtends(data, more, i);
    var h := ReadHead(data, i).value;
    PagesExtend(data, more, h.next, h.nPages, map[]);
  }

  lemma CutHead(f: Bytes, k: nat)
    requires 16 <= k <= |f|
    ensures f[..k][..4] == f[..4] && U32Le(f[..k], 4) == U32Le(f, 4) && U64Le(f[..k], 8) == U64Le(f, 8)
  {
    assert f[..k][4..8] == f[4..8] && f[..k][8..16] == f[8..16];
  }

  /** A saved file cut anywhere before its end loads as the empty map. */
  lemma TornFileIsEmpty(caches: Caches, k: nat)
    requires AllSized(Kept(caches)) && k < |File(caches)|
    ensures Parsed(File(caches)[..k]) == map[]
  {
    hide ReadTables, File, Kept, Entries, TablesBytes, FileHead, U32Le, U64Le, Listed;
    var f, n := File(caches), |Kept(caches)|;
    var cut, more := f[..k], f[k..];
    assert cut + more == f;
    FileParses(caches);
    if k >= 16 {
      CutHead(f, k);
      if ReadTables(cut, 16, n, map[]).Some? {
        TablesExtend(cut, more, 16, n, map[]);
      }
    }
  }
}
