/** Which files load, and as what: exactly the listings of tables as they are written, whatever follows them. */
module SnapshotExact {
  import opened Bytes
  import opened Text
  import opened SnapshotFile

  lemma WordFound(data: Bytes, i: nat)
    requires i + 4 <= |data|
    ensures InPlace(data, i, Le32(U32Le(data, i)))
  {
    hide ToLe, FromLe;
    LeRestores(data[i..i + 4]);
  }

  lemma LongFound(data: Bytes, i: nat)
    requires i + 8 <= |data|
    ensures InPlace(data, i, Le64(U64Le(data, i)))
  {
    hide ToLe, FromLe;
    LeRestores(data[i..i + 8]);
  }

  lemma Joins(data: Bytes, i: nat, a: Bytes, b: Bytes)
    requires InPlace(data, i, a) && InPlace(data, i + |a|, b)
    ensures InPlace(data, i, a + b)
  {
    assert data[i..i + |a + b|] == data[i..i + |a|] + data[i + |a|..i + |a| + |b|];
  }

  lemma NothingInPlace(data: Bytes, i: nat)
    requires i <= |data|
    ensures InPlace(data, i, [])
  {
  }

  /** Pages that are read were written there. */
  lemma {:induction false} PagesWritten(data: Bytes, i: nat, n: nat, acc: PageMap) returns (pages: Pages)
    requires i <= |data| && ReadPages(data, i, n, acc).Some?
    ensures |pages| == n && PagesSized(pages) && InPlace(data, i, PagesBytes(pages))
    ensures ReadPages(data, i, n, acc) == Some((Listed(pages, acc), i + |PagesBytes(pages)|))
    decreases n
  {
    hide InPlace, PageBytes, U32Le;
    if n == 0 {
      pages := [];
      NothingInPlace(data, i);
    } else {
      var page := PageWritten(data, i);
      var rest := PagesWritten(data, i + 8 + |page.1|, n - 1, acc[page.0 := page.1]);
      pages := [page] + rest;
      assert pages[1..] == rest;
      Joins(data, i, PageBytes(page), PagesBytes(rest));
    }
  }

  lemma PageWritten(data: Bytes, i: nat) returns (page: (int, Bytes))
    requires i + 8 <= |data| && i + 8 + U32Le(data, i + 4) <= |data|
    ensures page == (U32Le(data, i), data[i + 8..i + 8 + U32Le(data, i + 4)])
    ensures InPlace(data, i, PageBytes(page)) && |PageBytes(page)| == 8 + |page.1|
    ensures 0 <= page.0 < U32_LIMIT && |page.1| < U32_LIMIT
  {
    hide U32Le, InPlace, Le32;
    var length := U32Le(data, i + 4);
    WordLength(U32Le(data, i));
    WordLength(length);
    page := (U32Le(data, i), data[i + 8..i + 8 + length]);
    WordFound(data, i);
    WordFound(data, i + 4);
    assert InPlace(data, i + 8, page.1) by { SliceIsInPlace(data, i + 8, i + 8 + length); }
    Joins(data, i + 4, Le32(length), page.1);
    Joins(data, i, Le32(page.0), Le32(length) + page.1);
  }

  lemma SliceIsInPlace(data: Bytes, i: nat, j: nat)
    requires i <= j <= |data|
    ensures InPlace(data, i, data[i..j])
  {
  }

  lemma HeadWritten(data: Bytes, i: nat, c: Cached)
    requires ReadHead(data, i).Some?
    requires c.pkByteLen == ReadHead(data, i).value.pkByteLen && |c.pages| == ReadHead(data, i).value.nPages
    ensures var h := ReadHead(data, i).value;
            InPlace(data, i, TableHead(h.name, c)) && h.next == i + |TableHead(h.name, c)| &&
            |h.name| < U32_LIMIT && WellFormedUtf8(h.name) && h.pkByteLen < U32_LIMIT && h.nPages < U64_LIMIT
  {
    hide U32Le, U64Le, InPlace, WellFormedUtf8;
    var h := ReadHead(data, i).value;
    var j := i + 4 + U32Le(data, i);
    WordFound(data, i);
    SliceIsInPlace(data, i + 4, j);
    WordFound(data, j);
    LongFound(data, j + 4);
    Joins(data, j, Le32(c.pkByteLen), Le64(|c.pages|));
    Joins(data, i + 4, h.name, Le32(c.pkByteLen) + Le64(|c.pages|));
    Joins(data, i, Le32(|h.name|), h.name + (Le32(c.pkByteLen) + Le64(|c.pages|)));
  }

  lemma TableWritten(data: Bytes, i: nat) returns (table: (Bytes, Cached))
    requires ReadTable(data, i).Some?
    ensures TableSized(table.0, table.1) && InPlace(data, i, TableBytes(table))
    ensures ReadTable(data, i) == Some(Table(table.0, Entry(table.1), i + |TableBytes(table)|))
  {
    hide InPlace, WellFormedUtf8, TableHead, ReadHead, ReadPages, PagesBytes;
    var h := ReadHead(data, i).value;
    var pages := PagesWritten(data, h.next, h.nPages, map[]);
    table := (h.name, Cached(h.pkByteLen, pages));
    HeadWritten(data, i, table.1);
    Joins(data, i, TableHead(h.name, table.1), PagesBytes(pages));
  }

  lemma {:induction false} TablesWritten(data: Bytes, i: nat, n: nat, acc: Loaded)
    returns (tables: seq<(Bytes, Cached)>)
    requires i <= |data| && ReadTables(data, i, n, acc).Some?
    ensures |tables| == n && TablesSized(tables) && InPlace(data, i, TablesBytes(tables))
    ensures ReadTables(data, i, n, acc) == Some((Listed(Entries(tables), acc), i + |TablesBytes(tables)|))
    decreases n
  {
    hide InPlace, ReadTable, TableSized, Entries, TableBytes;
    if n == 0 {
      tables := [];
      NoEntries();
      NothingInPlace(data, i);
    } else {
      var table := TableWritten(data, i);
      var t := ReadTable(data, i).value;
      var rest := TablesWritten(data, t.next, n - 1, acc[t.name := t.entry]);
      tables := [table] + rest;
      assert tables[1..] == rest;
      EntriesListed(tables, acc);
      TableThenTables(table, rest);
      Joins(data, i, TableBytes(table), TablesBytes(rest));
    }
  }

  lemma NoEntries()
    ensures Entries([]) == []
  {
  }

  lemma TableThenTables(table: (Bytes, Cached), rest: seq<(Bytes, Cached)>)
    ensures TablesBytes([table] + rest) == TableBytes(table) + TablesBytes(rest)
  {
    hide TableHead, PagesBytes;
    assert ([table] + rest)[1..] == rest;
    ConcatAssociates(TableHead(table.0, table.1), PagesBytes(table.1.pages), TablesBytes(rest));
  }

  /** The file begins as the listing of these tables is written. */
  ghost predicate Begins(data: Bytes, tables: seq<(Bytes, Cached)>) {
    AllSized(tables) && InPlace(data, 0, FileHead(|tables|) + TablesBytes(tables))
  }

  lemma ListingLoads(data: Bytes, tables: seq<(Bytes, Cached)>)
    requires Begins(data, tables)
    ensures Parsed(data) == Listed(Entries(tables), map[])
  {
    hide ReadTables, TablesBytes, FileHead, Entries, InPlace;
    InPlaceSplits(data, 0, FileHead(|tables|), TablesBytes(tables));
    HeadReads(data, |tables|);
    TablesRoundTrip(data, 16, tables, map[]);
  }

  lemma LoadIsListing(data: Bytes) returns (tables: seq<(Bytes, Cached)>)
    requires Parsed(data) != map[]
    ensures Begins(data, tables)
  {
    hide ReadTables, TablesBytes, Entries, InPlace, U32Le, U64Le, Le32, Le64;
    var n := U64Le(data, 8);
    tables := TablesWritten(data, 16, n, map[]);
    WordFound(data, 4);
    LongFound(data, 8);
    MagicInPlace(data);
    Joins(data, 4, Le32(1), Le64(n));
    Joins(data, 0, FDBS, Le32(1) + Le64(n));
    Joins(data, 0, FileHead(n), TablesBytes(tables));
  }

  lemma MagicInPlace(data: Bytes)
    requires |data| >= 4 && data[..4] == FDBS
    ensures InPlace(data, 0, FDBS)
  {
    assert data[0..4] == data[..4];
  }

  /**
   A file loads as a map with entries if and only if it begins with a listing of tables as
   it is written, names in UTF-8 and sizes within their fields; what follows is ignored, and
   of two entries for one name or page the later counts.
   */
  lemma LoadExact(data: Bytes, m: Loaded)
    requires m != map[]
    ensures Parsed(data) == m <==> exists tables :: Begins(data, tables) && Listed(Entries(tables), map[]) == m
  {
    hide Parsed, Begins, Entries;
    if Parsed(data) == m {
      var tables := LoadIsListing(data);
      ListingLoads(data, tables);
    }
    if tables :| Begins(data, tables) && Listed(Entries(tables), map[]) == m { ListingLoads(data, tables); }
  }
}
