/** Full extraction of a table as one COPY stream, and its agreement with change capture. */
module Extract {
  import opened Bytes
  import opened Fields
  import opened Keys
  import opened Ods
  import opened Changes
  import opened RecordScan
  import opened Express
  import opened Scan
  import opened ScanFacts
  import opened Live
  import opened Places
  import opened ScanPlaces
  import PgCopy

  /** A relation's columns: field ids in column order, and the descriptors of its formats. */
  datatype Relation = Relation(scaling: Scaling, fieldOrder: seq<nat>, latest: seq<Desc>, formats: map<int, seq<Desc>>)
  {
    /** Descriptor lengths are 16 bits wide, and no type is one the writer panics on. */
    ghost predicate Valid() {
      AllUsable(latest) && Short(latest) && forall f :: f in formats ==> AllUsable(formats[f]) && Short(formats[f])
    }

    ghost predicate Short(descs: seq<Desc>) {
      forall i :: 0 <= i < |descs| ==> descs[i].length < U16_LIMIT
    }

    function Descs(format: int): seq<Desc> {
      if format in formats then formats[format] else latest
    }

    function SlotsOf(format: int): seq<CopySlot> {
      SlotsForFormat(fieldOrder, Descs(format))
    }
  }

  /** The record of a slot: a fragmented head is put together, anything but a current version dropped. */
  function ExtractedRecord(db: Db, raw: Bytes): Option<Bytes>
    requires HasHeader(raw)
  {
    if Has(raw, RHD_INCOMPLETE) &&
      !(Has(raw, RHD_DELETED) || Has(raw, RHD_FRAGMENT) || Has(raw, RHD_BLOB) || Has(raw, RHD_CHAIN))
    then Reassembled(db, raw, [], MAX_FRAGMENTS)
    else RecordCurrent(raw)
  }

  function CopyRow(rec: Bytes, slots: seq<CopySlot>, scaling: Scaling): (row: Row)
    ensures |row| == |slots|
  {
    seq(|slots|, i requires 0 <= i < |slots| => CopyField(rec, slots[i], scaling))
  }

  function ExtractedRow(rel: Relation, db: Db, raw: Bytes): Option<Row>
    requires HasHeader(raw)
  {
    match ExtractedRecord(db, raw)
    case None => None
    case Some(rec) => Some(CopyRow(rec, rel.SlotsOf(Format(raw)), rel.scaling))
  }

  /** The rows of a page's first `n` slots. A slot too short for a header, a panic in the source, gives none. */
  function SlotRows(rel: Relation, db: Db, page: Bytes, n: nat): seq<Row> {
    if n == 0 then [] else
    match SlotBytes(page, n - 1)
    case None => SlotRows(rel, db, page, n - 1)
    case Some(raw) => SlotRows(rel, db, page, n - 1) + if HasHeader(raw) then ToSeq(ExtractedRow(rel, db, raw)) else []
  }

  function PageRows(rel: Relation, db: Db, pages: seq<int>): seq<Row> {
    if pages == [] then [] else
    var p := db.Page(pages[|pages| - 1]);
    PageRows(rel, db, pages[..|pages| - 1]) + if IsDataPage(p) then SlotRows(rel, db, p, SlotCount(p)) else []
  }

  /** No usable slot of the listed data pages is shorter than a record header. */
  ghost predicate NoShortSlots(db: Db, pages: seq<int>) {
    forall p, raw :: p in pages && IsDataPage(db.Page(p)) && OnPage(db.Page(p), raw) ==> HasHeader(raw)
  }

  // ── Writing ──

  method WriteCopyFields(rec: Bytes, slots: seq<CopySlot>, scaling: Scaling, base: Bytes) returns (out: Bytes)
    requires forall i :: 0 <= i < |slots| ==> slots[i].slot.desc.Usable() && slots[i].slot.desc.dtype != DTYPE_DBKEY
    ensures out == base + EncodeFields(CopyRow(rec, slots, scaling))
  {
    hide FieldOf, NullBit, EncodeField, EncodeFields, Desc.Usable;
    ghost var row := CopyRow(rec, slots, scaling);
    out := base;
    assert row[..0] == [];
    NoFields(base);
    for i := 0 to |slots|
      invariant out == base + EncodeFields(row[..i])
    {
      if slots[i].present {
        out := WriteSlot(rec, slots[i].slot, scaling, out);
      } else {
        NullField();
        out := out + Be32(-1);
      }
      assert row[..i + 1] == row[..i] + [row[i]];
      EncodeFieldsAppend(row[..i], row[i]);
      ConcatAssociates(base, EncodeFields(row[..i]), EncodeField(row[i]));
    }
    assert row[..|slots|] == row;
  }

  lemma NullField()
    ensures EncodeField(Null) == Be32(-1)
  {
  }

  lemma CopySlotsUsable(rel: Relation, format: int)
    requires rel.Valid()
    ensures forall i :: 0 <= i < |rel.SlotsOf(format)| ==>
              rel.SlotsOf(format)[i].slot.desc.Usable() && rel.SlotsOf(format)[i].slot.desc.dtype != DTYPE_DBKEY &&
              rel.SlotsOf(format)[i].slot.desc.length < U16_LIMIT
  {
    assert AllUsable(rel.Descs(format)) && rel.Short(rel.Descs(format));
  }

  /** One slot: its row, if it has one, after the stream so far. */
  method CopyRecord(rel: Relation, db: Db, raw: Bytes, buf: Bytes, ghost rows: seq<Row>) returns (out: Bytes,
      taken: bool)
    requires rel.Valid() && HasHeader(raw) && buf == Opened(rows)
    ensures out == Opened(rows + ToSeq(ExtractedRow(rel, db, raw))) && (taken <==> ExtractedRow(rel, db, raw).Some?)
  {
    hide Has, RecordCurrent, Reassembled, Opened, Be16, EncodeFields, Relation.SlotsOf, Desc.Usable;
    out, taken := buf, false;
    AddNothing(rows);
    var rec;
    if Has(raw, RHD_INCOMPLETE) &&
      !(Has(raw, RHD_DELETED) || Has(raw, RHD_FRAGMENT) || Has(raw, RHD_BLOB) || Has(raw, RHD_CHAIN)) {
      var whole := ReassembleFragments(db, raw);
      if whole == None { return; }
      rec := whole.value;
    } else {
      var ok;
      ok, rec := UnpackRecordInto(raw, []);
      if !ok { return; }
    }
    taken := true;
    var slots := rel.SlotsOf(Format(raw));
    CopySlotsUsable(rel, Format(raw));
    ColumnCount(rel, Format(raw));
    out := out + Be16(|rel.fieldOrder|);
    out := WriteCopyFields(rec, slots, rel.scaling, out);
    OpenedGrows(buf, rows, Be16(|rel.fieldOrder|), CopyRow(rec, slots, rel.scaling));
  }

  lemma ColumnCount(rel: Relation, format: int)
    ensures |rel.SlotsOf(format)| == |rel.fieldOrder|
  {
  }

  method CopyPage(rel: Relation, db: Db, page: Bytes, buf: Bytes, ghost rows: seq<Row>) returns (out: Bytes, count: nat)
    requires rel.Valid() && buf == Opened(rows) && forall raw :: OnPage(page, raw) ==> HasHeader(raw)
    ensures out == Opened(rows + SlotRows(rel, db, page, SlotCount(page))) &&
            count == |SlotRows(rel, db, page, SlotCount(page))|
  {
    hide Opened, ExtractedRow, SlotBytes, SlotCount, Relation.Valid;
    out, count := buf, 0;
    AddNothing(rows);
    var cnt := SlotCount(page);
    for s := 0 to cnt
      invariant out == Opened(rows + SlotRows(rel, db, page, s)) && count == |SlotRows(rel, db, page, s)|
    {
      var slot := SlotBytes(page, s);
      if slot.Some? {
        assert OnPage(page, slot.value);
        var taken;
        ghost var done := SlotRows(rel, db, page, s);
        out, taken := CopyRecord(rel, db, slot.value, out, rows + done);
        ConcatAssociates(rows, done, ToSeq(ExtractedRow(rel, db, slot.value)));
        if taken { count := count + 1; }
      }
    }
  }

  /** The whole stream: header, every row of every listed data page in order, trailer. */
  method WriteCopyStream(rel: Relation, db: Db, pages: seq<int>) returns (out: Bytes, count: nat)
    requires rel.Valid() && NoShortSlots(db, pages)
    ensures out == PgCopy.Stream(PageRows(rel, db, pages)) && count == |PageRows(rel, db, pages)|
  {
    hide Opened, SlotRows, SlotCount, Relation.Valid, IsDataPage, OnPage;
    out, count := PgCopy.Header(), 0;
    NothingOpened();
    assert pages[..0] == [];
    for i := 0 to |pages|
      invariant out == Opened(PageRows(rel, db, pages[..i])) && count == |PageRows(rel, db, pages[..i])|
    {
      var page := db.Page(pages[i]);
      ghost var done := PageRows(rel, db, pages[..i]);
      assert pages[..i + 1][..i] == pages[..i];
      AddNothing(done);
      if IsDataPage(page) {
        var n;
        out, n := CopyPage(rel, db, page, out, done);
        count := count + n;
      }
    }
    assert pages[..|pages|] == pages;
    OpenedIs(PageRows(rel, db, pages));
    out := out + PgCopy.Trailer();
  }

  lemma NothingOpened()
    ensures PgCopy.Header() == Opened([])
  {
    hide PgCopy.Header;
    AddNothing(PgCopy.Header());
  }

  lemma OpenedIs(rows: seq<Row>)
    ensures Opened(rows) + PgCopy.Trailer() == PgCopy.Stream(rows)
  {
  }

  // ── What the stream reads back as ──

  /** With 16-bit descriptor lengths every field fits its length word, however long the record. */
  lemma ShortFieldFits(rec: Bytes, d: Desc, scaling: Scaling)
    requires d.length < U16_LIMIT
    ensures FieldOf(rec, d, scaling).Fits()
  {
    hide TrimmedText, Be16, Be32, Be64, Int16, Int32, Int64, U32Le, U64Le;
    var s := d.offset;
    if d.dtype == DTYPE_TEXT || d.dtype == DTYPE_CSTRING {
      var end := Min(s + d.length, |rec|);
      if end > s { TextFits(rec[s..end], 0); }
    } else if d.dtype == DTYPE_VARYING {
      if s + 2 <= |rec| {
        var data := rec[s + 2..Min(s + 2 + U16Le(rec, s), |rec|)];
        TextFits(data, |data|);
      }
    }
  }

  lemma CopyRowFits(rel: Relation, rec: Bytes, format: int)
    requires rel.Valid()
    ensures PgCopy.AllFit(CopyRow(rec, rel.SlotsOf(format), rel.scaling))
  {
    hide FieldOf, NullBit, Relation.SlotsOf, Relation.Valid, Desc.Usable;
    CopySlotsUsable(rel, format);
    var slots := rel.SlotsOf(format);
    var row := CopyRow(rec, slots, rel.scaling);
    forall i | 0 <= i < |row|
      ensures row[i].Fits()
    {
      ShortFieldFits(rec, slots[i].slot.desc, rel.scaling);
    }
    RowsFit(row);
  }

  lemma {:induction false} UniformConcat(a: seq<Row>, b: seq<Row>, n: nat)
    requires PgCopy.Uniform(a, n) && PgCopy.Uniform(b, n)
    ensures PgCopy.Uniform(a + b, n)
  {
    hide PgCopy.AllFit;
    if a == [] {
      assert a + b == b;
    } else {
      UniformConcat(a[1..], b, n);
      assert (a + b)[1..] == a[1..] + b;
    }
  }

  lemma {:induction false} SlotRowsUniform(rel: Relation, db: Db, page: Bytes, n: nat)
    requires rel.Valid()
    ensures PgCopy.Uniform(SlotRows(rel, db, page, n), |rel.fieldOrder|)
  {
    hide SlotBytes, Relation.SlotsOf, Relation.Valid, ExtractedRecord, PgCopy.AllFit;
    if n > 0 {
      SlotRowsUniform(rel, db, page, n - 1);
      var slot := SlotBytes(page, n - 1);
      if slot.Some? && HasHeader(slot.value) && ExtractedRecord(db, slot.value).Some? {
        CopyRowFits(rel, ExtractedRecord(db, slot.value).value, Format(slot.value));
        ColumnCount(rel, Format(slot.value));
        var row := ExtractedRow(rel, db, slot.value).value;
        assert PgCopy.Uniform([row], |rel.fieldOrder|);
        UniformConcat(SlotRows(rel, db, page, n - 1), [row], |rel.fieldOrder|);
      } else {
        AddNothing(SlotRows(rel, db, page, n - 1));
      }
    }
  }

  lemma {:induction false} PageRowsUniform(rel: Relation, db: Db, pages: seq<int>)
    requires rel.Valid()
    ensures PgCopy.Uniform(PageRows(rel, db, pages), |rel.fieldOrder|)
  {
    hide SlotRows, SlotCount, IsDataPage, Relation.Valid;
    if pages != [] {
      var n := |pages| - 1;
      var page := db.Page(pages[n]);
      PageRowsUniform(rel, db, pages[..n]);
      SlotRowsUniform(rel, db, page, SlotCount(page));
      var more := if IsDataPage(page) then SlotRows(rel, db, page, SlotCount(page)) else [];
      UniformConcat(PageRows(rel, db, pages[..n]), more, |rel.fieldOrder|);
    }
  }

  /** For any mix of record formats the stream reads back as the extracted rows, each with every column. */
  lemma CopyStreamParses(rel: Relation, db: Db, pages: seq<int>)
    requires rel.Valid()
    ensures PgCopy.ParseCopy(PgCopy.Stream(PageRows(rel, db, pages)), |rel.fieldOrder|) ==
            Some(PageRows(rel, db, pages)) <==>
            (PageRows(rel, db, pages) == [] || |rel.fieldOrder| < 0x8000)
  {
    hide PageRows, Relation.Valid, PgCopy.Stream, PgCopy.ParseCopy;
    PageRowsUniform(rel, db, pages);
    PgCopy.StreamParses(PageRows(rel, db, pages), |rel.fieldOrder|);
  }

  // ── Which rows they are ──

  /** The row a slot gives. */
  ghost function ExtractedAt(rel: Relation, db: Db, pages: seq<int>): Place -> Option<Row> {
    (at: Place) =>
      var r := RecordAt(db, pages, at);
      if r.Some? && HasHeader(r.value) then ExtractedRow(rel, db, r.value) else None
  }

  lemma {:induction false} SlotRowsInOrder(rel: Relation, db: Db, pages: seq<int>, i: nat, n: nat, rows: seq<Row>)
    requires i < |pages| && Visited(db, pages[i]) && n <= SlotCount(db.Page(pages[i]))
    requires InOrder(ExtractedAt(rel, db, pages), Place(i, 0), rows)
    ensures InOrder(ExtractedAt(rel, db, pages), Place(i, n), rows + SlotRows(rel, db, db.Page(pages[i]), n))
  {
    hide SlotBytes, SlotCount, ExtractedRow, InOrder;
    var page := db.Page(pages[i]);
    AddNothing(rows);
    if n > 0 {
      SlotRowsInOrder(rel, db, pages, i, n - 1, rows);
      var sofar := SlotRows(rel, db, page, n - 1);
      SlotInOrder(ExtractedAt(rel, db, pages), i, n - 1, rows + sofar);
      var more := ToSeq(ExtractedAt(rel, db, pages)(Place(i, n - 1)));
      ConcatAssociates(rows, sofar, more);
      AddNothing(rows + sofar);
      AddNothing(sofar);
    }
  }

  lemma {:induction false} PageRowsInOrder(rel: Relation, db: Db, pages: seq<int>, n: nat)
    requires n <= |pages|
    ensures InOrder(ExtractedAt(rel, db, pages), Place(n, 0), PageRows(rel, db, pages[..n]))
  {
    hide SlotBytes, SlotCount, SlotRows, ExtractedRow, InOrder, IsDataPage;
    var f := ExtractedAt(rel, db, pages);
    if n == 0 {
      NoRowsYet(f);
    } else {
      var i := n - 1;
      var page, done := db.Page(pages[i]), PageRows(rel, db, pages[..i]);
      assert pages[..n][..i] == pages[..i];
      PageRowsInOrder(rel, db, pages, i);
      AddNothing(done);
      if IsDataPage(page) {
        SlotRowsInOrder(rel, db, pages, i, SlotCount(page), done);
        PageInOrder(f, i, SlotCount(page), done + SlotRows(rel, db, page, SlotCount(page)));
      } else {
        PageInOrder(f, i, 0, done);
      }
    }
  }

  lemma NoRowsYet(f: Place -> Option<Row>)
    ensures InOrder(f, START, [])
  {
  }

  /**
   The stream's rows are those of the listed data pages' slots, in the order of pages and
   slots: a row is in it as often as there are slots that give it, and there is no other.
   */
  lemma ExtractionIsExact(rel: Relation, db: Db, pages: seq<int>, row: Row)
    ensures var rows, f, end := PageRows(rel, db, pages), ExtractedAt(rel, db, pages), Place(|pages|, 0);
            InOrder(f, end, rows) && multiset(rows)[row] == |PlacesOf(f, end, row)| &&
            |rows| == |PlacesBefore(f, end)| &&
            (row in rows <==>
              exists p, raw :: Listed(db, pages, p, raw) && HasHeader(raw) && ExtractedRow(rel, db, raw) == Some(row))
  {
    hide SlotBytes, PageRows, ExtractedRow, InOrder, IsDataPage, PlacesOf, PlacesBefore;
    var rows, f, end := PageRows(rel, db, pages), ExtractedAt(rel, db, pages), Place(|pages|, 0);
    assert pages[..|pages|] == pages;
    PageRowsInOrder(rel, db, pages, |pages|);
    Counts(f, end, rows, row);
    if at: Place :| at.Before(end) && f(at) == Some(row) {
      assert Listed(db, pages, pages[at.index], RecordAt(db, pages, at).value);
    }
    if p, raw :| Listed(db, pages, p, raw) && HasHeader(raw) && ExtractedRow(rel, db, raw) == Some(row) {
      var at := PlaceOf(db, pages, p, raw);
    }
  }

  lemma PlaceOf(db: Db, pages: seq<int>, p: int, raw: Bytes) returns (at: Place)
    requires Listed(db, pages, p, raw)
    ensures RecordAt(db, pages, at) == Some(raw) && at.Before(Place(|pages|, 0)) && pages[at.index] == p
  {
    hide SlotBytes, SlotCount, IsDataPage;
    var s :| 0 <= s < SlotCount(db.Page(p)) && SlotBytes(db.Page(p), s) == Some(raw);
    var i :| 0 <= i < |pages| && pages[i] == p;
    at := Place(i, s);
  }

  // ── Extraction and change capture ──

  /** The schema change capture caches for the relation. */
  function CdcSchema(rel: Relation, pk: PkIndices): Schema
    requires InRange(pk, |rel.fieldOrder|)
  {
    SchemaOf(rel.scaling, rel.fieldOrder, rel.latest, rel.formats, pk)
  }

  lemma SameColumns(rel: Relation, pk: PkIndices, rec: Bytes, format: int)
    requires InRange(pk, |rel.fieldOrder|)
    ensures CopyRow(rec, rel.SlotsOf(format), rel.scaling) == RecordRow(CdcSchema(rel, pk), rec, format)
  {
    hide FieldOf, NullBit, Stride;
    var row := CopyRow(rec, rel.SlotsOf(format), rel.scaling);
    var other := RecordRow(CdcSchema(rel, pk), rec, format);
    forall i | 0 <= i < |rel.fieldOrder|
      ensures row[i] == other[i]
    {
      DecodersAgree(rec, rel.fieldOrder, rel.Descs(format), rel.scaling, i);
    }
  }

  /**
   Extraction takes from a slot exactly the live row change capture sees, except for the
   head of a fragmented record: extraction puts it together, change capture never sees it.
   */
  lemma ExtractionSeesLiveRows(rel: Relation, pk: PkIndices, db: Db, raw: Bytes)
    requires InRange(pk, |rel.fieldOrder|) && HasHeader(raw)
    ensures !Has(raw, RHD_INCOMPLETE) ==> ExtractedRow(rel, db, raw) == LiveRow(CdcSchema(rel, pk), raw)
    ensures Has(raw, RHD_INCOMPLETE) ==> LiveRow(CdcSchema(rel, pk), raw) == None
    ensures ExtractedRow(rel, db, raw) == LiveRow(CdcSchema(rel, pk), raw) <==>
            !Has(raw, RHD_INCOMPLETE) || ExtractedRecord(db, raw) == None
  {
    hide Has, PayloadFrom, DataStart, Reassembled, Relation.SlotsOf, CopyRow, RecordRow, CdcSchema;
    if RecordCurrent(raw).Some? {
      SameColumns(rel, pk, RecordCurrent(raw).value, Format(raw));
    }
  }

  /** The head of a current record that was written in fragments. */
  predicate IsHead(raw: Bytes) {
    HasHeader(raw) && Has(raw, RHD_INCOMPLETE) && !Has(raw, RHD_DELETED) && !Has(raw, RHD_FRAGMENT) &&
    !Has(raw, RHD_BLOB) && !Has(raw, RHD_CHAIN)
  }

  /** The row is that of the pieces of the chain that the head starts, in the head's format. */
  ghost predicate IsChainRow(schema: Schema, db: Db, raw: Bytes, chain: seq<Bytes>, row: Row) {
    IsHead(raw) && Linked(db, chain) && |chain| <= 4096 && chain[0] == raw &&
    row == RecordRow(schema, Pieces(db, chain), Format(raw))
  }

  /** A slot gives its live row, or the row of a fragmented record it is the head of. */
  lemma ExtractedIs(rel: Relation, pk: PkIndices, db: Db, raw: Bytes, row: Row)
    requires InRange(pk, |rel.fieldOrder|) && HasHeader(raw)
    ensures var schema := CdcSchema(rel, pk);
            ExtractedRow(rel, db, raw) == Some(row) <==>
            LiveRow(schema, raw) == Some(row) || exists chain :: IsChainRow(schema, db, raw, chain, row)
  {
    hide Has, PayloadFrom, DataStart, Reassembled, Relation.SlotsOf, CopyRow, RecordRow, CdcSchema, FragmentAt, Pieces;
    var schema := CdcSchema(rel, pk);
    ExtractionSeesLiveRows(rel, pk, db, raw);
    if IsHead(raw) {
      if ExtractedRow(rel, db, raw) == Some(row) {
        var rec := Reassembled(db, raw, [], MAX_FRAGMENTS).value;
        SameColumns(rel, pk, rec, Format(raw));
        ReassemblyExact(db, raw, rec);
        var chain :| Linked(db, chain) && |chain| <= MAX_FRAGMENTS && chain[0] == raw && Pieces(db, chain) == rec;
        assert IsChainRow(schema, db, raw, chain, row);
      }
      if chain :| IsChainRow(schema, db, raw, chain, row) {
        ReassemblyExact(db, raw, Pieces(db, chain));
        SameColumns(rel, pk, Pieces(db, chain), Format(raw));
      }
    }
  }

  /** The stream holds the live rows of the listed pages and the rows of fragmented records, and no others. */
  lemma ExtractionIsLive(rel: Relation, pk: PkIndices, db: Db, pages: seq<int>, row: Row)
    requires InRange(pk, |rel.fieldOrder|)
    ensures var schema := CdcSchema(rel, pk);
            row in PageRows(rel, db, pages) <==>
            (exists p, raw :: Listed(db, pages, p, raw) && LiveRow(schema, raw) == Some(row)) ||
            exists p, raw, chain :: Listed(db, pages, p, raw) && IsChainRow(schema, db, raw, chain, row)
  {
    hide LiveRow, PageRows, Listed, ExtractedRow, CdcSchema, IsChainRow, InOrder, PlacesOf, PlacesBefore;
    var schema := CdcSchema(rel, pk);
    ExtractionIsExact(rel, db, pages, row);
    forall raw
      ensures HasHeader(raw) && ExtractedRow(rel, db, raw) == Some(row) <==>
              LiveRow(schema, raw) == Some(row) || exists chain :: IsChainRow(schema, db, raw, chain, row)
    {
      if HasHeader(raw) { ExtractedIs(rel, pk, db, raw, row); } else { NoHeaderNoRow(schema, db, raw); }
    }
  }

  lemma NoHeaderNoRow(schema: Schema, db: Db, raw: Bytes)
    requires !HasHeader(raw)
    ensures LiveRow(schema, raw) == None && forall chain, row :: !IsChainRow(schema, db, raw, chain, row)
  {
  }

  // ── The first scan ──

  /**
   What makes a scan take from a record what extraction takes: it is no head of a readable
   chain; a back version is not new; a live one is new and its page's generation moved.
   */
  ghost predicate SeenAlike(rel: Relation, v: View, gens: Gens, p: int, raw: Bytes) {
    HasHeader(raw) ==>
      if Has(raw, RHD_INCOMPLETE) then ExtractedRow(rel, v.db, raw) == None
      else if Has(raw, RHD_CHAIN) then !(Changed(v.db, gens, p) && IsNew(v, raw) && ChangedRow(v.schema, raw).Some?)
      else LiveRow(v.schema, raw).Some? ==> Changed(v.db, gens, p) && IsNew(v, raw)
  }

  lemma AlikeIff(rel: Relation, pk: PkIndices, v: View, gens: Gens, p: int, raw: Bytes)
    requires InRange(pk, |rel.fieldOrder|) && v.schema == CdcSchema(rel, pk) && v.schema.Valid()
    ensures SeenAlike(rel, v, gens, p, raw) <==>
            (if Changed(v.db, gens, p) && IsNew(v, raw) then ChangedRow(v.schema, raw) else None) ==
            (if HasHeader(raw) then ExtractedRow(rel, v.db, raw) else None)
  {
    hide Has, LiveRow, ExtractedRow, CdcSchema, Changed, Stride, ChangedRow, RecordTransaction;
    if HasHeader(raw) {
      ExtractionSeesLiveRows(rel, pk, v.db, raw);
      LiveIsChanged(v.schema, raw);
      IncompleteIsNotNew(v, raw);
      ChainIsNotLive(v.schema, raw);
    } else {
      NoHeaderNothing(v, raw);
    }
  }

  lemma IncompleteIsNotNew(v: View, raw: Bytes)
    requires HasHeader(raw)
    ensures Has(raw, RHD_INCOMPLETE) ==> RecordTransaction(raw) == None
  {
    hide Has;
  }

  lemma ChainIsNotLive(schema: Schema, raw: Bytes)
    requires HasHeader(raw)
    ensures Has(raw, RHD_CHAIN) ==> LiveRow(schema, raw) == None
  {
    hide Has;
  }

  /**
   A scan's upsert stream is, byte for byte, the stream a full extraction of the same pages
   writes, if every record is seen alike. On the first scan, when no generation is recorded,
   a file does that whose records are whole current versions above the watermark.
   */
  lemma FirstScanIsExtraction(rel: Relation, pk: PkIndices, v: View, gens: Gens, prev: Snapshot, pages: seq<int>,
      out: ScanOutput)
    requires InRange(pk, |rel.fieldOrder|) && v.schema == CdcSchema(rel, pk) && v.schema.Valid()
    requires IsScan(v, gens, prev, pages, out)
    requires forall p, raw :: Listed(v.db, pages, p, raw) ==> SeenAlike(rel, v, gens, p, raw)
    ensures out.upserts == |PageRows(rel, v.db, pages)| &&
            out.upsertBuf == PgCopy.Stream(PageRows(rel, v.db, pages))
  {
    hide PageRows, CdcSchema, Stride, SeenAlike, PagesFound, InOrder, ExtractedRow, Changed, IsNew, ChangedRow,
         SlotBytes, SlotCount, IsDataPage, AreNewSnapshots, NewGens, IsExpress, PgCopy.Stream;
    var first, end := FirstCycle(v.schema, prev), Place(|pages|, 0);
    var f, g := UpsertsAt(v, gens, pages), ExtractedAt(rel, v.db, pages);
    forall at: Place
      ensures f(at) == g(at)
    {
      var r := RecordAt(v.db, pages, at);
      if r.Some? {
        assert Listed(v.db, pages, pages[at.index], r.value);
        AlikeIff(rel, pk, v, gens, pages[at.index], r.value);
      }
    }
    ScanInOrder(v, gens, first, pages);
    ExtractionIsExact(rel, v.db, pages, []);
    InOrderOfSame(f, g, end, PagesFound(v, gens, first, pages).upserts);
    InOrderUnique(g, end, PagesFound(v, gens, first, pages).upserts, PageRows(rel, v.db, pages));
  }
}
