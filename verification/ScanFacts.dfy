/** Which records a scan's rows, keys and watermark come from, and what its streams read back as. */
module ScanFacts {
  import opened Bytes
  import opened Fields
  import opened Keys
  import opened Ods
  import opened Changes
  import opened RecordScan
  import opened Express
  import opened Scan
  import PgCopy
  import Sqz

  // ── Records on pages ──

  /** A usable slot of the page holds the record. */
  ghost predicate OnPage(page: Bytes, raw: Bytes) {
    exists s :: 0 <= s < SlotCount(page) && SlotBytes(page, s) == Some(raw)
  }

  ghost predicate InSlots(page: Bytes, n: nat, raw: Bytes) {
    exists s :: 0 <= s < n && SlotBytes(page, s) == Some(raw)
  }

  lemma SlotBounded(page: Bytes, s: nat)
    requires SlotBytes(page, s).Some?
    ensures |SlotBytes(page, s).value| < U16_LIMIT
  {
  }

  ghost predicate IsNew(v: View, raw: Bytes) {
    RecordTransaction(raw).Some? && RecordTransaction(raw).value > v.lastTxn
  }

  lemma EffectIs(v: View, look: Look, raw: Bytes)
    requires v.schema.Valid()
    ensures forall row :: row in Effect(v, look, raw).upserts <==>
                          look.changed && IsNew(v, raw) && ChangedRow(v.schema, raw) == Some(row)
    ensures forall row :: row in Effect(v, look, raw).stubs <==>
                          IsNew(v, raw) && StubKey(v.db, v.schema, raw) == Some(row)
    ensures forall k :: k in Effect(v, look, raw).keys <==>
                        look.rebuild && RecordTransaction(raw).Some? && SnapshotKey(v.schema, raw) == Some(k)
    ensures Effect(v, look, raw).maxTxn > 0 ==>
              IsNew(v, raw) && Effect(v, look, raw).maxTxn == RecordTransaction(raw).value
    ensures IsNew(v, raw) && (look.changed || look.rebuild || Has(raw, RHD_DELETED)) ==>
              Effect(v, look, raw).maxTxn == RecordTransaction(raw).value
  {
    hide Stride, Has, U32Le, U16Le, PayloadFrom, DeletedVersion, RecordRow, RecordKey;
    FastPathRefines(v, look, raw);
    NoHeaderNothing(v, raw);
  }

  lemma NoHeaderNothing(v: View, raw: Bytes)
    requires v.schema.Valid()
    ensures RecordTransaction(raw).Some? ==> HasHeader(raw)
  {
  }

  lemma {:induction false} SlotsFoundIs(v: View, look: Look, page: Bytes, n: nat)
    requires v.schema.Valid()
    ensures forall row :: row in SlotsFound(v, look, page, n).upserts <==>
                          exists raw :: InSlots(page, n, raw) && row in Effect(v, look, raw).upserts
    ensures forall row :: row in SlotsFound(v, look, page, n).stubs <==>
                          exists raw :: InSlots(page, n, raw) && row in Effect(v, look, raw).stubs
    ensures forall k :: k in SlotsFound(v, look, page, n).keys <==>
                        exists raw :: InSlots(page, n, raw) && k in Effect(v, look, raw).keys
    ensures forall raw :: InSlots(page, n, raw) ==> Effect(v, look, raw).maxTxn <= SlotsFound(v, look, page, n).maxTxn
  {
    hide Effect, SlotBytes, Stride;
    if n > 0 {
      SlotsFoundIs(v, look, page, n - 1);
      SlotsGrow(page, n - 1);
    }
  }

  lemma SlotsGrow(page: Bytes, n: nat)
    ensures forall raw :: InSlots(page, n + 1, raw) <==> InSlots(page, n, raw) || SlotBytes(page, n) == Some(raw)
  {
    hide SlotBytes;
    forall raw: Bytes
      ensures InSlots(page, n + 1, raw) <==> InSlots(page, n, raw) || SlotBytes(page, n) == Some(raw)
    {
      if s :| 0 <= s < n && SlotBytes(page, s) == Some(raw) { assert s < n + 1; }
    }
  }

  lemma AllSlots(page: Bytes)
    ensures forall raw :: InSlots(page, SlotCount(page), raw) <==> OnPage(page, raw)
  {
    hide SlotBytes, SlotCount;
  }

  // ── One page ──

  /** A record of a listed data page. */
  ghost predicate Listed(db: Db, pages: seq<int>, p: int, raw: Bytes) {
    p in pages && Visited(db, p) && OnPage(db.Page(p), raw)
  }

  ghost predicate IsUpsert(v: View, gens: Gens, p: int, raw: Bytes, row: Row) {
    Changed(v.db, gens, p) && IsNew(v, raw) && ChangedRow(v.schema, raw) == Some(row)
  }

  ghost predicate IsStub(v: View, raw: Bytes, key: Row)
    requires v.schema.Valid()
  {
    IsNew(v, raw) && StubKey(v.db, v.schema, raw) == Some(key)
  }

  /** A record's transaction is looked at: on a page changed or rebuilt, or in a delete stub. */
  ghost predicate Counted(v: View, gens: Gens, first: bool, p: int, raw: Bytes) {
    RecordTransaction(raw).Some? && HasHeader(raw) &&
    (LookAt(v, gens, first, p).changed || LookAt(v, gens, first, p).rebuild || Has(raw, RHD_DELETED))
  }

  lemma PageFoundIs(v: View, gens: Gens, first: bool, p: int)
    requires v.schema.Valid() && Visited(v.db, p)
    ensures forall row :: row in PageFound(v, gens, first, p).upserts <==>
                          exists raw :: OnPage(v.db.Page(p), raw) && IsUpsert(v, gens, p, raw, row)
    ensures forall key :: key in PageFound(v, gens, first, p).stubs <==>
                          exists raw :: OnPage(v.db.Page(p), raw) && IsStub(v, raw, key)
    ensures forall k :: k in PageFound(v, gens, first, p).keys <==>
                        LookAt(v, gens, first, p).rebuild &&
                        exists raw :: OnPage(v.db.Page(p), raw) && RecordTransaction(raw).Some? &&
                          SnapshotKey(v.schema, raw) == Some(k)
    ensures forall raw :: OnPage(v.db.Page(p), raw) && Counted(v, gens, first, p, raw) && IsNew(v, raw) ==>
                          RecordTransaction(raw).value <= PageFound(v, gens, first, p).maxTxn
  {
    hide Effect, SlotBytes, Stride, SlotsFound, SlotCount, Has, RecordTransaction, ChangedRow, StubKey, SnapshotKey,
         OnPage, InSlots, Generation, Visited;
    var page, look := v.db.Page(p), LookAt(v, gens, first, p);
    SlotsFoundIs(v, look, page, SlotCount(page));
    AllSlots(page);
    forall raw: Bytes
      ensures forall row :: row in Effect(v, look, raw).upserts <==> IsUpsert(v, gens, p, raw, row)
      ensures forall key :: key in Effect(v, look, raw).stubs <==> IsStub(v, raw, key)
      ensures forall k :: k in Effect(v, look, raw).keys <==>
                          look.rebuild && RecordTransaction(raw).Some? && SnapshotKey(v.schema, raw) == Some(k)
      ensures Counted(v, gens, first, p, raw) && IsNew(v, raw) ==>
                Effect(v, look, raw).maxTxn == RecordTransaction(raw).value
    {
      EffectIs(v, look, raw);
    }
  }

  // ── All pages ──

  lemma {:induction false} UpsertsAre(v: View, gens: Gens, first: bool, pages: seq<int>, row: Row)
    requires v.schema.Valid()
    ensures row in PagesFound(v, gens, first, pages).upserts <==>
            exists p, raw :: Listed(v.db, pages, p, raw) && IsUpsert(v, gens, p, raw, row)
  {
    hide PageFound, IsUpsert, OnPage, Visited, Stride;
    if pages != [] {
      var done, p := pages[..|pages| - 1], pages[|pages| - 1];
      UpsertsAre(v, gens, first, done, row);
      if Visited(v.db, p) { PageFoundIs(v, gens, first, p); } else { NothingVisited(v, gens, first, p); }
      ListedGrows(v.db, done, p);
      assert pages == done + [p];
    }
  }

  /** A slot's row is upserted in the format of its record, back version or not. */
  ghost predicate GivesRow(v: View, gens: Gens, p: int, raw: Bytes, rec: Bytes, row: Row) {
    Changed(v.db, gens, p) && HasHeader(raw) && IsNew(v, raw) && RecordCdc(raw) == Some(Unpacked(false, rec)) &&
    row == RowOf(rec, v.schema.SlotsFor(Format(raw)), v.schema.scaling)
  }

  /** The upserts are the rows of new, whole, undeleted records on pages whose generation moved. */
  lemma UpsertsName(v: View, gens: Gens, first: bool, pages: seq<int>, row: Row)
    requires v.schema.Valid()
    ensures row in PagesFound(v, gens, first, pages).upserts <==>
            exists p, raw, rec :: Listed(v.db, pages, p, raw) && GivesRow(v, gens, p, raw, rec, row)
  {
    hide PagesFound, Listed, Stride, RecordCdc, RecordTransaction, RowOf;
    UpsertsAre(v, gens, first, pages, row);
    forall p, raw
      ensures IsUpsert(v, gens, p, raw, row) <==> exists rec :: GivesRow(v, gens, p, raw, rec, row)
    {
      if IsUpsert(v, gens, p, raw, row) {
        UnpackedHasHeader(raw);
        assert GivesRow(v, gens, p, raw, RecordCdc(raw).value.rec, row);
      }
    }
  }

  lemma {:induction false} StubsAre(v: View, gens: Gens, first: bool, pages: seq<int>, key: Row)
    requires v.schema.Valid()
    ensures key in PagesFound(v, gens, first, pages).stubs <==>
            exists p, raw :: Listed(v.db, pages, p, raw) && IsStub(v, raw, key)
  {
    hide PageFound, IsStub, OnPage, Visited, Stride;
    if pages != [] {
      var done, p := pages[..|pages| - 1], pages[|pages| - 1];
      StubsAre(v, gens, first, done, key);
      if Visited(v.db, p) { PageFoundIs(v, gens, first, p); } else { NothingVisited(v, gens, first, p); }
      ListedGrows(v.db, done, p);
      assert pages == done + [p];
      if key in PageFound(v, gens, first, p).stubs {
        var raw :| OnPage(v.db.Page(p), raw) && IsStub(v, raw, key);
        assert Listed(v.db, pages, p, raw);
      }
      if q, raw :| Listed(v.db, pages, q, raw) && IsStub(v, raw, key) {
        assert Listed(v.db, done, q, raw) || key in PageFound(v, gens, first, p).stubs;
      }
    }
  }

  /**
   `path` leads back from a delete stub over at most eight slots to the version it deleted,
   whose key columns, read in that version's own format, are `key`.
   */
  ghost predicate NamesKey(db: Db, schema: Schema, raw: Bytes, path: seq<Bytes>, key: Row)
    requires schema.Valid()
  {
    HasHeader(raw) && RecordCdc(raw).Some? && RecordCdc(raw).value.deleted && Indexed(schema.pk) &&
    BackPage(raw) != 0 && BackPath(db, BackPage(raw), BackLine(raw), path) && |path| <= 8 &&
    var last := path[|path| - 1];
    HasHeader(last) && RecordCdc(last).Some? &&
    key == KeyFields(RecordCdc(last).value.rec, schema.pk, schema.SlotsFor(Format(last)), schema.scaling)
  }

  lemma StubKeyIs(db: Db, schema: Schema, raw: Bytes, key: Row)
    requires schema.Valid()
    ensures StubKey(db, schema, raw) == Some(key) <==> exists path :: NamesKey(db, schema, raw, path, key)
  {
    hide Stride, RecordCdc, KeyFields, Desc.Usable, BackPage, BackLine, DeletedVersion;
    if RecordCdc(raw).Some? && RecordCdc(raw).value.deleted && Indexed(schema.pk) {
      UnpackedHasHeader(raw);
      if DeletedVersion(db, raw).Some? {
        var version := DeletedVersion(db, raw).value;
        ResolutionExact(db, raw, version);
        var path :| BackPath(db, BackPage(raw), BackLine(raw), path) && |path| <= MAX_CHAIN_DEPTH &&
          HasHeader(path[|path| - 1]) && RecordCdc(path[|path| - 1]).Some? &&
          version == Version(RecordCdc(path[|path| - 1]).value.rec, Format(path[|path| - 1]));
        assert NamesKey(db, schema, raw, path, RecordKey(schema, version.rec, version.format));
      }
      if path :| NamesKey(db, schema, raw, path, key) {
        var last := path[|path| - 1];
        ResolutionExact(db, raw, Version(RecordCdc(last).value.rec, Format(last)));
      }
    }
  }

  /** The stubs of a scan name the keys of the versions they deleted, each read in its own format. */
  lemma StubsName(v: View, gens: Gens, first: bool, pages: seq<int>, key: Row)
    requires v.schema.Valid()
    ensures key in PagesFound(v, gens, first, pages).stubs <==>
            exists p, raw, path :: Listed(v.db, pages, p, raw) && IsNew(v, raw) &&
              NamesKey(v.db, v.schema, raw, path, key)
  {
    hide PagesFound, StubKey, NamesKey, Listed, Stride;
    StubsAre(v, gens, first, pages, key);
    forall raw
      ensures StubKey(v.db, v.schema, raw) == Some(key) <==> exists path :: NamesKey(v.db, v.schema, raw, path, key)
    {
      StubKeyIs(v.db, v.schema, raw, key);
    }
    if p, raw :| Listed(v.db, pages, p, raw) && IsStub(v, raw, key) {
      var path :| NamesKey(v.db, v.schema, raw, path, key);
      assert Listed(v.db, pages, p, raw) && IsNew(v, raw) && NamesKey(v.db, v.schema, raw, path, key);
    }
  }

  lemma ListedGrows(db: Db, pages: seq<int>, p: int)
    ensures forall q, raw :: Listed(db, pages + [p], q, raw) <==>
              Listed(db, pages, q, raw) || (q == p && Visited(db, p) && OnPage(db.Page(p), raw))
  {
    hide OnPage, Visited;
  }

  /** The new watermark covers every record whose transaction was looked at. */
  lemma {:induction false} WatermarkCovers(v: View, gens: Gens, first: bool, pages: seq<int>, p: int, raw: Bytes)
    requires v.schema.Valid() && Listed(v.db, pages, p, raw) && Counted(v, gens, first, p, raw)
    ensures RecordTransaction(raw).value <= Max(v.lastTxn, PagesFound(v, gens, first, pages).maxTxn)
  {
    hide PageFound, OnPage, Visited, Stride, RecordTransaction, Has, LookAt;
    if IsNew(v, raw) {
      var n := |pages| - 1;
      if p == pages[n] {
        PageFoundIs(v, gens, first, p);
      } else {
        assert pages == pages[..n] + [pages[n]];
        WatermarkCovers(v, gens, first, pages[..n], p, raw);
      }
    }
  }

  lemma CountedTransaction(v: View, gens: Gens, first: bool, p: int, raw: Bytes)
    requires v.schema.Valid() && Effect(v, LookAt(v, gens, first, p), raw).maxTxn > 0
    ensures Counted(v, gens, first, p, raw) && IsNew(v, raw) &&
            RecordTransaction(raw) == Some(Effect(v, LookAt(v, gens, first, p), raw).maxTxn)
  {
    hide Stride, Has, RecordTransaction, ChangedRow, StubKey, SnapshotKey, LookAt;
  }

  lemma {:induction false} SlotAttains(v: View, look: Look, page: Bytes, n: nat) returns (raw: Bytes)
    requires v.schema.Valid() && SlotsFound(v, look, page, n).maxTxn > 0
    ensures InSlots(page, n, raw) && Effect(v, look, raw).maxTxn == SlotsFound(v, look, page, n).maxTxn
  {
    hide Effect, SlotBytes, Stride;
    SlotsGrow(page, n - 1);
    var slot := SlotBytes(page, n - 1);
    if slot.Some? && Effect(v, look, slot.value).maxTxn == SlotsFound(v, look, page, n).maxTxn {
      raw := slot.value;
    } else {
      raw := SlotAttains(v, look, page, n - 1);
    }
  }

  /** And it is the starting one, or that of a new record that was looked at. */
  lemma {:induction false} WatermarkAttained(v: View, gens: Gens, first: bool, pages: seq<int>)
    requires v.schema.Valid() && PagesFound(v, gens, first, pages).maxTxn > 0
    ensures exists p, raw :: Listed(v.db, pages, p, raw) && Counted(v, gens, first, p, raw) && IsNew(v, raw) &&
              RecordTransaction(raw).value == PagesFound(v, gens, first, pages).maxTxn
  {
    hide Effect, OnPage, InSlots, SlotsFound, Visited, Stride, RecordTransaction, LookAt, SlotCount, Counted;
    var done, p := pages[..|pages| - 1], pages[|pages| - 1];
    assert pages == done + [p];
    ListedGrows(v.db, done, p);
    var page, look, max := v.db.Page(p), LookAt(v, gens, first, p), PagesFound(v, gens, first, pages).maxTxn;
    if PageFound(v, gens, first, p).maxTxn == max {
      var raw := SlotAttains(v, look, page, SlotCount(page));
      AllSlots(page);
      CountedTransaction(v, gens, first, p, raw);
      assert Listed(v.db, pages, p, raw);
    } else {
      WatermarkAttained(v, gens, first, done);
      var q, raw :| Listed(v.db, done, q, raw) && Counted(v, gens, first, q, raw) && IsNew(v, raw) &&
        RecordTransaction(raw).value == max;
      assert Listed(v.db, pages, q, raw);
    }
  }

  // ── Streams ──

  lemma {:induction false} AllUniform(rows: seq<Row>, n: nat)
    requires forall row :: row in rows ==> |row| == n && PgCopy.AllFit(row)
    ensures PgCopy.Uniform(rows, n)
  {
    hide PgCopy.AllFit;
    if rows != [] { AllUniform(rows[1..], n); }
  }

  lemma ChangedRowFits(schema: Schema, raw: Bytes)
    requires schema.Valid() && |raw| < U16_LIMIT && ChangedRow(schema, raw).Some?
    ensures var row := ChangedRow(schema, raw).value; |row| == |schema.slots| && PgCopy.AllFit(row)
  {
    hide Stride, RecordCdc, PgCopy.AllFit, Desc.Usable;
    var rec := RecordCdc(raw).value.rec;
    UnpackedHasHeader(raw);
    RecordBounded(raw);
    RowFits(rec, schema.SlotsFor(Format(raw)), schema.scaling);
  }

  lemma RecordKeyFits(schema: Schema, rec: Bytes, format: int)
    requires schema.Valid() && Indexed(schema.pk) && |rec| <= Sqz.MAX_RECORD_SIZE
    ensures var key := RecordKey(schema, rec, format); |key| == |schema.pk| && PgCopy.AllFit(key)
  {
    hide Stride, PgCopy.AllFit, Desc.Usable;
    KeyFits(rec, schema.pk, schema.SlotsFor(format), schema.scaling);
  }

  lemma SlotRawBounded(db: Db, page: int, line: nat)
    requires ReadSlotRaw(db, page, line).Some?
    ensures |ReadSlotRaw(db, page, line).value| < U16_LIMIT
  {
    SlotBounded(db.Page(page), line);
  }

  lemma {:induction false} VersionBounded(db: Db, page: int, line: nat, depth: nat)
    requires Resolved(db, page, line, depth).Some?
    ensures |Resolved(db, page, line, depth).value.rec| <= Sqz.MAX_RECORD_SIZE
    decreases depth
  {
    hide ReadSlotRaw, RecordCdc, Has, BackPage, BackLine;
    var back := ReadSlotRaw(db, page, line).value;
    SlotRawBounded(db, page, line);
    if RecordCdc(back).Some? {
      RecordBounded(back);
    } else {
      VersionBounded(db, BackPage(back), BackLine(back), depth - 1);
    }
  }

  lemma StubKeyFits(db: Db, schema: Schema, raw: Bytes)
    requires schema.Valid() && StubKey(db, schema, raw).Some?
    ensures var key := StubKey(db, schema, raw).value; |key| == |schema.pk| && PgCopy.AllFit(key)
  {
    hide Stride, RecordCdc, PgCopy.AllFit, RecordKey, Desc.Usable, Resolved;
    UnpackedHasHeader(raw);
    VersionBounded(db, BackPage(raw), BackLine(raw), MAX_CHAIN_DEPTH);
    var version := DeletedVersion(db, raw).value;
    RecordKeyFits(schema, version.rec, version.format);
  }

  lemma OnPageBounded(page: Bytes, raw: Bytes)
    requires OnPage(page, raw)
    ensures |raw| < U16_LIMIT
  {
    var s :| 0 <= s < SlotCount(page) && SlotBytes(page, s) == Some(raw);
    SlotBounded(page, s);
  }

  lemma UpsertsUniform(v: View, gens: Gens, first: bool, pages: seq<int>)
    requires v.schema.Valid()
    ensures PgCopy.Uniform(PagesFound(v, gens, first, pages).upserts, |v.schema.slots|)
  {
    hide PagesFound, PgCopy.AllFit, Stride, ChangedRow, OnPage, Visited, Desc.Usable;
    var rows := PagesFound(v, gens, first, pages).upserts;
    forall row | row in rows
      ensures |row| == |v.schema.slots| && PgCopy.AllFit(row)
    {
      UpsertsAre(v, gens, first, pages, row);
      var p, raw :| Listed(v.db, pages, p, raw) && IsUpsert(v, gens, p, raw, row);
      OnPageBounded(v.db.Page(p), raw);
      ChangedRowFits(v.schema, raw);
    }
    AllUniform(rows, |v.schema.slots|);
  }

  lemma StubFits(v: View, gens: Gens, first: bool, pages: seq<int>, key: Row)
    requires v.schema.Valid() && key in PagesFound(v, gens, first, pages).stubs
    ensures |key| == |v.schema.pk| && PgCopy.AllFit(key)
  {
    hide PagesFound, PgCopy.AllFit, Stride, StubKey, OnPage, Visited, Desc.Usable;
    StubsAre(v, gens, first, pages, key);
    var p, raw :| Listed(v.db, pages, p, raw) && IsStub(v, raw, key);
    StubKeyFits(v.db, v.schema, raw);
  }

  // ── Keys in snapshots ──

  /** The bytes are an encoded key of `n` columns. */
  ghost predicate IsKey(k: Bytes, n: nat) {
    exists key: Row :: |key| == n && PgCopy.AllFit(key) && EncodeFields(key) == k
  }

  /** The key the bytes encode. */
  ghost function KeyOf(k: Bytes, n: nat): (key: Row)
    requires IsKey(k, n)
    ensures |key| == n && PgCopy.AllFit(key) && EncodeFields(key) == k
  {
    var key: Row :| |key| == n && PgCopy.AllFit(key) && EncodeFields(key) == k;
    key
  }

  /** Bytes and key determine each other. */
  lemma KeyOfUnique(k: Bytes, n: nat, key: Row)
    requires IsKey(k, n) && |key| == n && PgCopy.AllFit(key)
    ensures KeyOf(k, n) == key <==> EncodeFields(key) == k
  {
    hide PgCopy.AllFit, EncodeFields;
    if EncodeFields(key) == k { PgCopy.FieldsInjective(key, KeyOf(k, n)); }
  }

  /** Every chunk of every page is an encoded key. */
  ghost predicate KeysOnly(m: Snapshot, stride: nat, n: nat) {
    stride > 0 ==> WholeFlats(m, stride) && forall k :: HasKey(m, stride, k) ==> IsKey(k, n)
  }

  ghost function KeyRows(keys: seq<Bytes>, n: nat): (rows: seq<Row>)
    requires forall k :: k in keys ==> IsKey(k, n)
    ensures |rows| == |keys| && forall i :: 0 <= i < |keys| ==> rows[i] == KeyOf(keys[i], n)
  {
    seq(|keys|, i requires 0 <= i < |keys| => KeyOf(keys[i], n))
  }

  /** Copying keys out of the snapshot writes the tuples their rows would be written as. */
  lemma {:induction false} KeyTuplesAreTuples(rows: seq<Row>, keys: seq<Bytes>, n: nat)
    requires forall k :: k in keys ==> IsKey(k, n)
    ensures PgCopy.EncodeTuples(rows) + KeyTuples(n, keys) == PgCopy.EncodeTuples(rows + KeyRows(keys, n))
  {
    hide PgCopy.AllFit, IsKey, Be16, EncodeFields;
    if keys == [] {
      assert rows + KeyRows(keys, n) == rows;
      AddNothing(PgCopy.EncodeTuples(rows));
    } else {
      var init, k := keys[..|keys| - 1], keys[|keys| - 1];
      KeyTuplesAreTuples(rows, init, n);
      assert rows + KeyRows(keys, n) == (rows + KeyRows(init, n)) + [KeyOf(k, n)];
      PgCopy.EncodeTuplesAppend(rows + KeyRows(init, n), KeyOf(k, n));
      ConcatAssociates(PgCopy.EncodeTuples(rows), KeyTuples(n, init), Be16(n) + k);
    }
  }

  /** A scan's upsert stream reads back as exactly its upserts, each with every column of the table. */
  lemma UpsertStreamParses(v: View, gens: Gens, prev: Snapshot, pages: seq<int>, out: ScanOutput)
    requires v.schema.Valid() && IsScan(v, gens, prev, pages, out)
    ensures var rows := PagesFound(v, gens, FirstCycle(v.schema, prev), pages).upserts;
            |rows| == out.upserts &&
            (PgCopy.ParseCopy(out.upsertBuf, |v.schema.slots|) == Some(rows) <==>
              (out.upserts == 0 || |v.schema.slots| < 0x8000))
  {
    hide PagesFound, PgCopy.Stream, Stride, Desc.Usable;
    var first := FirstCycle(v.schema, prev);
    UpsertsUniform(v, gens, first, pages);
    PgCopy.StreamParses(PagesFound(v, gens, first, pages).upserts, |v.schema.slots|);
  }

  lemma ExpressKeysAreKeys(stride: nat, first: bool, prev: Snapshot, news: Snapshot, keys: seq<Bytes>, n: nat)
    requires IsExpress(stride, first, prev, news, keys) && KeysOnly(prev, stride, n)
    ensures forall k :: k in keys ==> IsKey(k, n)
  {
    hide IsKey, InFlat, Vanished;
    forall k | k in keys
      ensures IsKey(k, n)
    {
      var p :| p in prev && p in news.Keys && InFlat(prev[p], stride, k);
      assert HasKey(prev, stride, k);
    }
  }

  /** Its delete stream reads back as the stubs' keys and then the express keys, each with every key column. */
  lemma DeleteStreamParses(v: View, gens: Gens, prev: Snapshot, pages: seq<int>, out: ScanOutput)
    requires v.schema.Valid() && IsScan(v, gens, prev, pages, out) && KeysOnly(prev, v.schema.pkByteLen, |v.schema.pk|)
    ensures forall k :: k in out.expressKeys ==> IsKey(k, |v.schema.pk|)
    ensures var rows := PagesFound(v, gens, FirstCycle(v.schema, prev), pages).stubs +
                        KeyRows(out.expressKeys, |v.schema.pk|);
            |rows| == out.deletes &&
            (PgCopy.ParseCopy(out.deleteBuf, |v.schema.pk|) == Some(rows) <==>
              (out.deletes == 0 || |v.schema.pk| < 0x8000))
  {
    hide PagesFound, Stride, Desc.Usable, IsKey, PgCopy.AllFit, KeysOnly, KeyTuples, PgCopy.EncodeTuples, PgCopy.Header,
         IsExpress;
    var first, n := FirstCycle(v.schema, prev), |v.schema.pk|;
    ExpressKeysAreKeys(v.schema.pkByteLen, first, prev, out.newPks, out.expressKeys, n);
    var stubs, express := PagesFound(v, gens, first, pages).stubs, KeyRows(out.expressKeys, n);
    KeyTuplesAreTuples(stubs, out.expressKeys, n);
    ConcatAssociates(PgCopy.Header(), PgCopy.EncodeTuples(stubs), KeyTuples(n, out.expressKeys));
    forall row | row in stubs + express
      ensures |row| == n && PgCopy.AllFit(row)
    {
      if row in stubs { StubFits(v, gens, first, pages, row); }
    }
    AllUniform(stubs + express, n);
    PgCopy.StreamParses(stubs + express, n);
  }

  // ── The snapshot invariant ──

  lemma PageKeyIsKey(v: View, gens: Gens, first: bool, p: int, k: Bytes)
    requires v.schema.Valid() && k in PageFound(v, gens, first, p).keys
    ensures IsKey(k, |v.schema.pk|)
  {
    hide Stride, SlotsFound, RecordTransaction, OnPage, Desc.Usable, PgCopy.AllFit, EncodeFields, Visited;
    if Visited(v.db, p) { PageFoundIs(v, gens, first, p); } else { NothingVisited(v, gens, first, p); }
    var raw :| OnPage(v.db.Page(p), raw) && RecordTransaction(raw).Some? && SnapshotKey(v.schema, raw) == Some(k);
    OnPageBounded(v.db.Page(p), raw);
    SnapshotKeyIsKey(v.schema, raw);
  }

  lemma SnapshotKeyIsKey(schema: Schema, raw: Bytes)
    requires schema.Valid() && |raw| < U16_LIMIT && SnapshotKey(schema, raw).Some?
    ensures IsKey(SnapshotKey(schema, raw).value, |schema.pk|)
  {
    hide Stride, RecordCdc, Has, Desc.Usable, PgCopy.AllFit, EncodeFields, RecordKey;
    RecordBounded(raw);
    var rec := RecordCdc(raw).value.rec;
    RecordKeyFits(schema, rec, Format(raw));
    assert EncodeFields(RecordKey(schema, rec, Format(raw))) == SnapshotKey(schema, raw).value;
  }

  /** Snapshots made by scans hold encoded keys only, and keep doing so as they are advanced and pruned. */
  lemma SnapshotsStayKeys(v: View, gens: Gens, prev: Snapshot, pages: seq<int>, out: ScanOutput, live: set<int>)
    requires v.schema.Valid() && IsScan(v, gens, prev, pages, out) && KeysOnly(prev, v.schema.pkByteLen, |v.schema.pk|)
    ensures KeysOnly(prev + out.newPks, v.schema.pkByteLen, |v.schema.pk|)
    ensures KeysOnly(map p | p in prev + out.newPks && p in live :: (prev + out.newPks)[p], v.schema.pkByteLen,
                     |v.schema.pk|)
  {
    hide PagesFound, PageFound, Stride, Desc.Usable, IsKey, InFlat, IsPageSnapshot, IsExpress, Rebuilt, NewGens;
    var stride, n, first := v.schema.pkByteLen, |v.schema.pk|, FirstCycle(v.schema, prev);
    var after := prev + out.newPks;
    if stride > 0 {
      NewSnapshotsWhole(v, gens, first, pages, out.newPks);
      forall k | HasKey(after, stride, k)
        ensures IsKey(k, n)
      {
        var p :| p in after && InFlat(after[p], stride, k);
        if p in out.newPks {
          SnapshotWhole(v, gens, first, p, out.newPks[p]);
          PageKeyIsKey(v, gens, first, p, k);
        } else {
          assert HasKey(prev, stride, k);
        }
      }
      var kept := map p | p in after && p in live :: after[p];
      forall k | HasKey(kept, stride, k)
        ensures HasKey(after, stride, k)
      {
        var p :| p in kept && InFlat(kept[p], stride, k);
        assert p in after;
      }
    }
  }
}
