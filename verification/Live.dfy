/** The rows a set of pages holds, the replica table they make, and the snapshot of their keys. */
module Live {
  import opened Bytes
  import opened Fields
  import opened Keys
  import opened Ods
  import opened Changes
  import opened Express
  import opened Scan
  import opened ScanFacts
  import opened Replica
  import PgCopy

  /** Page contents by page number. */
  type Pages = map<int, Bytes>

  /** A table with a known key, and with counts that fit a COPY tuple. */
  ghost predicate Tracking(schema: Schema) {
    schema.Valid() && Indexed(schema.pk) && schema.pk != [] && |schema.slots| < 0x8000 && |schema.pk| < 0x8000
  }

  /** The row of a record's current version. */
  function LiveRow(schema: Schema, raw: Bytes): Option<Row> {
    match RecordCurrent(raw)
    case None => None
    case Some(rec) => Some(RecordRow(schema, rec, Format(raw)))
  }

  /** A current version with this key and row. */
  ghost predicate IsLive(schema: Schema, raw: Bytes, key: Row, row: Row)
    requires Tracking(schema)
  {
    LiveRow(schema, raw) == Some(row) && |row| == |schema.slots| && KeyOfRow(row, schema.pk) == key
  }

  /** The row is in a record of some page. */
  ghost predicate LiveIn(schema: Schema, pages: Pages, key: Row, row: Row)
    requires Tracking(schema)
  {
    exists p, raw :: p in pages && OnPage(pages[p], raw) && IsLive(schema, raw, key, row)
  }

  ghost predicate LiveKey(schema: Schema, pages: Pages, key: Row)
    requires Tracking(schema)
  {
    exists row :: LiveIn(schema, pages, key, row)
  }

  /** The table holds exactly the rows of the pages. */
  ghost predicate IsTable(schema: Schema, pages: Pages, t: Table)
    requires Tracking(schema)
  {
    (forall k :: k in t ==> LiveIn(schema, pages, k, t[k])) &&
    forall k, row :: LiveIn(schema, pages, k, row) ==> k in t && t[k] == row
  }

  // ── Records ──

  lemma LiveIsChanged(schema: Schema, raw: Bytes)
    requires schema.Valid()
    ensures LiveRow(schema, raw).Some? ==>
              LiveRow(schema, raw) == ChangedRow(schema, raw) && HasHeader(raw) && !Has(raw, RHD_CHAIN)
    ensures HasHeader(raw) && !Has(raw, RHD_CHAIN) ==> LiveRow(schema, raw) == ChangedRow(schema, raw)
  {
    hide Has, PayloadFrom, DataStart, Stride, RecordRow, Desc.Usable;
    CurrentIsLive(raw);
  }

  lemma WholeHasTransaction(raw: Bytes)
    requires RecordCdc(raw).Some?
    ensures RecordTransaction(raw).Some?
  {
    hide Has, U32Le, U16Le;
  }

  lemma KeyOfRecordRow(schema: Schema, rec: Bytes, format: int)
    requires Tracking(schema)
    ensures |RecordRow(schema, rec, format)| == |schema.slots|
    ensures KeyOfRow(RecordRow(schema, rec, format), schema.pk) == RecordKey(schema, rec, format)
  {
    hide FieldOf, NullBit, Desc.Usable, Stride;
  }

  /** The key a record adds to a snapshot is its row's encoded key, when that has the fixed length. */
  lemma SnapshotKeyIs(schema: Schema, raw: Bytes)
    requires Tracking(schema)
    ensures SnapshotKey(schema, raw).Some? ==> LiveRow(schema, raw).Some?
    ensures LiveRow(schema, raw).Some? ==>
              var row := LiveRow(schema, raw).value;
              var k := EncodeFields(KeyOfRow(row, schema.pk));
              RecordTransaction(raw).Some? && |row| == |schema.slots| &&
              SnapshotKey(schema, raw) == (if |k| == schema.pkByteLen then Some(k) else None)
  {
    hide Has, Stride, RecordRow, RecordKey, EncodeFields, KeyOfRow, Desc.Usable, RecordTransaction, PayloadFrom,
         DataStart;
    CurrentIsLive(raw);
    if RecordCdc(raw).Some? {
      WholeHasTransaction(raw);
      UnpackedHasHeader(raw);
      KeyOfRecordRow(schema, RecordCdc(raw).value.rec, Format(raw));
    }
  }

  /**
   A live record enters its page's snapshot if and only if no key column is null, provided
   its own format gives the key columns the lengths the latest format gives them.
   */
  lemma KeyedIffNoNull(schema: Schema, raw: Bytes)
    requires Tracking(schema) && LiveRow(schema, raw).Some? && HasHeader(raw)
    requires var slots := schema.SlotsFor(Format(raw));
             InRange(schema.pk, |slots|) && Fixed(schema.pk, slots) && SizeSum(schema.pk, slots) == schema.pkByteLen
    ensures |LiveRow(schema, raw).value| == |schema.slots|
    ensures SnapshotKey(schema, raw).Some? <==> NoNull(KeyOfRow(LiveRow(schema, raw).value, schema.pk))
  {
    hide Has, Stride, RecordRow, EncodeFields, KeyOfRow, NoNull, Desc.Usable, RecordTransaction, PayloadFrom, DataStart,
         Fixed, SizeSum;
    SnapshotKeyIs(schema, raw);
    var rec := RecordCurrent(raw).value;
    KeyOfRecordRow(schema, rec, Format(raw));
    KeyLength(rec, schema.pk, schema.SlotsFor(Format(raw)), schema.scaling);
  }

  /** The fields of a live record's key fit their length words. */
  lemma LiveKeyFits(schema: Schema, raw: Bytes, key: Row, row: Row)
    requires Tracking(schema) && IsLive(schema, raw, key, row) && |raw| < U16_LIMIT
    ensures |key| == |schema.pk| && PgCopy.AllFit(key)
  {
    hide Has, Stride, RecordRow, RecordKey, PgCopy.AllFit, KeyOfRow, Desc.Usable, PayloadFrom, DataStart;
    CurrentIsLive(raw);
    var rec := RecordCdc(raw).value.rec;
    RecordBounded(raw);
    KeyOfRecordRow(schema, rec, Format(raw));
    RecordKeyFits(schema, rec, Format(raw));
  }

  // ── Snapshots ──

  /** The bytes are the snapshot key of some record of the page. */
  ghost predicate PageKey(schema: Schema, page: Bytes, k: Bytes)
    requires schema.Valid()
  {
    exists raw :: OnPage(page, raw) && SnapshotKey(schema, raw) == Some(k)
  }

  /** Every current version on the page has a key of the fixed length, so none is left out of its snapshot. */
  ghost predicate AllKeyed(schema: Schema, page: Bytes)
    requires schema.Valid()
  {
    forall raw :: OnPage(page, raw) && LiveRow(schema, raw).Some? ==> SnapshotKey(schema, raw).Some?
  }

  /** The snapshot of a page is the set of encoded keys of its live rows. */
  lemma PageKeysAreLive(schema: Schema, page: Bytes, key: Row)
    requires Tracking(schema) && AllKeyed(schema, page) && |key| == |schema.pk| && PgCopy.AllFit(key)
    ensures PageKey(schema, page, EncodeFields(key)) <==>
              exists raw, row :: OnPage(page, raw) && IsLive(schema, raw, key, row)
  {
    hide Stride, SnapshotKey, LiveRow, OnPage, KeyOfRow, EncodeFields, PgCopy.AllFit, Desc.Usable, RecordTransaction;
    var k := EncodeFields(key);
    if PageKey(schema, page, k) {
      var raw :| OnPage(page, raw) && SnapshotKey(schema, raw) == Some(k);
      SnapshotKeyIs(schema, raw);
      var row := LiveRow(schema, raw).value;
      var other := KeyOfRow(row, schema.pk);
      OnPageBounded(page, raw);
      LiveKeyFits(schema, raw, other, row);
      PgCopy.FieldsInjective(key, other);
      assert IsLive(schema, raw, key, row);
    }
    if raw, row :| OnPage(page, raw) && IsLive(schema, raw, key, row) {
      SnapshotKeyIs(schema, raw);
      assert SnapshotKey(schema, raw) == Some(k);
    }
  }

  /** What a scan puts into a rebuilt page's snapshot. */
  lemma NewSnapshotIs(v: View, gens: Gens, first: bool, p: int, flat: Bytes)
    requires v.schema.Valid() && v.schema.pkByteLen > 0 && Rebuilt(v, gens, first, p) &&
             IsPageSnapshot(v, gens, first, p, flat)
    ensures forall k :: InFlat(flat, v.schema.pkByteLen, k) <==> PageKey(v.schema, v.db.Page(p), k)
  {
    hide Stride, SnapshotKey, OnPage, SlotsFound, IsPageSnapshot, InFlat, RecordTransaction, PageFound;
    SnapshotWhole(v, gens, first, p, flat);
    PageFoundIs(v, gens, first, p);
    forall raw | SnapshotKey(v.schema, raw).Some?
      ensures RecordTransaction(raw).Some?
    {
      KeyHasTransaction(v.schema, raw);
    }
  }

  lemma KeyHasTransaction(schema: Schema, raw: Bytes)
    requires schema.Valid() && SnapshotKey(schema, raw).Some?
    ensures RecordTransaction(raw).Some?
  {
    hide Stride, RecordTransaction, RecordKey, EncodeFields, Has;
    WholeHasTransaction(raw);
  }
}
