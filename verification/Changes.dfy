/**
 What a scan takes from one record of a data page: a key for the page's snapshot, a row to
 upsert, a key to delete, and the record's transaction.
 */
module Changes {
  import opened Bytes
  import opened Fields
  import opened Keys
  import opened Ods

  /** A table's columns and key: the slots of the latest format, and of each format on disk. */
  datatype Schema = Schema(
    scaling: Scaling, slots: seq<Slot>, formats: map<int, seq<Slot>>, pk: PkIndices, pkByteLen: nat)
  {
    function SlotsFor(format: int): seq<Slot> {
      if format in formats then formats[format] else slots
    }

    ghost predicate Valid() {
      InRange(pk, |slots|) && pkByteLen == Stride(pk, slots) &&
      Columns(slots) && forall f :: f in formats ==> Columns(formats[f])
    }

    /** One slot per column, each of a type the writer does not panic on. */
    ghost predicate Columns(ss: seq<Slot>) {
      |ss| == |slots| && forall i :: 0 <= i < |ss| ==> ss[i].desc.Usable() && ss[i].desc.dtype != DTYPE_DBKEY
    }
  }

  /** The cached schema, from the column order and the descriptors of every format. */
  function SchemaOf(scaling: Scaling, fieldOrder: seq<nat>, latest: seq<Desc>, formats: map<int, seq<Desc>>,
      pk: PkIndices)
    : (s: Schema)
    requires InRange(pk, |fieldOrder|)
  {
    var slots := BuildSlots(fieldOrder, latest);
    Schema(scaling, slots, map f | f in formats :: BuildSlots(fieldOrder, formats[f]), pk, Stride(pk, slots))
  }

  ghost predicate AllUsable(descs: seq<Desc>) {
    forall i :: 0 <= i < |descs| ==> descs[i].Usable() && descs[i].dtype != DTYPE_DBKEY
  }

  /** Whatever format a record names, its slots match the table's columns one to one. */
  lemma SchemaIsValid(scaling: Scaling, fieldOrder: seq<nat>, latest: seq<Desc>, formats: map<int, seq<Desc>>,
      pk: PkIndices)
    requires InRange(pk, |fieldOrder|) && AllUsable(latest) && forall f :: f in formats ==> AllUsable(formats[f])
    ensures SchemaOf(scaling, fieldOrder, latest, formats, pk).Valid()
  {
    var s := SchemaOf(scaling, fieldOrder, latest, formats, pk);
    SlotsUsable(s, fieldOrder, latest);
    forall f | f in formats
      ensures s.Columns(s.formats[f])
    {
      SlotsUsable(s, fieldOrder, formats[f]);
    }
  }

  lemma SlotsUsable(s: Schema, fieldOrder: seq<nat>, descs: seq<Desc>)
    requires AllUsable(descs) && |s.slots| == |fieldOrder|
    ensures s.Columns(BuildSlots(fieldOrder, descs))
  {
    var ss := BuildSlots(fieldOrder, descs);
    forall i | 0 <= i < |ss|
      ensures ss[i].desc.Usable() && ss[i].desc.dtype != DTYPE_DBKEY
    {
    }
  }

  // ── Reading a record ──

  function RecordRow(schema: Schema, rec: Bytes, format: int): Row {
    RowOf(rec, schema.SlotsFor(format), schema.scaling)
  }

  function RecordKey(schema: Schema, rec: Bytes, format: int): Row
    requires schema.Valid() && Indexed(schema.pk)
  {
    KeyFields(rec, schema.pk, schema.SlotsFor(format), schema.scaling)
  }

  /**
   A column of a record is read by the descriptor of the record's own format, or of the
   latest when that format is not on disk, and is null if the bitmap says so or the format
   lacks it.
   */
  lemma RecordColumnIs(scaling: Scaling, fieldOrder: seq<nat>, latest: seq<Desc>, formats: map<int, seq<Desc>>,
      pk: PkIndices, rec: Bytes, format: int, i: nat)
    requires InRange(pk, |fieldOrder|) && i < |fieldOrder|
    ensures var row := RecordRow(SchemaOf(scaling, fieldOrder, latest, formats, pk), rec, format);
            var descs, fid := if format in formats then formats[format] else latest, fieldOrder[i];
            |row| == |fieldOrder| &&
            row[i] == if NullFlag(rec, fid) || fid >= |descs| then Null else FieldOf(rec, descs[fid], scaling)
  {
    hide FieldOf, NullFlag, Stride, SlotField;
    ColumnIs(rec, fieldOrder, if format in formats then formats[format] else latest, scaling, i);
  }

  /** A record's key is its row's key columns, in the order of the key. */
  lemma RecordKeyIs(schema: Schema, rec: Bytes, format: int, j: nat)
    requires schema.Valid() && Indexed(schema.pk) && j < |schema.pk|
    ensures |RecordKey(schema, rec, format)| == |schema.pk|
    ensures RecordKey(schema, rec, format)[j] == RecordRow(schema, rec, format)[schema.pk[j].value]
  {
    hide SlotField, Stride, Desc.Usable;
  }

  /** The row of a slot that is whole and no delete stub; a back version counts. */
  function ChangedRow(schema: Schema, raw: Bytes): Option<Row> {
    match RecordCdc(raw)
    case None => None
    case Some(u) => if u.deleted then None else Some(RecordRow(schema, u.rec, Format(raw)))
  }

  /** The key a slot adds to its page's snapshot: current versions only, and of the fixed length. */
  function SnapshotKey(schema: Schema, raw: Bytes): Option<Bytes>
    requires schema.Valid()
  {
    if !HasHeader(raw) || Has(raw, RHD_CHAIN) || !Indexed(schema.pk) then None else
    match RecordCdc(raw)
    case None => None
    case Some(u) =>
      if u.deleted then None else
      var k := EncodeFields(RecordKey(schema, u.rec, Format(raw)));
      if |k| == schema.pkByteLen then Some(k) else None
  }

  /** The key a delete stub names, read from the version it deleted in that version's format. */
  function StubKey(db: Db, schema: Schema, raw: Bytes): Option<Row>
    requires schema.Valid()
  {
    match RecordCdc(raw)
    case None => None
    case Some(u) =>
      if !u.deleted || !Indexed(schema.pk) then None else
      match DeletedVersion(db, raw)
      case None => None
      case Some(v) => Some(RecordKey(schema, v.rec, v.format))
  }

  function ToSeq<T>(o: Option<T>): seq<T> {
    match o
    case None => []
    case Some(x) => [x]
  }

  // ── What a record contributes ──

  datatype View = View(db: Db, schema: Schema, lastTxn: nat)

  /** Whether a page's generation moved, and whether its snapshot is rebuilt. */
  datatype Look = Look(changed: bool, rebuild: bool)

  /** Keys, rows and stub keys found, the highest transaction, and how many records were looked at. */
  datatype Found = Found(keys: seq<Bytes>, upserts: seq<Row>, stubs: seq<Row>, maxTxn: nat, checked: nat)
  {
    function Add(more: Found): Found {
      Found(keys + more.keys, upserts + more.upserts, stubs + more.stubs,
            if more.maxTxn > maxTxn then more.maxTxn else maxTxn, checked + more.checked)
    }
  }

  const NOTHING := Found([], [], [], 0, 0)

  function IfThen<T>(b: bool, s: seq<T>): seq<T> {
    if b then s else []
  }

  /** A record looked at without the fast path. */
  function SlowEffect(v: View, look: Look, raw: Bytes): Found
    requires v.schema.Valid()
  {
    match RecordTransaction(raw)
    case None => NOTHING
    case Some(txn) =>
      var news := txn > v.lastTxn;
      Found(IfThen(look.rebuild, ToSeq(SnapshotKey(v.schema, raw))),
            IfThen(news && look.changed, ToSeq(ChangedRow(v.schema, raw))),
            IfThen(news, ToSeq(StubKey(v.db, v.schema, raw))),
            if news then txn else 0,
            1)
  }

  /** On a page that is unchanged and not rebuilt only delete stubs are looked at. */
  function Effect(v: View, look: Look, raw: Bytes): Found
    requires v.schema.Valid()
  {
    if !HasHeader(raw) || (!look.changed && !look.rebuild && !Has(raw, RHD_DELETED)) then NOTHING
    else SlowEffect(v, look, raw)
  }

  /** The fast path loses no row and no key; it can only miss transactions. */
  lemma FastPathRefines(v: View, look: Look, raw: Bytes)
    requires v.schema.Valid()
    ensures var fast, slow := Effect(v, look, raw), SlowEffect(v, look, raw);
            fast.keys == slow.keys && fast.upserts == slow.upserts && fast.stubs == slow.stubs &&
              fast.maxTxn <= slow.maxTxn && fast.checked <= slow.checked
    ensures Effect(v, look, raw).maxTxn < SlowEffect(v, look, raw).maxTxn <==>
            HasHeader(raw) && !look.changed && !look.rebuild && !Has(raw, RHD_DELETED) &&
            RecordTransaction(raw).Some? && RecordTransaction(raw).value > v.lastTxn
  {
    hide Has, U32Le, U16Le, PayloadFrom, DeletedVersion, RecordRow, RecordKey;
    if HasHeader(raw) && !Has(raw, RHD_DELETED) { LiveIsNoStub(raw); }
  }

  lemma LiveIsNoStub(raw: Bytes)
    requires HasHeader(raw) && !Has(raw, RHD_DELETED)
    ensures RecordCdc(raw).Some? ==> !RecordCdc(raw).value.deleted
  {
  }

  // ── Writing rows and keys ──

  /** The columns of a record after `base`, null bits first. */
  method WriteFields(rec: Bytes, slots: seq<Slot>, scaling: Scaling, base: Bytes) returns (out: Bytes)
    requires forall i :: 0 <= i < |slots| ==> slots[i].desc.Usable() && slots[i].desc.dtype != DTYPE_DBKEY
    ensures out == base + EncodeFields(RowOf(rec, slots, scaling))
  {
    hide FieldOf, NullBit, EncodeField, EncodeFields, Desc.Usable;
    ghost var row := RowOf(rec, slots, scaling);
    out := base;
    assert row[..0] == [];
    NoFields(base);
    for i := 0 to |slots|
      invariant out == base + EncodeFields(row[..i])
    {
      out := WriteSlot(rec, slots[i], scaling, out);
      assert row[..i + 1] == row[..i] + [row[i]];
      EncodeFieldsAppend(row[..i], row[i]);
      ConcatAssociates(base, EncodeFields(row[..i]), EncodeField(row[i]));
    }
    assert row[..|slots|] == row;
  }

  lemma NoFields(base: Bytes)
    ensures base == base + EncodeFields([])
  {
  }

  method WriteSlot(rec: Bytes, slot: Slot, scaling: Scaling, out: Bytes) returns (r: Bytes)
    requires slot.desc.Usable() && slot.desc.dtype != DTYPE_DBKEY
    ensures r == out + EncodeField(SlotField(rec, slot, scaling))
  {
    hide FieldOf, Desc.Usable;
    if NullBit(rec, slot) {
      r := out + Be32(-1);
    } else {
      r := WriteFieldBinary(rec, slot.desc, scaling, out);
    }
  }

  /** The key columns of a record after `base`. */
  method WriteKey(rec: Bytes, pk: PkIndices, slots: seq<Slot>, scaling: Scaling, base: Bytes) returns (out: Bytes)
    requires InRange(pk, |slots|) && Indexed(pk)
    requires forall i :: 0 <= i < |slots| ==> slots[i].desc.Usable() && slots[i].desc.dtype != DTYPE_DBKEY
    ensures out == base + EncodeFields(KeyFields(rec, pk, slots, scaling))
  {
    hide FieldOf, NullBit, EncodeField, EncodeFields, Desc.Usable;
    ghost var key := KeyFields(rec, pk, slots, scaling);
    out := base;
    assert key[..0] == [];
    NoFields(base);
    for i := 0 to |pk|
      invariant out == base + EncodeFields(key[..i])
    {
      out := WriteSlot(rec, slots[pk[i].value], scaling, out);
      assert key[..i + 1] == key[..i] + [key[i]];
      EncodeFieldsAppend(key[..i], key[i]);
      ConcatAssociates(base, EncodeFields(key[..i]), EncodeField(key[i]));
    }
    assert key[..|pk|] == key;
  }

  /** The encoded key of a record, or an error when a key column is unknown. */
  method EncodePkPgcopy(rec: Bytes, schema: Schema, format: int) returns (ok: bool, out: Bytes)
    requires schema.Valid()
    ensures ok <==> Indexed(schema.pk)
    ensures ok ==> out == EncodeFields(RecordKey(schema, rec, format))
  {
    hide FieldOf, NullBit, EncodeField, EncodeFields, Desc.Usable, Stride;
    if exists i :: 0 <= i < |schema.pk| && schema.pk[i] == None { return false, []; }
    out := WriteKey(rec, schema.pk, schema.SlotsFor(format), schema.scaling, []);
    ok := true;
    assert [] + EncodeFields(RecordKey(schema, rec, format)) == EncodeFields(RecordKey(schema, rec, format));
  }
}
