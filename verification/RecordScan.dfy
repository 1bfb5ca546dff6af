/** One record of the scan loop: the buffers and counters it grows. */
module RecordScan {
  import opened Bytes
  import opened Fields
  import opened Keys
  import opened Ods
  import opened Changes
  import opened ChunkRows
  import PgCopy

  /** The scan's growing state; `pagePks` is the current page's flat key list. */
  datatype Buffers = Buffers(
    upsertBuf: Bytes, upserts: nat, deleteBuf: Bytes, deletes: nat, maxTxn: nat, checked: nat, pagePks: Bytes)

  function Max(a: int, b: int): int {
    if b > a then b else a
  }

  /** An open COPY stream: header and tuples, the trailer still to come. */
  function Opened(rows: seq<Row>): Bytes {
    PgCopy.Header() + PgCopy.EncodeTuples(rows)
  }

  /** The buffers hold exactly what was found so far. */
  ghost predicate Holds(b: Buffers, lastTxn: nat, f: Found) {
    b.upsertBuf == Opened(f.upserts) && b.upserts == |f.upserts| &&
    b.deleteBuf == Opened(f.stubs) && b.deletes == |f.stubs| &&
    b.maxTxn == Max(lastTxn, f.maxTxn) && b.checked == f.checked && b.pagePks == Join(f.keys)
  }

  lemma OpenedGrows(buf: Bytes, rows: seq<Row>, count: Bytes, row: Row)
    requires buf == Opened(rows) && count == Be16(|row|)
    ensures buf + count + EncodeFields(row) == Opened(rows + [row])
  {
    hide EncodeFields, Be16;
    PgCopy.EncodeTuplesAppend(rows, row);
    ConcatAssociates(PgCopy.Header(), PgCopy.EncodeTuples(rows), PgCopy.EncodeTuple(row));
    ConcatAssociates(buf, count, EncodeFields(row));
  }

  lemma {:induction false} JoinAppend(cs: seq<Bytes>, c: Bytes)
    ensures Join(cs + [c]) == Join(cs) + c
  {
    if cs == [] {
      assert (cs + [c])[1..] == [];
      assert c + [] == c && [] + c == c;
    } else {
      JoinAppend(cs[1..], c);
      assert (cs + [c])[1..] == cs[1..] + [c];
      ConcatAssociates(cs[0], Join(cs[1..]), c);
    }
  }

  lemma AddNothing<T>(s: seq<T>)
    ensures s + [] == s
  {
  }

  method AppendRow(buf: Bytes, ghost rows: seq<Row>, schema: Schema, rec: Bytes, format: int) returns (out: Bytes)
    requires schema.Valid() && buf == Opened(rows)
    ensures out == Opened(rows + [RecordRow(schema, rec, format)])
  {
    hide Opened, Be16, EncodeFields, FieldOf, NullBit, Stride, Desc.Usable;
    out := buf + Be16(|schema.slots|);
    out := WriteFields(rec, schema.SlotsFor(format), schema.scaling, out);
    OpenedGrows(buf, rows, Be16(|schema.slots|), RecordRow(schema, rec, format));
  }

  method AppendKey(buf: Bytes, ghost rows: seq<Row>, schema: Schema, rec: Bytes, format: int) returns (out: Bytes)
    requires schema.Valid() && Indexed(schema.pk) && buf == Opened(rows)
    ensures out == Opened(rows + [RecordKey(schema, rec, format)])
  {
    hide Opened, Be16, EncodeFields, FieldOf, NullBit, Stride, Desc.Usable;
    out := buf + Be16(|schema.pk|);
    out := WriteKey(rec, schema.pk, schema.SlotsFor(format), schema.scaling, out);
    OpenedGrows(buf, rows, Be16(|schema.pk|), RecordKey(schema, rec, format));
  }

  /** A live record of a rebuilt page adds its key to the page's list. */
  method TakeSnapshotKey(schema: Schema, raw: Bytes, deleted: Option<bool>, rec: Bytes, pks: Bytes,
      ghost keys: seq<Bytes>)
    returns (out: Bytes)
    requires schema.Valid() && HasHeader(raw) && !Has(raw, RHD_CHAIN) && pks == Join(keys)
    requires match RecordCdc(raw)
             case None => deleted == None
             case Some(u) => deleted == Some(u.deleted) && rec == u.rec
    ensures out == Join(keys + ToSeq(SnapshotKey(schema, raw)))
  {
    hide Has, RecordCdc, RecordKey, EncodeFields, Stride, Join;
    out := pks;
    AddNothing(keys);
    if deleted == Some(false) {
      var ok, k := EncodePkPgcopy(rec, schema, Format(raw));
      if ok && |k| == schema.pkByteLen {
        out := out + k;
        JoinAppend(keys, k);
      }
    }
  }

  /** A stub whose key can be read adds it to the delete stream. */
  method TakeStub(v: View, raw: Bytes, rec: Bytes, buf: Bytes, ghost stubs: seq<Row>) returns (taken: bool, out: Bytes)
    requires v.schema.Valid() && HasHeader(raw) && RecordCdc(raw).Some? && RecordCdc(raw).value.deleted
    requires buf == Opened(stubs)
    ensures out == Opened(stubs + ToSeq(StubKey(v.db, v.schema, raw))) &&
            (taken <==> StubKey(v.db, v.schema, raw).Some?)
  {
    hide Has, RecordCdc, RecordKey, DeletedVersion, Opened, Stride;
    taken, out := false, buf;
    AddNothing(stubs);
    if exists i :: 0 <= i < |v.schema.pk| && v.schema.pk[i] == None { return; }
    var old', format;
    taken, old', format := FollowChain(v.db, raw, rec);
    if taken { out := AppendKey(out, stubs, v.schema, old', format); }
  }

  method ScanRecord(v: View, look: Look, raw: Bytes, b: Buffers, ghost f: Found) returns (b': Buffers)
    requires v.schema.Valid() && Holds(b, v.lastTxn, f)
    ensures Holds(b', v.lastTxn, f.Add(Effect(v, look, raw)))
  {
    b' := b;
    NothingFound(b, v.lastTxn, f);
    if |raw| < RHD_SIZE { return; }
    var deleteOnly := !look.changed && !look.rebuild;
    if deleteOnly && !Has(raw, RHD_DELETED) { return; }
    var t := RecordTransaction(raw);
    if t == None { return; }
    b' := ScanWhole(v, look, raw, t.value, b, f);
  }

  lemma NothingFound(b: Buffers, lastTxn: nat, f: Found)
    requires Holds(b, lastTxn, f)
    ensures Holds(b, lastTxn, f.Add(NOTHING))
  {
    hide Opened, Join;
    AddNothing(f.keys);
    AddNothing(f.upserts);
    AddNothing(f.stubs);
  }

  /** A record that is neither a fragment nor a blob, past the fast path. */
  method ScanWhole(v: View, look: Look, raw: Bytes, txn: nat, b: Buffers, ghost f: Found) returns (b': Buffers)
    requires v.schema.Valid() && Holds(b, v.lastTxn, f) && HasHeader(raw) && RecordTransaction(raw) == Some(txn)
    ensures Holds(b', v.lastTxn, f.Add(SlowEffect(v, look, raw)))
  {
    hide Has, RecordCdc, RecordRow, RecordKey, DeletedVersion, Opened, Join, Stride, RecordTransaction;
    b' := b;
    ghost var e := SlowEffect(v, look, raw);
    AddNothing(f.keys);
    AddNothing(f.upserts);
    AddNothing(f.stubs);
    var wantPk := look.rebuild && !Has(raw, RHD_DELETED) && !Has(raw, RHD_CHAIN) && !Partial(raw);
    var wantChange := txn > v.lastTxn;
    StubHasNoKey(v.schema, raw);
    b' := b'.(checked := b.checked + 1);
    if !wantPk && !wantChange { return; }
    var deleted, rec := UnpackRecordCdc(raw, []);
    if wantPk {
      var pks := TakeSnapshotKey(v.schema, raw, deleted, rec, b.pagePks, f.keys);
      b' := b'.(pagePks := pks);
    }
    if !wantChange { return; }
    if txn > b.maxTxn { b' := b'.(maxTxn := txn); }
    if deleted == None { return; }
    if deleted.value {
      var taken, out := TakeStub(v, raw, rec, b.deleteBuf, f.stubs);
      b' := b'.(deleteBuf := out);
      if taken { b' := b'.(deletes := b.deletes + 1); }
    } else if look.changed {
      var out := AppendRow(b.upsertBuf, f.upserts, v.schema, rec, Format(raw));
      b' := b'.(upsertBuf := out, upserts := b.upserts + 1);
    }
  }

  lemma StubHasNoKey(schema: Schema, raw: Bytes)
    requires schema.Valid() && HasHeader(raw)
    ensures Has(raw, RHD_DELETED) || Has(raw, RHD_CHAIN) || Partial(raw) ==> SnapshotKey(schema, raw) == None
    ensures RecordCdc(raw).Some? ==> RecordCdc(raw).value.deleted == Has(raw, RHD_DELETED)
  {
    hide Has, PayloadFrom, DataStart, Stride;
  }
}
