/**
 Firebird record fields in PostgreSQL's binary COPY form, rows and primary keys made of
 them, and the fixed length of an encoded key.
 */
module Fields {
  import opened Bytes
  import Text

  const DTYPE_TEXT := 1
  const DTYPE_CSTRING := 2
  const DTYPE_VARYING := 3
  const DTYPE_SHORT := 8
  const DTYPE_LONG := 9
  const DTYPE_QUAD := 10
  const DTYPE_REAL := 11
  const DTYPE_DOUBLE := 12
  const DTYPE_D_FLOAT := 13
  const DTYPE_SQL_DATE := 14
  const DTYPE_SQL_TIME := 15
  const DTYPE_TIMESTAMP := 16
  const DTYPE_INT64 := 19
  const DTYPE_DBKEY := 20
  const DTYPE_BOOLEAN := 21
  const DTYPE_SQL_TIME_TZ := 25
  const DTYPE_TIMESTAMP_TZ := 26

  const PG_EPOCH_MJD := 51544
  const DAY_US := 86_400_000_000

  datatype Desc = Desc(dtype: int, scale: int, length: nat, offset: nat)
  {
    predicate Scaled() {
      scale != 0 && (dtype == DTYPE_SHORT || dtype == DTYPE_LONG || dtype == DTYPE_INT64 || dtype == DTYPE_QUAD)
    }

    /** A descriptor whose scale indexes the table of powers of ten. */
    predicate Usable() {
      Scaled() ==> -18 <= scale < 0
    }
  }

  const DESC_ZERO := Desc(0, 0, 0, 0)

  /** Where a column sits in one record format, and its bit in the null bitmap. */
  datatype Slot = Slot(desc: Desc, nullByte: nat, nullMask: nat)

  /** The double nearest to `v / 10^decimals`, as its 64 bits; the rounding is not modelled. */
  type Scaling = (int, int) -> int

  datatype Field = Null | Value(bytes: Bytes)
  {
    predicate Fits() {
      Value? ==> |bytes| < 0x8000_0000
    }
  }

  type Row = seq<Field>

  // ── Text ──

  /** The length up to the last byte above a blank; `none` if there is no such byte. */
  function TrimmedLength(raw: Bytes, none: nat): nat {
    if raw == [] then none
    else if raw[|raw| - 1] > 0x20 then |raw|
    else TrimmedLength(raw[..|raw| - 1], none)
  }

  lemma {:induction false} TrimmedInside(raw: Bytes, none: nat)
    ensures TrimmedLength(raw, none) <= |raw| || TrimmedLength(raw, none) == none
  {
    if raw != [] && raw[|raw| - 1] <= 0x20 { TrimmedInside(raw[..|raw| - 1], none); }
  }

  method Trim(raw: Bytes, none: nat) returns (tl: nat)
    requires none <= |raw|
    ensures tl == TrimmedLength(raw, none) && tl <= |raw|
  {
    tl := |raw|;
    assert raw[..tl] == raw;
    while tl > 0 && raw[tl - 1] <= 0x20
      invariant tl <= |raw| && TrimmedLength(raw[..tl], none) == TrimmedLength(raw, none)
    {
      assert raw[..tl][..tl - 1] == raw[..tl - 1];
      tl := tl - 1;
    }
    if tl == 0 { tl := none; }
  }

  function Min(a: nat, b: nat): nat {
    if a < b then a else b
  }

  function TrimmedText(raw: Bytes, none: nat): Bytes {
    var tl := TrimmedLength(raw, none);
    if tl <= |raw| then Text.Encoded(raw[..tl]) else []
  }

  // ── One field ──

  function Int16(rec: Bytes, i: nat): int requires i + 2 <= |rec| { Signed(U16Le(rec, i), U16_LIMIT) }
  function Int32(rec: Bytes, i: nat): int requires i + 4 <= |rec| { Signed(U32Le(rec, i), U32_LIMIT) }
  function Int64(rec: Bytes, i: nat): int requires i + 8 <= |rec| { Signed(U64Le(rec, i), U64_LIMIT) }

  /** An integer column: itself, or the bits of the scaled double. */
  function IntegerField(v: int, plain: Bytes, d: Desc, scaling: Scaling): Field {
    if d.scale == 0 then Value(plain) else Value(Be64(scaling(v, -d.scale)))
  }

  /** What a column holds in a decompressed record; null when the record ends before it. */
  function FieldOf(rec: Bytes, d: Desc, scaling: Scaling): Field {
    var s := d.offset;
    if d.dtype == DTYPE_TEXT || d.dtype == DTYPE_CSTRING then
      var end := Min(s + d.length, |rec|);
      if end <= s then Null else Value(TrimmedText(rec[s..end], 0))
    else if d.dtype == DTYPE_VARYING then
      if s + 2 > |rec| then Null else
      var data := rec[s + 2..Min(s + 2 + U16Le(rec, s), |rec|)];
      Value(TrimmedText(data, |data|))
    else if d.dtype == DTYPE_SHORT then
      if s + 2 > |rec| then Null
      else IntegerField(Int16(rec, s), Be16(Int16(rec, s)), d, scaling)
    else if d.dtype == DTYPE_LONG then
      if s + 4 > |rec| then Null
      else IntegerField(Int32(rec, s), Be32(Int32(rec, s)), d, scaling)
    else if d.dtype == DTYPE_INT64 || d.dtype == DTYPE_QUAD then
      if s + 8 > |rec| then Null
      else IntegerField(Int64(rec, s), Be64(Int64(rec, s)), d, scaling)
    else if d.dtype == DTYPE_REAL then
      if s + 4 > |rec| then Null else Value(ToBe(U32Le(rec, s), 4))
    else if d.dtype == DTYPE_DOUBLE || d.dtype == DTYPE_D_FLOAT then
      if s + 8 > |rec| then Null else Value(ToBe(U64Le(rec, s), 8))
    else if d.dtype == DTYPE_SQL_DATE then
      if s + 4 > |rec| then Null else Value(Be32(Int32(rec, s) - PG_EPOCH_MJD))
    else if d.dtype == DTYPE_SQL_TIME || d.dtype == DTYPE_SQL_TIME_TZ then
      if s + 4 > |rec| then Null else Value(Be64(U32Le(rec, s) * 100))
    else if d.dtype == DTYPE_TIMESTAMP || d.dtype == DTYPE_TIMESTAMP_TZ then
      if s + 8 > |rec| then Null
      else Value(Be64((Int32(rec, s) - PG_EPOCH_MJD) * DAY_US + U32Le(rec, s + 4) * 100))
    else if d.dtype == DTYPE_BOOLEAN then
      if s >= |rec| then Null else Value([if rec[s] != 0 then 1 else 0])
    else if d.dtype == DTYPE_DBKEY then
      var end := Min(s + d.length, |rec|);
      if end <= s then Value([]) else Value(rec[s..end])
    else Null
  }

  /** The COPY form of a field: a length, -1 for null, and the payload. */
  function EncodeField(f: Field): Bytes {
    match f
    case Null => Be32(-1)
    case Value(bytes) => Be32(|bytes|) + bytes
  }

  /** Appends a column to a COPY buffer. A record ending before a DBKEY column is a panic in the source. */
  method WriteFieldBinary(rec: Bytes, d: Desc, scaling: Scaling, out: Bytes) returns (r: Bytes)
    requires d.Usable() && (d.dtype == DTYPE_DBKEY ==> d.offset <= |rec|)
    ensures r == out + EncodeField(FieldOf(rec, d, scaling))
  {
    hide Int16, Int32, Int64, Be16, Be32, Be64, ToBe, U16Le, U32Le, U64Le, TrimmedLength, Text.Encoded,
         IntegerField;
    var s := d.offset;
    var f: Field;
    if d.dtype == DTYPE_TEXT || d.dtype == DTYPE_CSTRING {
      var end := Min(s + d.length, |rec|);
      if end <= s { return out + Be32(-1); }
      var raw := rec[s..end];
      var tl := Trim(raw, 0);
      var text := Text.Win1252ToUtf8(raw[..tl]);
      f := Value(text);
    } else if d.dtype == DTYPE_VARYING {
      if s + 2 > |rec| { return out + Be32(-1); }
      var vlen := U16Le(rec, s);
      var data := rec[s + 2..Min(s + 2 + vlen, |rec|)];
      var tl := Trim(data, |data|);
      var text := Text.Win1252ToUtf8(data[..tl]);
      f := Value(text);
    } else {
      f := FieldOf(rec, d, scaling);
    }
    if f == Null { return out + Be32(-1); }
    r := out + Be32(|f.bytes|);
    r := r + f.bytes;
    ConcatAssociates(out, Be32(|f.bytes|), f.bytes);
  }

  // ── Slots, rows and keys ──

  /** The null bit wins; a bitmap byte outside the record counts as all ones. */
  predicate NullBit(rec: Bytes, slot: Slot) {
    var nb := if slot.nullByte < |rec| then rec[slot.nullByte] as int else 0xFF;
    slot.nullMask > 0 && Bit(nb, slot.nullMask)
  }

  function SlotField(rec: Bytes, slot: Slot, scaling: Scaling): Field {
    if NullBit(rec, slot) then Null else FieldOf(rec, slot.desc, scaling)
  }

  function RowOf(rec: Bytes, slots: seq<Slot>, scaling: Scaling): (row: Row)
    ensures |row| == |slots|
  {
    seq(|slots|, i requires 0 <= i < |slots| => SlotField(rec, slots[i], scaling))
  }

  function EncodeFields(fs: Row): Bytes {
    if fs == [] then [] else EncodeField(fs[0]) + EncodeFields(fs[1..])
  }

  lemma {:induction false} EncodeFieldsAppend(fs: Row, f: Field)
    ensures EncodeFields(fs + [f]) == EncodeFields(fs) + EncodeField(f)
  {
    hide EncodeField;
    if fs == [] {
      assert (fs + [f])[1..] == [];
      assert EncodeField(f) + [] == EncodeField(f) && [] + EncodeField(f) == EncodeField(f);
    } else {
      EncodeFieldsAppend(fs[1..], f);
      assert (fs + [f])[1..] == fs[1..] + [f];
      ConcatAssociates(EncodeField(fs[0]), EncodeFields(fs[1..]), EncodeField(f));
    }
  }
}
