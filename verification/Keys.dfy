/**
 Column slots per record format, the fixed length of an encoded primary key, and which key
 columns the encoding tells apart.
 */
module Keys {
  import opened Arith
  import opened Bytes
  import opened Fields
  import PgCopy
  import Sqz
  import Text

  // ── Slots of one record format ──

  function Mask(bit: nat): (m: nat)
    ensures m > 0
  {
    if bit == 0 then 1 else 2 * Mask(bit - 1)
  }

  function SlotOf(fid: nat, descs: seq<Desc>): Slot {
    Slot(if fid < |descs| then descs[fid] else DESC_ZERO, fid / 8, Mask(fid % 8))
  }

  /** The slots of a format in column order, from each column's field id. */
  function BuildSlots(fieldOrder: seq<nat>, descs: seq<Desc>): (slots: seq<Slot>)
    ensures |slots| == |fieldOrder|
  {
    seq(|fieldOrder|, i requires 0 <= i < |fieldOrder| => SlotOf(fieldOrder[i], descs))
  }

  /** The extractor's slot also says whether the format had the column at all. */
  datatype CopySlot = CopySlot(slot: Slot, present: bool)

  function CopySlotOf(fid: nat, descs: seq<Desc>): CopySlot {
    if fid < |descs| then CopySlot(Slot(descs[fid], fid / 8, Mask(fid % 8)), true)
    else CopySlot(Slot(DESC_ZERO, 0, 0), false)
  }

  function SlotsForFormat(fieldOrder: seq<nat>, descs: seq<Desc>): (slots: seq<CopySlot>)
    ensures |slots| == |fieldOrder|
  {
    seq(|fieldOrder|, i requires 0 <= i < |fieldOrder| => CopySlotOf(fieldOrder[i], descs))
  }

  function CopyField(rec: Bytes, c: CopySlot, scaling: Scaling): Field {
    if !c.present then Null else SlotField(rec, c.slot, scaling)
  }

  /** Change capture and extraction decode every record alike; a column the format lacks is null. */
  lemma DecodersAgree(rec: Bytes, fieldOrder: seq<nat>, descs: seq<Desc>, scaling: Scaling, i: nat)
    requires i < |fieldOrder|
    ensures RowOf(rec, BuildSlots(fieldOrder, descs), scaling)[i] ==
            CopyField(rec, SlotsForFormat(fieldOrder, descs)[i], scaling)
    ensures fieldOrder[i] >= |descs| ==> RowOf(rec, BuildSlots(fieldOrder, descs), scaling)[i] == Null
  {
  }

  // ── Fixed-length keys ──

  /** The payload every non-null value of a column has; 0 when it varies. */
  function PayloadSize(d: Desc): nat {
    if d.dtype == DTYPE_SHORT then (if d.scale == 0 then 2 else 8)
    else if d.dtype == DTYPE_LONG then (if d.scale == 0 then 4 else 8)
    else if d.dtype == DTYPE_INT64 || d.dtype == DTYPE_QUAD then 8
    else if d.dtype == DTYPE_REAL || d.dtype == DTYPE_SQL_DATE then 4
    else if d.dtype == DTYPE_DOUBLE || d.dtype == DTYPE_D_FLOAT then 8
    else if d.dtype == DTYPE_SQL_TIME || d.dtype == DTYPE_SQL_TIME_TZ then 8
    else if d.dtype == DTYPE_TIMESTAMP || d.dtype == DTYPE_TIMESTAMP_TZ then 8
    else if d.dtype == DTYPE_BOOLEAN then 1
    else 0
  }

  type PkIndices = seq<Option<int>>

  predicate InRange(pk: PkIndices, columns: nat) {
    forall i :: 0 <= i < |pk| && pk[i].Some? ==> 0 <= pk[i].value < columns
  }

  predicate Indexed(pk: PkIndices) {
    forall i :: 0 <= i < |pk| ==> pk[i].Some?
  }

  /** Every key column is known and of fixed length. */
  predicate Fixed(pk: PkIndices, slots: seq<Slot>)
    requires InRange(pk, |slots|)
  {
    pk == [] || (pk[0].Some? && PayloadSize(slots[pk[0].value].desc) > 0 && Fixed(pk[1..], slots))
  }

  function SizeSum(pk: PkIndices, slots: seq<Slot>): nat
    requires InRange(pk, |slots|) && Fixed(pk, slots)
  {
    if pk == [] then 0 else 4 + PayloadSize(slots[pk[0].value].desc) + SizeSum(pk[1..], slots)
  }

  function Stride(pk: PkIndices, slots: seq<Slot>): nat
    requires InRange(pk, |slots|)
  {
    if Fixed(pk, slots) then SizeSum(pk, slots) else 0
  }

  /** There is a stride if and only if there is a key and each of its columns is known and of fixed length. */
  lemma {:induction false} StrideIff(pk: PkIndices, slots: seq<Slot>)
    requires InRange(pk, |slots|)
    ensures Fixed(pk, slots) <==>
            forall i :: 0 <= i < |pk| ==> pk[i].Some? && PayloadSize(slots[pk[i].value].desc) > 0
    ensures Stride(pk, slots) > 0 <==> pk != [] && Fixed(pk, slots)
  {
    hide PayloadSize;
    if pk != [] {
      var rest := pk[1..];
      StrideIff(rest, slots);
      assert forall i :: 0 <= i < |rest| ==> rest[i] == pk[i + 1];
      assert forall i :: 0 < i < |pk| ==> pk[i] == rest[i - 1];
    }
  }

  method PkPgcopyStride(pk: PkIndices, slots: seq<Slot>) returns (total: nat)
    requires InRange(pk, |slots|)
    ensures total == Stride(pk, slots)
  {
    total := 0;
    var i := 0;
    assert pk[0..] == pk;
    while i < |pk|
      invariant i <= |pk| && Fixed(pk, slots) == Fixed(pk[i..], slots)
      invariant Fixed(pk, slots) ==> SizeSum(pk, slots) == total + SizeSum(pk[i..], slots)
    {
      assert pk[i..][1..] == pk[i + 1..];
      if pk[i] == None { return 0; }
      var payload := PayloadSize(slots[pk[i].value].desc);
      if payload == 0 { return 0; }
      total := total + (4 + payload);
      i := i + 1;
    }
  }

  /** The key columns of a record, in key order. */
  function KeyFields(rec: Bytes, pk: PkIndices, slots: seq<Slot>, scaling: Scaling): (key: Row)
    requires InRange(pk, |slots|) && Indexed(pk)
    ensures |key| == |pk|
  {
    seq(|pk|, i requires 0 <= i < |pk| => SlotField(rec, slots[pk[i].value], scaling))
  }

  /** The key columns of a row, in key order. */
  function KeyOfRow(row: Row, pk: PkIndices): (key: Row)
    requires InRange(pk, |row|) && Indexed(pk)
    ensures |key| == |pk|
  {
    seq(|pk|, i requires 0 <= i < |pk| => row[pk[i].value])
  }

  predicate NoNull(row: Row) {
    row == [] || (row[0].Value? && NoNull(row[1..]))
  }

  lemma FieldSize(rec: Bytes, d: Desc, scaling: Scaling)
    requires PayloadSize(d) > 0 && FieldOf(rec, d, scaling).Value?
    ensures |FieldOf(rec, d, scaling).bytes| == PayloadSize(d)
  {
    hide Be16, Be32, Be64, Int16, Int32, Int64, U32Le, U64Le, U16Le;
  }

  /**
   A key encodes to the table's stride if and only if no key column is null, a column the
   record ends before being null too; otherwise it comes out shorter.
   */
  lemma {:induction false} KeyLength(rec: Bytes, pk: PkIndices, slots: seq<Slot>, scaling: Scaling)
    requires InRange(pk, |slots|) && Indexed(pk) && Fixed(pk, slots)
    ensures |EncodeFields(KeyFields(rec, pk, slots, scaling))| <= SizeSum(pk, slots)
    ensures |EncodeFields(KeyFields(rec, pk, slots, scaling))| == SizeSum(pk, slots) <==>
            NoNull(KeyFields(rec, pk, slots, scaling))
  {
    hide FieldOf, NullBit, PayloadSize;
    if pk != [] {
      var key, tail := KeyFields(rec, pk, slots, scaling), KeyFields(rec, pk[1..], slots, scaling);
      assert key[1..] == tail;
      KeyLength(rec, pk[1..], slots, scaling);
      if key[0].Value? { FieldSize(rec, slots[pk[0].value].desc, scaling); }
      assert |EncodeField(key[0])| <= 4 + PayloadSize(slots[pk[0].value].desc);
    }
  }

  // ── Every field fits its length word ──

  lemma {:induction false} TextFits(raw: Bytes, none: nat)
    ensures |TrimmedText(raw, none)| <= 3 * |raw|
  {
    TrimmedInside(raw, none);
    var tl := TrimmedLength(raw, none);
    if tl <= |raw| { Text.TranscodeAtMostTriples(raw[..tl]); }
  }

  lemma FieldFits(rec: Bytes, d: Desc, scaling: Scaling)
    requires |rec| <= Sqz.MAX_RECORD_SIZE
    ensures FieldOf(rec, d, scaling).Fits()
  {
    hide TrimmedText, Be16, Be32, Be64, Int16, Int32, Int64, U32Le, U64Le;
    var s := d.offset;
    if d.dtype == DTYPE_TEXT || d.dtype == DTYPE_CSTRING {
      var end := Min(s + d.length, |rec|);
      if end > s { TextFits(rec[s..end], 0); }
    } else if d.dtype == DTYPE_VARYING {
      if s + 2 <= |rec| {
        var data := rec[s + 2..Min(s + 2 + U16Le(rec, s), |rec|)];
        TextFits(data, |data|);
      }
    }
  }

  lemma {:induction false} RowsFit(row: Row)
    requires forall i :: 0 <= i < |row| ==> row[i].Fits()
    ensures PgCopy.AllFit(row)
  {
    if row != [] { RowsFit(row[1..]); }
  }

  lemma RowFits(rec: Bytes, slots: seq<Slot>, scaling: Scaling)
    requires |rec| <= Sqz.MAX_RECORD_SIZE
    ensures PgCopy.AllFit(RowOf(rec, slots, scaling))
  {
    hide FieldOf, NullBit;
    var row := RowOf(rec, slots, scaling);
    forall i | 0 <= i < |row|
      ensures row[i].Fits()
    {
      FieldFits(rec, slots[i].desc, scaling);
    }
    RowsFit(row);
  }

  lemma KeyFits(rec: Bytes, pk: PkIndices, slots: seq<Slot>, scaling: Scaling)
    requires InRange(pk, |slots|) && Indexed(pk) && |rec| <= Sqz.MAX_RECORD_SIZE
    ensures PgCopy.AllFit(KeyFields(rec, pk, slots, scaling))
  {
    hide FieldOf, NullBit;
    var key := KeyFields(rec, pk, slots, scaling);
    forall i | 0 <= i < |key|
      ensures key[i].Fits()
    {
      FieldFits(rec, slots[pk[i].value].desc, scaling);
    }
    RowsFit(key);
  }

  // ── What the encoding tells apart ──

  /** The width of the raw column bytes of a key type stored as one or two integers. */
  function Width(d: Desc): nat {
    if d.dtype == DTYPE_SHORT then 2
    else if d.dtype == DTYPE_LONG || d.dtype == DTYPE_REAL || d.dtype == DTYPE_SQL_DATE
         || d.dtype == DTYPE_SQL_TIME || d.dtype == DTYPE_SQL_TIME_TZ then 4
    else if d.dtype == DTYPE_INT64 || d.dtype == DTYPE_QUAD || d.dtype == DTYPE_DOUBLE || d.dtype == DTYPE_D_FLOAT
         || d.dtype == DTYPE_TIMESTAMP || d.dtype == DTYPE_TIMESTAMP_TZ then 8
    else 0
  }

  function Stored(rec: Bytes, d: Desc): Bytes
    requires d.offset + Width(d) <= |rec|
  {
    rec[d.offset..d.offset + Width(d)]
  }

  lemma BeInjective(a: nat, b: nat, k: nat)
    requires a < Pow256(k) && b < Pow256(k) && ToBe(a, k) == ToBe(b, k)
    ensures a == b
  {
    BeRoundTrip(a, k);
    BeRoundTrip(b, k);
  }

  lemma LeInjective(a: Bytes, b: Bytes)
    requires |a| == |b| && FromLe(a) == FromLe(b)
    ensures a == b
  {
    LeRestores(a);
    LeRestores(b);
  }

  /** Two words reduced modulo 2^n agree only if they differ by a multiple of 2^n. */
  lemma ModEqual(a: int, b: int, m: nat)
    requires m > 0 && a % m == b % m && -(m as int) < a - b < m
    ensures a == b
  {
    var width: int := m;
    var d := a / m - b / m;
    assert a - b == d * width;
    assert d >= 1 ==> d * width >= width;
    assert d <= -1 ==> d * width <= -width;
  }

  /** The value a column hands to its big-endian writer, the writer's width, and the raw range. */
  lemma WordInjective(x: int, y: int, k: nat)
    requires k == 2 || k == 4 || k == 8
    requires ToBe(x % Pow256(k), k) == ToBe(y % Pow256(k), k) && -(Pow256(k) as int) < x - y < Pow256(k)
    ensures x == y
  {
    PowerLimits();
    BeInjective(x % Pow256(k), y % Pow256(k), k);
    ModEqual(x, y, Pow256(k));
  }

  /** What PostgreSQL reads a payload as: a big-endian two's complement integer. */
  function SignedBe(b: Bytes): int {
    Signed(FromBe(b), Pow256(|b|))
  }

  lemma WordMeans(v: int, k: nat)
    requires k == 2 || k == 4 || k == 8
    requires -(Pow256(k) as int) <= 2 * v < Pow256(k)
    ensures SignedBe(ToBe(v % Pow256(k), k)) == v
  {
    PowerLimits();
    hide ToBe, FromBe;
    var limit: int := Pow256(k);
    BeRoundTrip(v % limit, k);
    DivModUnique(v, limit, if v < 0 then -1 else 0, if v < 0 then v + limit else v);
  }

  /** Microseconds since 2000-01-01 of a day number and a count of 100 microsecond ticks. */
  function Micros(mjd: int, ticks: nat): int {
    (mjd - PG_EPOCH_MJD) * DAY_US + ticks * 100
  }

  /** No 64-bit overflow in the timestamp. */
  predicate InI64(us: int) {
    -0x8000_0000_0000_0000 <= us < 0x8000_0000_0000_0000
  }

  /**
   Two timestamps inside the 64-bit range encode alike if and only if their ticks make up
   exactly the distance between their days.
   */
  lemma TimestampsCollide(mjd: int, ticks: nat, mjd': int, ticks': nat)
    requires InI64(Micros(mjd, ticks)) && InI64(Micros(mjd', ticks'))
    ensures Be64(Micros(mjd, ticks)) == Be64(Micros(mjd', ticks')) <==>
            (mjd - mjd') * 864_000_000 == ticks' - ticks
    ensures ticks < 864_000_000 && ticks' < 864_000_000 &&
            Be64(Micros(mjd, ticks)) == Be64(Micros(mjd', ticks')) ==>
            mjd == mjd' && ticks == ticks'
  {
    var x, y := Micros(mjd, ticks), Micros(mjd', ticks');
    if Be64(x) == Be64(y) {
      PowerLimits();
      WordInjective(x, y, 8);
    }
    assert x - y == (mjd - mjd') * DAY_US + (ticks - ticks') * 100;
  }

  /** A day has 864,000,000 ticks: one more collides with the next midnight. */
  lemma MidnightCollides(mjd: int)
    ensures Be64(Micros(mjd, 864_000_000)) == Be64(Micros(mjd + 1, 0))
  {
    assert Micros(mjd, 864_000_000) == Micros(mjd + 1, 0);
  }

  predicate IsTimestamp(d: Desc) {
    d.dtype == DTYPE_TIMESTAMP || d.dtype == DTYPE_TIMESTAMP_TZ
  }

  /** A timestamp within one day's ticks and the 64-bit range. */
  predicate GoodTimestamp(rec: Bytes, d: Desc)
    requires IsTimestamp(d) && d.offset + 8 <= |rec|
  {
    U32Le(rec, d.offset + 4) < 864_000_000 && InI64(Micros(Int32(rec, d.offset), U32Le(rec, d.offset + 4)))
  }

  /**
   PostgreSQL reads back the integer, the floating-point bits, the day or the instant the
   column held; a day counts from 2000-01-01, an instant in microseconds.
   */
  lemma ValueSurvives(rec: Bytes, d: Desc, scaling: Scaling)
    requires Width(d) > 0 && !d.Scaled() && d.offset + Width(d) <= |rec|
    ensures FieldOf(rec, d, scaling).Value?
    ensures d.dtype == DTYPE_SHORT ==> SignedBe(FieldOf(rec, d, scaling).bytes) == Int16(rec, d.offset)
    ensures d.dtype == DTYPE_LONG ==> SignedBe(FieldOf(rec, d, scaling).bytes) == Int32(rec, d.offset)
    ensures d.dtype == DTYPE_INT64 || d.dtype == DTYPE_QUAD ==>
              SignedBe(FieldOf(rec, d, scaling).bytes) == Int64(rec, d.offset)
    ensures d.dtype == DTYPE_SQL_DATE && Int32(rec, d.offset) >= -0x8000_0000 + PG_EPOCH_MJD ==>
              SignedBe(FieldOf(rec, d, scaling).bytes) == Int32(rec, d.offset) - PG_EPOCH_MJD
    ensures d.dtype == DTYPE_SQL_TIME || d.dtype == DTYPE_SQL_TIME_TZ ==>
              SignedBe(FieldOf(rec, d, scaling).bytes) == U32Le(rec, d.offset) * 100
    ensures IsTimestamp(d) && InI64(Micros(Int32(rec, d.offset), U32Le(rec, d.offset + 4))) ==>
              SignedBe(FieldOf(rec, d, scaling).bytes) == Micros(Int32(rec, d.offset), U32Le(rec, d.offset + 4))
    ensures d.dtype == DTYPE_REAL ==> FromBe(FieldOf(rec, d, scaling).bytes) == U32Le(rec, d.offset)
    ensures d.dtype == DTYPE_DOUBLE || d.dtype == DTYPE_D_FLOAT ==>
              FromBe(FieldOf(rec, d, scaling).bytes) == U64Le(rec, d.offset)
  {
    hide SignedBe, ToBe, FromLe, FromBe;
    PowerLimits();
    var s := d.offset;
    if d.dtype == DTYPE_REAL {
      BeRoundTrip(U32Le(rec, s), 4);
    } else if d.dtype == DTYPE_DOUBLE || d.dtype == DTYPE_D_FLOAT {
      BeRoundTrip(U64Le(rec, s), 8);
    } else if d.dtype == DTYPE_SHORT {
      WordMeans(Int16(rec, s), 2);
    } else if d.dtype == DTYPE_LONG {
      WordMeans(Int32(rec, s), 4);
    } else if d.dtype == DTYPE_INT64 || d.dtype == DTYPE_QUAD {
      WordMeans(Int64(rec, s), 8);
    } else if d.dtype == DTYPE_SQL_DATE {
      if Int32(rec, s) >= -0x8000_0000 + PG_EPOCH_MJD { WordMeans(Int32(rec, s) - PG_EPOCH_MJD, 4); }
    } else if d.dtype == DTYPE_SQL_TIME || d.dtype == DTYPE_SQL_TIME_TZ {
      WordMeans(U32Le(rec, s) * 100, 8);
    } else if IsTimestamp(d) {
      if InI64(Micros(Int32(rec, s), U32Le(rec, s + 4))) { WordMeans(Micros(Int32(rec, s), U32Le(rec, s + 4)), 8); }
    }
  }

  /** PostgreSQL's day 0, the first of January 2000, is Firebird's day 51544. */
  lemma DayZero(rec: Bytes, d: Desc, scaling: Scaling)
    requires d.dtype == DTYPE_SQL_DATE && d.offset + 4 <= |rec|
    ensures SignedBe(FieldOf(rec, d, scaling).bytes) == 0 <==> Int32(rec, d.offset) == 51544
  {
    hide SignedBe, ToBe, FromLe;
    PowerLimits();
    var day := Int32(rec, d.offset);
    if day >= -0x8000_0000 + PG_EPOCH_MJD {
      WordMeans(day - PG_EPOCH_MJD, 4);
    } else {
      DivModUnique(day - PG_EPOCH_MJD, U32_LIMIT, -1, day - PG_EPOCH_MJD + U32_LIMIT);
      WordMeans(day - PG_EPOCH_MJD + U32_LIMIT, 4);
    }
  }

  // ── Null columns ──

  /** A field id's bit in the null bitmap: eight to a byte, lowest first; past the record's end all are set. */
  predicate NullFlag(rec: Bytes, fid: nat) {
    var byte := if fid / 8 < |rec| then rec[fid / 8] as int else 0xFF;
    byte / [1, 2, 4, 8, 16, 32, 64, 128][fid % 8] % 2 == 1
  }

  lemma MaskIs(bit: nat)
    requires bit < 8
    ensures Mask(bit) == [1, 2, 4, 8, 16, 32, 64, 128][bit]
  {
    if bit > 0 { MaskIs(bit - 1); }
  }

  /** A column is null if its bit says so, and otherwise what its own descriptor finds in the record. */
  lemma ColumnIs(rec: Bytes, fieldOrder: seq<nat>, descs: seq<Desc>, scaling: Scaling, i: nat)
    requires i < |fieldOrder|
    ensures var fid, column := fieldOrder[i], RowOf(rec, BuildSlots(fieldOrder, descs), scaling)[i];
            column == if NullFlag(rec, fid) || fid >= |descs| then Null else FieldOf(rec, descs[fid], scaling)
  {
    MaskIs(fieldOrder[i] % 8);
  }

  /** A column that the record ends before is null, and so is one of an unknown type; no other is. */
  lemma ValueIffHeld(rec: Bytes, d: Desc, scaling: Scaling)
    requires d.dtype != DTYPE_DBKEY
    ensures FieldOf(rec, d, scaling).Value? <==>
            if Width(d) > 0 then d.offset + Width(d) <= |rec|
            else if d.dtype == DTYPE_BOOLEAN then d.offset < |rec|
            else if d.dtype == DTYPE_VARYING then d.offset + 2 <= |rec|
            else IsFixedText(d) && d.length > 0 && d.offset < |rec|
  {
    hide TrimmedText, Be16, Be32, Be64, Int16, Int32, Int64, U32Le, U64Le, U16Le, ToBe;
  }

  /** A boolean arrives as one byte: 0 for the stored byte 0, 1 for any other. */
  lemma BooleanSurvives(rec: Bytes, d: Desc, scaling: Scaling)
    requires d.dtype == DTYPE_BOOLEAN && d.offset < |rec|
    ensures FieldOf(rec, d, scaling) == Value([1]) <==> rec[d.offset] != 0
    ensures FieldOf(rec, d, scaling) == Value([0]) <==> rec[d.offset] == 0
  {
  }

  /** A scaled integer arrives as the bits of the double of its value over that power of ten. */
  lemma ScaledSurvives(rec: Bytes, d: Desc, scaling: Scaling)
    requires d.Scaled() && d.offset + Width(d) <= |rec|
    ensures var v := if d.dtype == DTYPE_SHORT then Int16(rec, d.offset)
                     else if d.dtype == DTYPE_LONG then Int32(rec, d.offset) else Int64(rec, d.offset);
            var f := FieldOf(rec, d, scaling);
            f.Value? && |f.bytes| == 8 &&
            (0 <= scaling(v, -d.scale) < U64_LIMIT ==> FromBe(f.bytes) == scaling(v, -d.scale))
  {
    hide FromBe, ToBe, Int16, Int32, Int64;
    PowerLimits();
    var v := if d.dtype == DTYPE_SHORT then Int16(rec, d.offset)
             else if d.dtype == DTYPE_LONG then Int32(rec, d.offset) else Int64(rec, d.offset);
    BeRoundTrip(scaling(v, -d.scale) % U64_LIMIT, 8);
  }

  /** A column's encoded length is fixed for exactly the types that are not text. */
  lemma SizeFixedIff(d: Desc)
    ensures PayloadSize(d) > 0 <==> Width(d) > 0 || d.dtype == DTYPE_BOOLEAN
    ensures Width(d) > 0 ==>
              PayloadSize(d) == if d.Scaled() || d.dtype == DTYPE_SQL_TIME || d.dtype == DTYPE_SQL_TIME_TZ then 8
                                else Width(d)
  {
  }

  predicate Blank(b: Byte) {
    b <= 0x20
  }

  /** Trimming drops the blanks at the end, control bytes among them; a text of nothing else has length `none`. */
  lemma {:induction false} TrimmedIs(raw: Bytes, none: nat)
    requires none <= |raw|
    ensures var n := TrimmedLength(raw, none);
            n <= |raw| &&
            if forall i :: 0 <= i < |raw| ==> Blank(raw[i]) then n == none
            else 0 < n && !Blank(raw[n - 1]) && forall i :: n <= i < |raw| ==> Blank(raw[i])
  {
    if raw != [] && Blank(raw[|raw| - 1]) {
      TrimmedWithin(raw[..|raw| - 1], none);
    }
  }

  lemma {:induction false} TrimmedWithin(raw: Bytes, none: nat)
    ensures var n := TrimmedLength(raw, none);
            if forall i :: 0 <= i < |raw| ==> Blank(raw[i]) then n == none
            else 0 < n <= |raw| && !Blank(raw[n - 1]) && forall i :: n <= i < |raw| ==> Blank(raw[i])
  {
    if raw != [] && Blank(raw[|raw| - 1]) {
      var init := raw[..|raw| - 1];
      TrimmedWithin(init, none);
      assert forall i :: 0 <= i < |init| ==> init[i] == raw[i];
    }
  }

  predicate IsFixedText(d: Desc) {
    d.dtype == DTYPE_TEXT || d.dtype == DTYPE_CSTRING
  }

  /** The bytes of a text column: the declared length, or what a VARCHAR's own length says, cut at the record's end. */
  function TextBytes(rec: Bytes, d: Desc): Option<Bytes> {
    var s := d.offset;
    if IsFixedText(d) then
      var end := Min(s + d.length, |rec|);
      if end <= s then None else Some(rec[s..end])
    else if s + 2 > |rec| then None
    else Some(rec[s + 2..Min(s + 2 + U16Le(rec, s), |rec|)])
  }

  /**
   A text column arrives as well-formed UTF-8 for its bytes without trailing blanks and
   NULs. A CHAR of blanks arrives empty; a VARCHAR of blanks keeps them.
   */
  lemma TextSurvives(rec: Bytes, d: Desc, scaling: Scaling)
    requires IsFixedText(d) || d.dtype == DTYPE_VARYING
    ensures FieldOf(rec, d, scaling).Value? <==> TextBytes(rec, d).Some?
    ensures TextBytes(rec, d).Some? ==>
              var raw := TextBytes(rec, d).value;
              var n := TrimmedLength(raw, if IsFixedText(d) then 0 else |raw|);
              n <= |raw| &&
              Text.CodePoints(FieldOf(rec, d, scaling).bytes, 0) == Some(Text.Image(Text.NonNul(raw[..n])))
  {
    hide TrimmedLength, Text.Encoded, Text.CodePoints, Text.Image, Text.NonNul, U16Le;
    if TextBytes(rec, d).Some? {
      var raw := TextBytes(rec, d).value;
      var none := if IsFixedText(d) then 0 else |raw|;
      TrimmedIs(raw, none);
      var n := TrimmedLength(raw, none);
      var out := Text.Encoded(raw[..n]);
      assert out[0..] == out;
      Text.TranscodeMeans(raw[..n], out, 0);
    }
  }

  lemma SignedInjective(v: nat, w: nat, limit: nat)
    requires v < limit && w < limit
    ensures -(limit as int) < Signed(v, limit) - Signed(w, limit) < limit
    ensures Signed(v, limit) == Signed(w, limit) <==> v == w
  {
  }

  /** Two formats' descriptors of one column: ALTER TABLE can move it, not retype it. */
  predicate SameType(d: Desc, e: Desc) {
    d.dtype == e.dtype && d.scale == e.scale
  }

  /** For the key types stored as integers, equal encodings come from equal raw columns, wherever they stand. */
  lemma KeyColumnInjective(rec: Bytes, d: Desc, other: Bytes, e: Desc, scaling: Scaling)
    requires SameType(d, e)
    requires Width(d) > 0 && !d.Scaled() && d.offset + Width(d) <= |rec| && e.offset + Width(e) <= |other|
    requires IsTimestamp(d) ==> GoodTimestamp(rec, d) && GoodTimestamp(other, e)
    ensures FieldOf(rec, d, scaling) == FieldOf(other, e, scaling) <==> Stored(rec, d) == Stored(other, e)
  {
    hide Be16, Be32, Be64, Signed, ToBe, FromLe;
    PowerLimits();
    SameSlices(rec, d.offset, other, e.offset, Width(d));
    if FieldOf(rec, d, scaling) == FieldOf(other, e, scaling) {
      RawColumnsEqual(rec, d, other, e, scaling);
    }
  }

  lemma SameSlices(rec: Bytes, s: nat, other: Bytes, t: nat, w: nat)
    requires s + w <= |rec| && t + w <= |other|
    ensures rec[s..s + w] == other[t..t + w] && w == 8 ==>
            rec[s..s + 4] == other[t..t + 4] && rec[s + 4..s + 8] == other[t + 4..t + 8]
  {
    if w == 8 && rec[s..s + w] == other[t..t + w] {
      SubSlice(rec, s, s + 8, 0, 4);
      SubSlice(other, t, t + 8, 0, 4);
      SubSlice(rec, s, s + 8, 4, 8);
      SubSlice(other, t, t + 8, 4, 8);
    }
  }

  lemma RawColumnsEqual(rec: Bytes, d: Desc, other: Bytes, e: Desc, scaling: Scaling)
    requires SameType(d, e)
    requires Width(d) > 0 && !d.Scaled() && d.offset + Width(d) <= |rec| && e.offset + Width(e) <= |other|
    requires IsTimestamp(d) ==> GoodTimestamp(rec, d) && GoodTimestamp(other, e)
    requires FieldOf(rec, d, scaling) == FieldOf(other, e, scaling)
    ensures Stored(rec, d) == Stored(other, e)
  {
    hide Signed, ToBe, FromLe;
    var s, t := d.offset, e.offset;
    PowerLimits();
    if IsTimestamp(d) {
      TimestampColumnsEqual(rec, s, other, t);
    } else {
      if d.dtype == DTYPE_SHORT {
        SignedInjective(U16Le(rec, s), U16Le(other, t), U16_LIMIT);
        WordInjective(Int16(rec, s), Int16(other, t), 2);
      } else if d.dtype == DTYPE_LONG {
        SignedInjective(U32Le(rec, s), U32Le(other, t), U32_LIMIT);
        WordInjective(Int32(rec, s), Int32(other, t), 4);
      } else if d.dtype == DTYPE_REAL {
        BeInjective(U32Le(rec, s), U32Le(other, t), 4);
      } else if d.dtype == DTYPE_SQL_DATE {
        SignedInjective(U32Le(rec, s), U32Le(other, t), U32_LIMIT);
        WordInjective(Int32(rec, s) - PG_EPOCH_MJD, Int32(other, t) - PG_EPOCH_MJD, 4);
      } else if d.dtype == DTYPE_SQL_TIME || d.dtype == DTYPE_SQL_TIME_TZ {
        WordInjective(U32Le(rec, s) * 100, U32Le(other, t) * 100, 8);
      } else if d.dtype == DTYPE_DOUBLE || d.dtype == DTYPE_D_FLOAT {
        BeInjective(U64Le(rec, s), U64Le(other, t), 8);
      } else {
        SignedInjective(U64Le(rec, s), U64Le(other, t), U64_LIMIT);
        WordInjective(Int64(rec, s), Int64(other, t), 8);
      }
      LeInjective(Stored(rec, d), Stored(other, e));
    }
  }

  lemma TimestampColumnsEqual(rec: Bytes, s: nat, other: Bytes, t: nat)
    requires s + 8 <= |rec| && t + 8 <= |other|
    requires U32Le(rec, s + 4) < 864_000_000 && InI64(Micros(Int32(rec, s), U32Le(rec, s + 4)))
    requires U32Le(other, t + 4) < 864_000_000 && InI64(Micros(Int32(other, t), U32Le(other, t + 4)))
    requires Be64(Micros(Int32(rec, s), U32Le(rec, s + 4))) == Be64(Micros(Int32(other, t), U32Le(other, t + 4)))
    ensures rec[s..s + 8] == other[t..t + 8]
  {
    hide ToBe, FromLe;
    TimestampsCollide(Int32(rec, s), U32Le(rec, s + 4), Int32(other, t), U32Le(other, t + 4));
    SignedInjective(U32Le(rec, s), U32Le(other, t), U32_LIMIT);
    LeInjective(rec[s..s + 4], other[t..t + 4]);
    LeInjective(rec[s + 4..s + 8], other[t + 4..t + 8]);
    assert rec[s..s + 8] == rec[s..s + 4] + rec[s + 4..s + 8];
    assert other[t..t + 8] == other[t..t + 4] + other[t + 4..t + 8];
  }

  /** A key column both records hold, each in its own format, of a type whose encoding loses nothing. */
  predicate Distinguished(rec: Bytes, slot: Slot, other: Bytes, slot': Slot) {
    var d, e := slot.desc, slot'.desc;
    SameType(d, e) && Width(d) > 0 && !d.Scaled() && d.offset + Width(d) <= |rec| && e.offset + Width(e) <= |other| &&
    !NullBit(rec, slot) && !NullBit(other, slot') &&
    (IsTimestamp(d) ==> GoodTimestamp(rec, d) && GoodTimestamp(other, e))
  }

  predicate SameColumn(rec: Bytes, d: Desc, other: Bytes, e: Desc) {
    d.offset + Width(d) <= |rec| && e.offset + Width(e) <= |other| && Stored(rec, d) == Stored(other, e)
  }

  /**
   Encoded keys are equal exactly when the raw key columns are, whatever formats the two
   records are of, so sets of encodings are sets of keys.
   */
  lemma EncodedKeysEqual(rec: Bytes, slots: seq<Slot>, other: Bytes, slots': seq<Slot>, pk: PkIndices, scaling: Scaling)
    requires InRange(pk, |slots|) && InRange(pk, |slots'|) && Indexed(pk)
    requires |rec| <= Sqz.MAX_RECORD_SIZE && |other| <= Sqz.MAX_RECORD_SIZE
    requires forall i :: 0 <= i < |pk| ==> Distinguished(rec, slots[pk[i].value], other, slots'[pk[i].value])
    ensures EncodeFields(KeyFields(rec, pk, slots, scaling)) == EncodeFields(KeyFields(other, pk, slots', scaling)) <==>
            forall i :: 0 <= i < |pk| ==> SameColumn(rec, slots[pk[i].value].desc, other, slots'[pk[i].value].desc)
  {
    hide FieldOf, EncodeFields;
    var k, o := KeyFields(rec, pk, slots, scaling), KeyFields(other, pk, slots', scaling);
    KeyFits(rec, pk, slots, scaling);
    KeyFits(other, pk, slots', scaling);
    forall i | 0 <= i < |pk|
      ensures k[i] == o[i] <==> SameColumn(rec, slots[pk[i].value].desc, other, slots'[pk[i].value].desc)
    {
      var c := pk[i].value;
      assert Distinguished(rec, slots[c], other, slots'[c]);
      KeyColumnInjective(rec, slots[c].desc, other, slots'[c].desc, scaling);
    }
    if EncodeFields(k) == EncodeFields(o) { PgCopy.FieldsInjective(k, o); }
    if forall i :: 0 <= i < |pk| ==> SameColumn(rec, slots[pk[i].value].desc, other, slots'[pk[i].value].desc) {
      assert k == o;
    }
  }
}
