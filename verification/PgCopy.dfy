/**
 PostgreSQL's binary COPY format: the streams the program writes, and a reader that follows
 the grammar of the COPY reference, section "File Formats", "Binary Format".
 */
module PgCopy {
  import opened Bytes
  import opened Fields

  const SIGNATURE: Bytes := [80, 71, 67, 79, 80, 89, 10, 255, 13, 10, 0]

  // ── Writing ──

  /** The signature, no flags, no header extension. */
  function Header(): Bytes {
    SIGNATURE + (Be32(0) + Be32(0))
  }

  function Trailer(): Bytes {
    Be16(-1)
  }

  function EncodeTuple(row: Row): Bytes {
    Be16(|row|) + EncodeFields(row)
  }

  function EncodeTuples(rows: seq<Row>): Bytes {
    if rows == [] then [] else EncodeTuple(rows[0]) + EncodeTuples(rows[1..])
  }

  function Stream(rows: seq<Row>): Bytes {
    Header() + EncodeTuples(rows) + Trailer()
  }

  lemma {:induction false} EncodeTuplesAppend(rows: seq<Row>, row: Row)
    ensures EncodeTuples(rows + [row]) == EncodeTuples(rows) + EncodeTuple(row)
  {
    hide EncodeTuple;
    if rows == [] {
      assert (rows + [row])[1..] == [];
      assert EncodeTuple(row) + [] == EncodeTuple(row) && [] + EncodeTuple(row) == EncodeTuple(row);
    } else {
      EncodeTuplesAppend(rows[1..], row);
      assert (rows + [row])[1..] == rows[1..] + [row];
      ConcatAssociates(EncodeTuple(rows[0]), EncodeTuples(rows[1..]), EncodeTuple(row));
    }
  }

  // ── Reading ──

  /** A length word, -1 for null and no other negative, then the payload. */
  function ParseField(b: Bytes, i: nat): Option<(Field, nat)> {
    if i + 4 > |b| then None else
    var len := Signed(U32Be(b, i), U32_LIMIT);
    if len == -1 then Some((Null, i + 4))
    else if len < 0 || i + 4 + len > |b| then None
    else Some((Value(b[i + 4..i + 4 + len]), i + 4 + len))
  }

  function ParseFields(b: Bytes, i: nat, n: nat): Option<(Row, nat)>
    decreases n
  {
    if n == 0 then Some(([], i)) else
    match ParseField(b, i)
    case None => None
    case Some((f, j)) =>
      match ParseFields(b, j, n - 1)
      case None => None
      case Some((fs, k)) => Some(([f] + fs, k))
  }

  /** Tuples of `n` fields up to the trailer, which ends the data. */
  function ParseTuples(b: Bytes, i: nat, n: nat): Option<seq<Row>>
    decreases |b| - i
  {
    if i + 2 > |b| then None else
    var count := Signed(U16Be(b, i), U16_LIMIT);
    if count == -1 then (if i + 2 == |b| then Some([]) else None)
    else if count != n then None else
    match ParseFields(b, i + 2, n)
    case None => None
    case Some((row, j)) =>
      if j < i + 2 || j > |b| then None else
      match ParseTuples(b, j, n)
      case None => None
      case Some(rows) => Some([row] + rows)
  }

  /** A stream for `n` columns: signature, no critical flag, a header extension to skip, tuples. */
  function ParseCopy(b: Bytes, n: nat): Option<seq<Row>> {
    if |b| < 19 || b[..11] != SIGNATURE then None
    else if U32Be(b, 11) >= U16_LIMIT then None
    else if 19 + U32Be(b, 15) > |b| then None
    else ParseTuples(b, 19 + U32Be(b, 15), n)
  }

  // ── What is written is read back ──

  /** A length below 2^31 fits its length word. */
  predicate AllFit(row: Row) {
    row == [] || (row[0].Fits() && AllFit(row[1..]))
  }

  ghost predicate Uniform(rows: seq<Row>, n: nat) {
    rows == [] || (|rows[0]| == n && AllFit(rows[0]) && Uniform(rows[1..], n))
  }

  lemma FieldParses(b: Bytes, i: nat, f: Field)
    requires f.Fits() && InPlace(b, i, EncodeField(f))
    ensures ParseField(b, i) == Some((f, i + |EncodeField(f)|))
  {
    match f
    case Null =>
      Be32At(b, i, -1);
    case Value(bytes) =>
      InPlaceSplits(b, i, Be32(|bytes|), bytes);
      Be32At(b, i, |bytes|);
  }

  lemma {:induction false} FieldsParse(b: Bytes, i: nat, fs: Row)
    requires AllFit(fs) && InPlace(b, i, EncodeFields(fs))
    ensures ParseFields(b, i, |fs|) == Some((fs, i + |EncodeFields(fs)|))
    decreases fs
  {
    hide EncodeField;
    hide ParseField;
    if fs != [] {
      var head, tail := EncodeField(fs[0]), fs[1..];
      InPlaceSplits(b, i, head, EncodeFields(tail));
      FieldParses(b, i, fs[0]);
      FieldsParse(b, i + |head|, tail);
      assert [fs[0]] + tail == fs;
    }
  }

  /** The encoding of a key or a row determines it, given how many fields it has. */
  lemma FieldsInjective(fs: Row, gs: Row)
    requires AllFit(fs) && AllFit(gs) && |fs| == |gs| && EncodeFields(fs) == EncodeFields(gs)
    ensures fs == gs
  {
    var b := EncodeFields(fs);
    assert b[0..|b|] == b;
    FieldsParse(b, 0, fs);
    FieldsParse(b, 0, gs);
  }

  lemma TupleParses(b: Bytes, i: nat, row: Row)
    requires |row| < 0x8000 && AllFit(row) && InPlace(b, i, EncodeTuple(row))
    ensures i + 2 <= |b| && Signed(U16Be(b, i), U16_LIMIT) == |row|
    ensures ParseFields(b, i + 2, |row|) == Some((row, i + |EncodeTuple(row)|)) &&
            i + 2 <= i + |EncodeTuple(row)| <= |b|
  {
    hide ParseFields;
    hide EncodeFields;
    hide AllFit;
    InPlaceSplits(b, i, Be16(|row|), EncodeFields(row));
    Be16At(b, i, |row|);
    FieldsParse(b, i + 2, row);
  }

  lemma {:induction false} TuplesParse(b: Bytes, i: nat, rows: seq<Row>, n: nat)
    requires n < 0x8000 && Uniform(rows, n)
    requires InPlace(b, i, EncodeTuples(rows) + Trailer()) && i + |EncodeTuples(rows) + Trailer()| == |b|
    ensures ParseTuples(b, i, n) == Some(rows)
    decreases rows
  {
    hide EncodeTuple;
    hide ParseFields;
    if rows == [] {
      assert [] + Trailer() == Trailer();
      Be16At(b, i, -1);
    } else {
      var head, tail := EncodeTuple(rows[0]), rows[1..];
      ConcatAssociates(head, EncodeTuples(tail), Trailer());
      InPlaceSplits(b, i, head, EncodeTuples(tail) + Trailer());
      TupleParses(b, i, rows[0]);
      TuplesParse(b, i + |head|, tail, n);
      assert [rows[0]] + tail == rows;
    }
  }

  lemma HeaderParses(b: Bytes)
    requires |b| >= 19 && b[..19] == Header()
    ensures b[..11] == SIGNATURE && U32Be(b, 11) == 0 && U32Be(b, 15) == 0
  {
    assert InPlace(b, 0, Header());
    InPlaceSplits(b, 0, SIGNATURE, Be32(0) + Be32(0));
    InPlaceSplits(b, 11, Be32(0), Be32(0));
    Be32At(b, 11, 0);
    Be32At(b, 15, 0);
  }

  /** Every stream begins with the nineteen bytes of an empty header and ends with a count of -1. */
  lemma StreamEnds(rows: seq<Row>)
    ensures var b := Stream(rows);
            |b| >= 21 && b[..19] == [80, 71, 67, 79, 80, 89, 10, 255, 13, 10, 0, 0, 0, 0, 0, 0, 0, 0, 0] &&
            b[|b| - 2..] == [255, 255]
  {
    hide EncodeTuples;
    StreamLayout(rows);
    ZeroWord();
  }

  lemma ZeroWord()
    ensures Be32(0) == [0, 0, 0, 0] && Be16(-1) == [255, 255]
  {
    assert ToBe(255, 1) == [255] && ToBe(65535, 2) == [255, 255];
    assert -1 % U16_LIMIT == 65535;
  }

  lemma StreamLayout(rows: seq<Row>)
    ensures var b := Stream(rows); var body := EncodeTuples(rows) + Trailer();
            |b| == 19 + |body| && b[..19] == Header() && InPlace(b, 19, body)
  {
    hide EncodeTuples;
    var body := EncodeTuples(rows) + Trailer();
    ConcatAssociates(Header(), EncodeTuples(rows), Trailer());
    ConcatSplits(Header(), body);
    assert Stream(rows)[19..19 + |body|] == body;
  }

  /**
   A written stream reads back as exactly the rows it was written from, if and only if the
   column count fits the signed 16-bit count of each tuple (or there is no tuple).
   */
  lemma StreamParses(rows: seq<Row>, n: nat)
    requires Uniform(rows, n)
    ensures ParseCopy(Stream(rows), n) == Some(rows) <==> (rows == [] || n < 0x8000)
  {
    hide EncodeTuple;
    var b := Stream(rows);
    StreamLayout(rows);
    HeaderParses(b);
    if rows == [] || n < 0x8000 {
      if n < 0x8000 { TuplesParse(b, 19, rows, n); } else { EmptyParses(b, 19, n); }
    } else {
      CountTooWide(b, 19, n);
    }
  }

  lemma EmptyParses(b: Bytes, i: nat, n: nat)
    requires InPlace(b, i, EncodeTuples([]) + Trailer()) && i + |EncodeTuples([]) + Trailer()| == |b|
    ensures ParseTuples(b, i, n) == Some([])
  {
    assert EncodeTuples([]) + Trailer() == Trailer();
    Be16At(b, i, -1);
  }

  /** A count of 2^15 columns or more never reads back. */
  lemma CountTooWide(b: Bytes, i: nat, n: nat)
    requires n >= 0x8000
    ensures ParseTuples(b, i, n) == None || ParseTuples(b, i, n) == Some([])
  {
  }
}
