/**
 The replica: one map from key to row per table, and the transaction that applies a delta
 to it, deletes before upserts, all or nothing.
 */
module Replica {
  import opened Bytes
  import opened Fields
  import opened Keys
  import PgCopy

  datatype Name = Name(text: Bytes)
  type Table = map<Row, Row>

  /** A target table's column count and key columns. */
  datatype Meta = Meta(columns: nat, pk: PkIndices)
  {
    /** Without a known key there is no statement PostgreSQL accepts. */
    predicate Valid() {
      pk != [] && Indexed(pk) && InRange(pk, columns)
    }

    /** Every column is in the key, so the upsert has nothing to set. */
    predicate AllKey() {
      forall c :: 0 <= c < columns ==> Some(c) in pk
    }
  }

  predicate Wide(rows: seq<Row>, n: nat) {
    forall i :: 0 <= i < |rows| ==> |rows[i]| == n
  }

  /** The rows a delete statement leaves: a null in a key matches nothing, and no stored key has one. */
  function Deleted(t: Table, keys: seq<Row>): Table {
    map k | k in t && k !in keys :: t[k]
  }

  /** `DO UPDATE` overwrites; with nothing to set, `DO NOTHING` keeps the row there is. */
  function Merged(t: Table, row: Row, meta: Meta): Table
    requires meta.Valid() && |row| == meta.columns
  {
    var key := KeyOfRow(row, meta.pk);
    if meta.AllKey() && key in t then t else t[key := row]
  }

  function Upserted(t: Table, rows: seq<Row>, meta: Meta): Table
    requires meta.Valid() && Wide(rows, meta.columns)
  {
    if rows == [] then t else Merged(Upserted(t, rows[..|rows| - 1], meta), rows[|rows| - 1], meta)
  }

  predicate HasNullKey(rows: seq<Row>, meta: Meta)
    requires meta.Valid() && Wide(rows, meta.columns)
  {
    exists i :: 0 <= i < |rows| && !NoNull(KeyOfRow(rows[i], meta.pk))
  }

  /** `DO UPDATE` refuses to touch one key twice in a statement. */
  predicate RepeatsKey(rows: seq<Row>, meta: Meta)
    requires meta.Valid() && Wide(rows, meta.columns)
  {
    exists i, j :: 0 <= i < j < |rows| && KeyOfRow(rows[i], meta.pk) == KeyOfRow(rows[j], meta.pk)
  }

  predicate Rejected(rows: seq<Row>, meta: Meta)
    requires meta.Valid() && Wide(rows, meta.columns)
  {
    HasNullKey(rows, meta) || (!meta.AllKey() && RepeatsKey(rows, meta))
  }

  lemma {:induction false} TuplesWide(b: Bytes, i: nat, n: nat)
    requires PgCopy.ParseTuples(b, i, n).Some?
    ensures Wide(PgCopy.ParseTuples(b, i, n).value, n)
    decreases |b| - i
  {
    if Signed(U16Be(b, i), U16_LIMIT) != -1 {
      var (row, j) := PgCopy.ParseFields(b, i + 2, n).value;
      FieldsWide(b, i + 2, n);
      TuplesWide(b, j, n);
    }
  }

  lemma {:induction false} FieldsWide(b: Bytes, i: nat, n: nat)
    requires PgCopy.ParseFields(b, i, n).Some?
    ensures |PgCopy.ParseFields(b, i, n).value.0| == n
    decreases n
  {
    hide PgCopy.ParseField;
    if n > 0 {
      FieldsWide(b, PgCopy.ParseField(b, i).value.1, n - 1);
    }
  }

  /** The rows of a well-formed stream. */
  function Rows(b: Bytes, n: nat): (r: Option<seq<Row>>)
    ensures r.Some? ==> Wide(r.value, n)
  {
    var r := PgCopy.ParseCopy(b, n);
    if r.Some? then TuplesWide(b, 19 + U32Be(b, 15), n); r else None
  }

  /**
   The table after a delta, or none if PostgreSQL refuses it. The upsert stream is copied
   even when it is empty; the delete stream only when there are deletes.
   */
  function Applied(t: Table, meta: Meta, upsertBuf: Bytes, deleteBuf: Bytes, upserts: nat,
      deletes: nat): Option<Table> {
    if !meta.Valid() then None else
    match Rows(upsertBuf, meta.columns)
    case None => None
    case Some(rows) =>
      if HasNullKey(rows, meta) then None else
      match if deletes > 0 then Rows(deleteBuf, |meta.pk|) else Some([])
      case None => None
      case Some(keys) =>
        var left := Deleted(t, keys);
        if upserts == 0 then Some(left)
        else if Rejected(rows, meta) then None
        else Some(Upserted(left, rows, meta))
  }

  /**
   How the world beyond the model treats a delta: it works, something breaks before the
   commit, or the commit takes effect and its answer is lost.
   */
  datatype Fate = Works | Breaks | Unanswered

  /** The target database. */
  class Database {
    var tables: map<Name, Table>

    constructor ()
      ensures tables == map[]
    {
      tables := map[];
    }

    /** One transaction, all or nothing; success is reported only if the commit's answer arrives. */
    method ApplyDelta(name: Name, meta: Meta, upsertBuf: Bytes, deleteBuf: Bytes, upserts: nat, deletes: nat,
        fate: Fate)
      returns (ok: bool)
      requires name in tables
      modifies this
      ensures var after := Applied(old(tables[name]), meta, upsertBuf, deleteBuf, upserts, deletes);
              (ok <==> fate.Works? && after.Some?) &&
              tables == if after.Some? && !fate.Breaks? then old(tables)[name := after.value] else old(tables)
    {
      hide HasNullKey, Rejected, Rows, Upserted;
      var begin := tables;
      if !meta.Valid() { return false; }
      var rows := Rows(upsertBuf, meta.columns);
      if rows == None || HasNullKey(rows.value, meta) { return false; }
      var keys := if deletes > 0 then Rows(deleteBuf, |meta.pk|) else Some([]);
      if keys == None { return false; }
      tables := tables[name := Deleted(tables[name], keys.value)];
      if upserts > 0 {
        if Rejected(rows.value, meta) {
          tables := begin;
          return false;
        }
        Upsert(name, meta, rows.value);
      }
      if fate.Breaks? {
        tables := begin;
        return false;
      }
      ok := fate.Works?;
    }

    method Upsert(name: Name, meta: Meta, rows: seq<Row>)
      requires name in tables && meta.Valid() && Wide(rows, meta.columns)
      modifies this
      ensures tables == old(tables)[name := Upserted(old(tables[name]), rows, meta)]
    {
      hide Merged;
      ghost var t := tables[name];
      assert rows[..0] == [];
      for i := 0 to |rows|
        invariant name in tables && tables == old(tables)[name := Upserted(t, rows[..i], meta)]
      {
        assert rows[..i + 1][..i] == rows[..i];
        tables := tables[name := Merged(tables[name], rows[i], meta)];
      }
      assert rows[..|rows|] == rows;
    }
  }

  // ── What applying means ──

  ghost predicate Names(rows: seq<Row>, meta: Meta, key: Row)
    requires meta.Valid() && Wide(rows, meta.columns)
  {
    exists i :: 0 <= i < |rows| && KeyOfRow(rows[i], meta.pk) == key
  }

  /** With every column in the key, rows with one key are one row. */
  lemma KeyDecidesRow(row: Row, other: Row, meta: Meta)
    requires meta.Valid() && meta.AllKey() && |row| == meta.columns && |other| == meta.columns
    ensures KeyOfRow(row, meta.pk) == KeyOfRow(other, meta.pk) ==> row == other
  {
    if KeyOfRow(row, meta.pk) == KeyOfRow(other, meta.pk) {
      forall c | 0 <= c < meta.columns
        ensures row[c] == other[c]
      {
        var i :| 0 <= i < |meta.pk| && meta.pk[i] == Some(c);
        assert KeyOfRow(row, meta.pk)[i] == row[c] && KeyOfRow(other, meta.pk)[i] == other[c];
      }
    }
  }

  /** Every stored row is filed under its own key. */
  ghost predicate Keyed(t: Table, meta: Meta)
    requires meta.Valid()
  {
    forall k :: k in t ==> |t[k]| == meta.columns && KeyOfRow(t[k], meta.pk) == k
  }

  lemma {:induction false} UpsertedIs(t: Table, rows: seq<Row>, meta: Meta)
    requires meta.Valid() && Wide(rows, meta.columns) && Keyed(t, meta) && !Rejected(rows, meta)
    ensures Keyed(Upserted(t, rows, meta), meta)
    ensures forall k :: k in Upserted(t, rows, meta) <==> k in t || Names(rows, meta, k)
    ensures forall row :: row in rows ==>
              KeyOfRow(row, meta.pk) in Upserted(t, rows, meta) &&
              Upserted(t, rows, meta)[KeyOfRow(row, meta.pk)] == row
    ensures forall k :: k in t && !Names(rows, meta, k) ==> Upserted(t, rows, meta)[k] == t[k]
  {
    hide KeyOfRow, NoNull, Meta.AllKey;
    if rows != [] {
      var n := |rows| - 1;
      var init, row := rows[..n], rows[n];
      InitAccepted(rows, meta);
      UpsertedIs(t, init, meta);
      var before := Upserted(t, init, meta);
      var key := KeyOfRow(row, meta.pk);
      assert rows == init + [row];
      NamesGrow(init, row, meta);
      if meta.AllKey() && key in before { KeyDecidesRow(row, before[key], meta); }
      if !meta.AllKey() { LastIsNew(rows, meta); }
    }
  }

  lemma InitAccepted(rows: seq<Row>, meta: Meta)
    requires meta.Valid() && Wide(rows, meta.columns) && rows != [] && !Rejected(rows, meta)
    ensures !Rejected(rows[..|rows| - 1], meta)
  {
    hide KeyOfRow, NoNull, Meta.AllKey;
    var init := rows[..|rows| - 1];
    assert forall i :: 0 <= i < |init| ==> init[i] == rows[i];
  }

  lemma NamesGrow(rows: seq<Row>, row: Row, meta: Meta)
    requires meta.Valid() && Wide(rows, meta.columns) && |row| == meta.columns
    ensures Wide(rows + [row], meta.columns)
    ensures forall k :: Names(rows + [row], meta, k) <==> Names(rows, meta, k) || KeyOfRow(row, meta.pk) == k
  {
    hide KeyOfRow;
    var all := rows + [row];
    forall k: Row
      ensures Names(all, meta, k) <==> Names(rows, meta, k) || KeyOfRow(row, meta.pk) == k
    {
      if i :| 0 <= i < |rows| && KeyOfRow(rows[i], meta.pk) == k { assert all[i] == rows[i]; }
      assert all[|rows|] == row;
      if Names(all, meta, k) {
        var i :| 0 <= i < |all| && KeyOfRow(all[i], meta.pk) == k;
        assert i < |rows| ==> all[i] == rows[i];
      }
    }
  }

  lemma LastIsNew(rows: seq<Row>, meta: Meta)
    requires meta.Valid() && Wide(rows, meta.columns) && rows != [] && !Rejected(rows, meta) && !meta.AllKey()
    ensures !Names(rows[..|rows| - 1], meta, KeyOfRow(rows[|rows| - 1], meta.pk))
  {
    hide KeyOfRow, NoNull, Meta.AllKey;
    var init := rows[..|rows| - 1];
    assert forall i :: 0 <= i < |init| ==> init[i] == rows[i];
  }

  /**
   A delta that is accepted leaves exactly the old rows neither deleted nor upserted, and
   the upserted rows.
   */
  lemma AppliedIs(t: Table, meta: Meta, upsertBuf: Bytes, deleteBuf: Bytes, upserts: nat, deletes: nat, rows: seq<Row>,
      keys: seq<Row>)
    requires meta.Valid() && Keyed(t, meta) && Applied(t, meta, upsertBuf, deleteBuf, upserts, deletes).Some?
    requires Rows(upsertBuf, meta.columns) == Some(rows) && upserts == |rows|
    requires if deletes > 0 then Rows(deleteBuf, |meta.pk|) == Some(keys) else keys == []
    ensures var after := Applied(t, meta, upsertBuf, deleteBuf, upserts, deletes).value;
            Keyed(after, meta) &&
            (forall k :: k in after <==> Names(rows, meta, k) || (k in t && k !in keys)) &&
            (forall row :: row in rows ==> KeyOfRow(row, meta.pk) in after && after[KeyOfRow(row, meta.pk)] == row) &&
            (forall k :: k in t && k !in keys && !Names(rows, meta, k) ==> after[k] == t[k])
  {
    hide KeyOfRow, NoNull, Meta.AllKey, Rows, HasNullKey;
    if upserts > 0 {
      UpsertedIs(Deleted(t, keys), rows, meta);
    }
  }

  /** Applying an accepted delta twice is applying it once. */
  lemma ApplyTwice(t: Table, meta: Meta, upsertBuf: Bytes, deleteBuf: Bytes, upserts: nat, deletes: nat)
    requires meta.Valid() && Keyed(t, meta) && Applied(t, meta, upsertBuf, deleteBuf, upserts, deletes).Some?
    requires Rows(upsertBuf, meta.columns).Some? && upserts == |Rows(upsertBuf, meta.columns).value|
    ensures var once := Applied(t, meta, upsertBuf, deleteBuf, upserts, deletes).value;
            Applied(once, meta, upsertBuf, deleteBuf, upserts, deletes) == Some(once)
  {
    hide KeyOfRow, NoNull, Meta.AllKey, Rows, HasNullKey, Upserted, Rejected;
    var rows := Rows(upsertBuf, meta.columns).value;
    var keys := if deletes > 0 then Rows(deleteBuf, |meta.pk|).value else [];
    AppliedIs(t, meta, upsertBuf, deleteBuf, upserts, deletes, rows, keys);
    var once := Applied(t, meta, upsertBuf, deleteBuf, upserts, deletes).value;
    AppliedIs(once, meta, upsertBuf, deleteBuf, upserts, deletes, rows, keys);
    var twice := Applied(once, meta, upsertBuf, deleteBuf, upserts, deletes).value;
    forall k | k in once
      ensures once[k] == twice[k]
    {
      if Names(rows, meta, k) {
        var i :| 0 <= i < |rows| && KeyOfRow(rows[i], meta.pk) == k;
        assert rows[i] in rows;
      }
    }
    assert once.Keys == twice.Keys;
    assert once == twice;
  }
}
