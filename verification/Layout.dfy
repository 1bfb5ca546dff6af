/** Where the parts of pages and records lie: what is laid out byte by byte is what the readers find. */
module Layout {
  import opened Bytes
  import opened Ods
  import Sqz

  /** A word laid out in place is read back. */
  lemma WordReads(b: Bytes, i: nat, v: nat)
    ensures InPlace(b, i, ToLe(v, 2)) && v < U16_LIMIT ==> U16Le(b, i) == v && WordAt(b, i) == v
    ensures InPlace(b, i, ToLe(v, 4)) && v < U32_LIMIT ==> U32Le(b, i) == v
  {
    hide ToLe, FromLe;
    PowerLimits();
    if InPlace(b, i, ToLe(v, 2)) && v < U16_LIMIT {
      LeRoundTrip(v, 2);
      LittleEndian(b, i);
    }
    if InPlace(b, i, ToLe(v, 4)) && v < U32_LIMIT { LeRoundTrip(v, 4); }
  }

  // ── Records ──

  /** A record header's fields; the transaction has 48 bits in the long form, else 32. */
  datatype RecordHeader = RecordHeader(txn: nat, backPage: nat, backLine: nat, flags: nat, format: Byte)
  {
    predicate Long() {
      Is(1024)
    }

    predicate Is(flag: nat)
      requires flag > 0
    {
      flags / flag % 2 == 1
    }

    predicate Fits() {
      backPage < U32_LIMIT && backLine < U16_LIMIT && flags < U16_LIMIT &&
      if Long() then txn / U32_LIMIT < U16_LIMIT else txn < U32_LIMIT
    }

    /** The low transaction, the back pointer, the flags and the format; then, if long, the high transaction. */
    function Laid(): Bytes {
      ToLe(txn % U32_LIMIT, 4) + (ToLe(backPage, 4) + (ToLe(backLine, 2) + (ToLe(flags, 2) + ([format] + High()))))
    }

    function High(): Bytes {
      if Long() then [0] + ToLe(txn / U32_LIMIT, 2) else []
    }
  }

  lemma HeaderParts(h: RecordHeader, raw: Bytes)
    requires h.Fits() && InPlace(raw, 0, h.Laid())
    ensures InPlace(raw, 0, ToLe(h.txn % U32_LIMIT, 4)) && InPlace(raw, 4, ToLe(h.backPage, 4)) &&
            InPlace(raw, 8, ToLe(h.backLine, 2)) && InPlace(raw, 10, ToLe(h.flags, 2)) &&
            InPlace(raw, 12, [h.format]) && (h.Long() ==> InPlace(raw, 14, ToLe(h.txn / U32_LIMIT, 2)))
    ensures |h.Laid()| == if h.Long() then 16 else 13
  {
    hide ToLe, InPlace;
    var low, back := ToLe(h.txn % U32_LIMIT, 4), ToLe(h.backPage, 4);
    var line, flags := ToLe(h.backLine, 2), ToLe(h.flags, 2);
    InPlaceSplits(raw, 0, low, back + (line + (flags + ([h.format] + h.High()))));
    InPlaceSplits(raw, 4, back, line + (flags + ([h.format] + h.High())));
    InPlaceSplits(raw, 8, line, flags + ([h.format] + h.High()));
    InPlaceSplits(raw, 10, flags, [h.format] + h.High());
    InPlaceSplits(raw, 12, [h.format], h.High());
    if h.Long() { InPlaceSplits(raw, 13, [0], ToLe(h.txn / U32_LIMIT, 2)); }
  }

  /** A header laid out before some data reads back field by field, and the data begins right behind it. */
  lemma RecordReads(h: RecordHeader, data: Bytes)
    requires h.Fits()
    ensures var raw := h.Laid() + data;
            HasHeader(raw) && BackPage(raw) == h.backPage && BackLine(raw) == h.backLine && Flags(raw) == h.flags &&
            Format(raw) == h.format as int && DataStart(raw) == |h.Laid()| && raw[DataStart(raw)..] == data &&
            RecordTransaction(raw) == if Partial(raw) then None else Some(h.txn)
  {
    hide ToLe, Partial;
    var raw := h.Laid() + data;
    ConcatSplits(h.Laid(), data);
    HeaderParts(h, raw);
    WordReads(raw, 0, h.txn % U32_LIMIT);
    WordReads(raw, 4, h.backPage);
    WordReads(raw, 8, h.backLine);
    WordReads(raw, 10, h.flags);
    if h.Long() { WordReads(raw, 14, h.txn / U32_LIMIT); }
  }

  /** What change capture and extraction make of a record, from its flags and its data. */
  lemma RecordMeans(h: RecordHeader, data: Bytes)
    requires h.Fits()
    ensures var raw := h.Laid() + data;
            var unpacked := if h.Is(2048) then Some(data) else Sqz.Decompressed(data);
            if h.Is(4) || h.Is(8) || h.Is(16) || data == [] || unpacked == None then
              RecordCdc(raw) == None && RecordCurrent(raw) == None
            else
              RecordCdc(raw) == Some(Unpacked(h.Is(1), unpacked.value)) &&
              RecordCurrent(raw) == if h.Is(1) || h.Is(2) then None else unpacked
    ensures LeadsBack(h.Laid() + data) <==> h.Is(1) || h.Is(2)
  {
    hide Sqz.Decompressed, RecordHeader.Laid, RecordHeader.Fits, BackPage, BackLine, Format, RecordTransaction,
         DataStart;
    var raw := h.Laid() + data;
    RecordReads(h, data);
  }

  // ── Fragments ──

  /** The head of a fragmented record: the header to 16 bytes, then the page and the line of the next piece. */
  function HeadLaid(h: RecordHeader, page: nat, line: nat): Bytes {
    (h.Laid() + if h.Long() then [] else [0, 0, 0]) + (ToLe(page, 4) + ToLe(line, 2))
  }

  /** A head's data begins at 22 and its next piece is in the slot it names. */
  lemma HeadReads(db: Db, h: RecordHeader, page: nat, line: nat, data: Bytes)
    requires h.Fits() && h.Is(8) && page < U32_LIMIT && line < U16_LIMIT
    ensures var raw := HeadLaid(h, page, line) + data;
            |raw| >= 22 && Flags(raw) == h.flags && FragmentHeader(raw) == 22 && raw[22..] == data &&
            NextFragment(db, raw) == ReadSlotRaw(db, page, line)
  {
    hide ToLe, RecordHeader.Laid, ReadSlotRaw;
    var raw := HeadLaid(h, page, line) + data;
    var lead, next := h.Laid() + (if h.Long() then [] else [0, 0, 0]), ToLe(page, 4) + ToLe(line, 2);
    ConcatSplits(lead + next, data);
    assert InPlace(raw, 0, lead + next);
    HeaderParts(h, h.Laid());
    InPlaceSplits(raw, 0, lead, next);
    InPlaceSplits(raw, 16, ToLe(page, 4), ToLe(line, 2));
    InPlaceSplits(raw, 0, h.Laid(), if h.Long() then [] else [0, 0, 0]);
    HeaderParts(h, raw);
    WordReads(raw, 10, h.flags);
    WordReads(raw, 16, page);
    WordReads(raw, 20, line);
  }

  /** What reassembly takes from a slot: a head's piece and the slot it leads to, or the last piece. */
  lemma FragmentMeans(db: Db, h: RecordHeader, page: nat, line: nat, data: Bytes)
    requires h.Fits() && page < U32_LIMIT && line < U16_LIMIT
    ensures var raw := if h.Is(8) then HeadLaid(h, page, line) + data else h.Laid() + data;
            var piece := if h.Is(2048) then Some(data) else Sqz.Decompressed(data);
            var next := ReadSlotRaw(db, page, line);
            FragmentAt(db, raw) ==
              if data == [] || piece == None then Broken
              else if !h.Is(8) then Last(piece.value)
              else if next == None then Broken
              else More(piece.value, next.value)
  {
    hide Sqz.Decompressed, RecordHeader.Laid, RecordHeader.Fits, HeadLaid, DataStart, NextFragment, ReadSlotRaw;
    if h.Is(8) { HeadReads(db, h, page, line, data); } else { RecordReads(h, data); }
  }

  // ── Pages ──

  /** The entry of a slot: where its bytes begin on the page, and how many they are. */
  type Entry = (nat, nat)

  function Entries(slots: seq<Entry>): Bytes {
    if slots == [] then [] else ToLe(slots[0].0, 2) + (ToLe(slots[0].1, 2) + Entries(slots[1..]))
  }

  /** A page: its type, its generation at 4, the slot count at 22, the slot entries from 24 on, and the rest. */
  function PageLaid(kind: Byte, flags: Bytes, gen: nat, other: Bytes, slots: seq<Entry>, body: Bytes): Bytes {
    ([kind] + flags) + (ToLe(gen, 4) + (other + (ToLe(|slots|, 2) + (Entries(slots) + body))))
  }

  lemma {:induction false} EntryReads(page: Bytes, i: nat, slots: seq<Entry>, s: nat)
    requires InPlace(page, i, Entries(slots)) && s < |slots|
    ensures InPlace(page, i + 4 * s, ToLe(slots[s].0, 2)) && InPlace(page, i + 2 + 4 * s, ToLe(slots[s].1, 2))
    decreases s
  {
    hide ToLe, InPlace;
    var off, len, rest := ToLe(slots[0].0, 2), ToLe(slots[0].1, 2), Entries(slots[1..]);
    InPlaceSplits(page, i, off, len + rest);
    InPlaceSplits(page, i + 2, len, rest);
    if s > 0 { EntryReads(page, i + 4, slots[1..], s - 1); }
  }

  lemma PageParts(kind: Byte, flags: Bytes, gen: nat, other: Bytes, slots: seq<Entry>, body: Bytes)
    requires |flags| == 3 && |other| == 14
    ensures var page := PageLaid(kind, flags, gen, other, slots, body);
            |page| >= 24 && page[0] == kind && InPlace(page, 4, ToLe(gen, 4)) && InPlace(page, 22, ToLe(|slots|, 2)) &&
            InPlace(page, 24, Entries(slots))
  {
    hide ToLe, InPlace, Entries;
    var page := PageLaid(kind, flags, gen, other, slots, body);
    var tail := ToLe(|slots|, 2) + (Entries(slots) + body);
    WholeInPlace(page);
    InPlaceSplits(page, 0, [kind] + flags, ToLe(gen, 4) + (other + tail));
    InPlaceSplits(page, 4, ToLe(gen, 4), other + tail);
    InPlaceSplits(page, 8, other, tail);
    InPlaceSplits(page, 22, ToLe(|slots|, 2), Entries(slots) + body);
    InPlaceSplits(page, 24, Entries(slots), body);
  }

  /** A page reads back: its kind, its generation, and for every slot the bytes its entry spans, if they are inside. */
  lemma PageReads(kind: Byte, flags: Bytes, gen: nat, other: Bytes, slots: seq<Entry>, body: Bytes, s: nat)
    requires |flags| == 3 && |other| == 14 && gen < U32_LIMIT && |slots| < U16_LIMIT
    requires forall i :: 0 <= i < |slots| ==> slots[i].0 < U16_LIMIT && slots[i].1 < U16_LIMIT
    ensures var page := PageLaid(kind, flags, gen, other, slots, body);
            (IsDataPage(page) <==> kind == 5) && Generation(page) == gen && SlotCount(page) == |slots| &&
            (s < |slots| ==>
              var (off, len) := slots[s];
              SlotBytes(page, s) ==
                if off == 0 || len == 0 || off + len > |page| then None else Some(page[off..off + len]))
  {
    hide ToLe, InPlace, Entries, PageLaid, WordAt, U32Le;
    var page := PageLaid(kind, flags, gen, other, slots, body);
    PageParts(kind, flags, gen, other, slots, body);
    WordReads(page, 4, gen);
    WordReads(page, 22, |slots|);
    if s < |slots| {
      EntryReads(page, 24, slots, s);
      WordReads(page, 24 + 4 * s, slots[s].0);
      WordReads(page, 26 + 4 * s, slots[s].1);
    }
  }

  lemma WholeInPlace(b: Bytes)
    ensures InPlace(b, 0, b)
  {
    assert b[0..0 + |b|] == b;
  }

  /** A slot is read only from a data page of the file, and only below the page's slot count. */
  lemma SlotReads(db: Db, page: int, slot: nat, raw: Bytes)
    ensures ReadSlotRaw(db, page, slot) == Some(raw) <==>
            page in db.pages && IsDataPage(db.pages[page]) && slot < SlotCount(db.pages[page]) &&
            SlotBytes(db.pages[page], slot) == Some(raw)
  {
  }
}
