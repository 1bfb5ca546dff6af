/**
 Data pages and records of a Firebird file: slots, record headers, unpacking, fragment
 reassembly, and the back versions behind a delete stub.
 */
module Ods {
  import opened Bytes
  import Sqz

  const PAG_DATA := 5

  const RHD_DELETED: nat := 1
  const RHD_CHAIN: nat := 2
  const RHD_FRAGMENT: nat := 4
  const RHD_INCOMPLETE: nat := 8
  const RHD_BLOB: nat := 16
  const RHD_LONG_TRANUM: nat := 1024
  const RHD_NOT_PACKED: nat := 2048

  const RHD_SIZE := 13
  const LONG_RHD_SIZE := 16
  const RHDF_SIZE := 22

  /** The mapped file. A page number outside the file, a panic in the source, reads as empty. */
  datatype Db = Db(pages: map<int, Bytes>)
  {
    function Page(n: int): Bytes {
      if n in pages then pages[n] else []
    }
  }

  // ── Pages and slots ──

  function ByteAt(b: Bytes, i: nat): int {
    if i < |b| then b[i] as int else 0
  }

  function WordAt(b: Bytes, i: nat): nat {
    ByteAt(b, i) + 256 * ByteAt(b, i + 1)
  }

  predicate IsDataPage(page: Bytes) {
    ByteAt(page, 0) == PAG_DATA
  }

  function Generation(page: Bytes): nat {
    if |page| < 8 then 0 else U32Le(page, 4)
  }

  function SlotCount(page: Bytes): nat {
    WordAt(page, 22)
  }

  /** The bytes of a slot; an entry that is empty or reaches past the page has none. */
  function SlotBytes(page: Bytes, s: nat): Option<Bytes> {
    var off, len := WordAt(page, 24 + 4 * s), WordAt(page, 26 + 4 * s);
    if off == 0 || len == 0 || off + len > |page| then None else Some(page[off..off + len])
  }

  function ReadSlotRaw(db: Db, page: int, slot: nat): Option<Bytes> {
    var p := db.Page(page);
    if !IsDataPage(p) || slot >= SlotCount(p) then None else SlotBytes(p, slot)
  }

  // ── Record headers ──

  predicate HasHeader(raw: Bytes) {
    |raw| >= RHD_SIZE
  }

  function Flags(raw: Bytes): nat
    requires HasHeader(raw)
  {
    U16Le(raw, 10)
  }

  predicate Has(raw: Bytes, flag: nat)
    requires HasHeader(raw) && flag > 0
  {
    Bit(Flags(raw), flag)
  }

  predicate Partial(raw: Bytes)
    requires HasHeader(raw)
  {
    Has(raw, RHD_FRAGMENT) || Has(raw, RHD_INCOMPLETE) || Has(raw, RHD_BLOB)
  }

  function DataStart(raw: Bytes): nat
    requires HasHeader(raw)
  {
    if Has(raw, RHD_LONG_TRANUM) then LONG_RHD_SIZE else RHD_SIZE
  }

  /** The transaction that wrote a record, 48 bits wide in the long header. */
  function RecordTransaction(raw: Bytes): Option<nat> {
    if !HasHeader(raw) || Partial(raw) then None
    else if !Has(raw, RHD_LONG_TRANUM) then Some(U32Le(raw, 0))
    else if |raw| < LONG_RHD_SIZE then None
    else Some(U16Le(raw, 14) * U32_LIMIT + U32Le(raw, 0))
  }

  function BackPage(raw: Bytes): nat requires HasHeader(raw) { U32Le(raw, 4) }
  function BackLine(raw: Bytes): nat requires HasHeader(raw) { U16Le(raw, 8) }
  function Format(raw: Bytes): int requires HasHeader(raw) { raw[12] as int }

  // ── Unpacking ──

  /** The payload behind a header of `start` bytes, decompressed unless stored plain. */
  function PayloadFrom(raw: Bytes, start: nat): Option<Bytes>
    requires HasHeader(raw)
  {
    if |raw| <= start then None
    else if Has(raw, RHD_NOT_PACKED) then Some(raw[start..])
    else Sqz.Decompressed(raw[start..])
  }

  datatype Unpacked = Unpacked(deleted: bool, rec: Bytes)

  /** A record for change capture: whole records only, delete stubs included. */
  function RecordCdc(raw: Bytes): Option<Unpacked> {
    if !HasHeader(raw) || Partial(raw) then None else
    match PayloadFrom(raw, DataStart(raw))
    case None => None
    case Some(rec) => Some(Unpacked(Has(raw, RHD_DELETED), rec))
  }

  method UnpackRecordCdc(raw: Bytes, buf: Bytes) returns (deleted: Option<bool>, rec: Bytes)
    ensures match RecordCdc(raw)
            case None => deleted == None
            case Some(u) => deleted == Some(u.deleted) && rec == u.rec
  {
    rec := buf;
    if |raw| < RHD_SIZE { return None, rec; }
    if Has(raw, RHD_FRAGMENT) || Has(raw, RHD_INCOMPLETE) || Has(raw, RHD_BLOB) { return None, rec; }
    var stub := Has(raw, RHD_DELETED);
    var start := if Has(raw, RHD_LONG_TRANUM) then LONG_RHD_SIZE else RHD_SIZE;
    if |raw| <= start { return None, rec; }
    var compressed := raw[start..];
    var ok := true;
    if Has(raw, RHD_NOT_PACKED) {
      rec := compressed;
    } else {
      ok, rec := Sqz.DecompressImpl(compressed);
    }
    deleted := if ok then Some(stub) else None;
  }

  /** A record for a full extraction: current whole versions only. */
  function RecordCurrent(raw: Bytes): Option<Bytes> {
    if !HasHeader(raw) || Has(raw, RHD_DELETED) || Has(raw, RHD_CHAIN) || Partial(raw) then None
    else PayloadFrom(raw, DataStart(raw))
  }

  method UnpackRecordInto(raw: Bytes, buf: Bytes) returns (ok: bool, rec: Bytes)
    ensures ok <==> RecordCurrent(raw).Some?
    ensures ok ==> RecordCurrent(raw) == Some(rec)
  {
    rec := buf;
    if |raw| < RHD_SIZE { return false, rec; }
    if Has(raw, RHD_DELETED) || Has(raw, RHD_CHAIN) || Has(raw, RHD_FRAGMENT) || Has(raw, RHD_INCOMPLETE)
       || Has(raw, RHD_BLOB) { return false, rec; }
    var start := if Has(raw, RHD_LONG_TRANUM) then LONG_RHD_SIZE else RHD_SIZE;
    if |raw| <= start { return false, rec; }
    var compressed := raw[start..];
    ok := true;
    if Has(raw, RHD_NOT_PACKED) {
      rec := compressed;
    } else {
      ok, rec := Sqz.DecompressImpl(compressed);
    }
  }

  /** Extraction keeps exactly the records change capture takes as live and that are no back version. */
  lemma CurrentIsLive(raw: Bytes)
    ensures RecordCurrent(raw).Some? <==>
            RecordCdc(raw).Some? && !RecordCdc(raw).value.deleted && !Has(raw, RHD_CHAIN)
    ensures RecordCurrent(raw).Some? ==> RecordCurrent(raw).value == RecordCdc(raw).value.rec
  {
    hide PayloadFrom, Has, DataStart;
  }

  /** A slot is at most a page long, so an unpacked record is at most the decoder's cap. */
  lemma RecordBounded(raw: Bytes)
    requires |raw| < U16_LIMIT && RecordCdc(raw).Some?
    ensures |RecordCdc(raw).value.rec| <= Sqz.MAX_RECORD_SIZE
  {
    hide Has, DataStart;
    var start := DataStart(raw);
    if !Has(raw, RHD_NOT_PACKED) {
      DecompressedBounded(raw[start..]);
    }
  }

  lemma DecompressedBounded(input: Bytes)
    requires Sqz.Decompressed(input).Some?
    ensures |Sqz.Decompressed(input).value| <= Sqz.MAX_RECORD_SIZE
  {
    var out := Sqz.Decompressed(input).value;
    Sqz.DecompressExact(input, out);
    var rs :| Sqz.Encodes(rs, input, out);
  }

  // ── Fragments ──

  const MAX_FRAGMENTS: nat := 4096

  function FragmentHeader(raw: Bytes): nat
    requires HasHeader(raw)
  {
    if Has(raw, RHD_INCOMPLETE) then RHDF_SIZE else DataStart(raw)
  }

  function NextFragment(db: Db, raw: Bytes): Option<Bytes>
    requires |raw| >= RHDF_SIZE
  {
    ReadSlotRaw(db, U32Le(raw, 16), U16Le(raw, 20))
  }

  /** What one slot of a fragmented record gives: nothing usable, the last piece, or a piece and the next slot. */
  datatype Fragment = Broken | Last(piece: Bytes) | More(piece: Bytes, next: Bytes)

  function FragmentAt(db: Db, raw: Bytes): Fragment {
    if !HasHeader(raw) then Broken else
    match PayloadFrom(raw, FragmentHeader(raw))
    case None => Broken
    case Some(piece) =>
      if !Has(raw, RHD_INCOMPLETE) then Last(piece) else
      match NextFragment(db, raw)
      case None => Broken
      case Some(next) => More(piece, next)
  }

  /** The pieces from `cur` on, `out` being there already, following at most `hops` slots. */
  function Reassembled(db: Db, cur: Bytes, out: Bytes, hops: nat): Option<Bytes>
    decreases hops
  {
    if hops == 0 then None else
    match FragmentAt(db, cur)
    case Broken => None
    case Last(piece) => Some(out + piece)
    case More(piece, next) => Reassembled(db, next, out + piece, hops - 1)
  }

  /** One turn of the loop: the piece of `cur` appended to `out`. */
  method TakeFragment(cur: Bytes, out: Bytes) returns (ok: bool, incomplete: bool, more: Bytes)
    ensures ok <==> HasHeader(cur) && PayloadFrom(cur, FragmentHeader(cur)).Some?
    ensures ok ==> more == out + PayloadFrom(cur, FragmentHeader(cur)).value && incomplete == Has(cur, RHD_INCOMPLETE)
  {
    incomplete, more := false, out;
    if |cur| < RHD_SIZE { return false, incomplete, more; }
    incomplete := Has(cur, RHD_INCOMPLETE);
    var hsize := if incomplete then RHDF_SIZE else if Has(cur, RHD_LONG_TRANUM) then LONG_RHD_SIZE else RHD_SIZE;
    if |cur| <= hsize { return false, incomplete, more; }
    var comp := cur[hsize..];
    ok := true;
    if Has(cur, RHD_NOT_PACKED) {
      more := out + comp;
    } else {
      var piece := Sqz.Decompress(comp);
      if piece == None { return false, incomplete, more; }
      more := out + piece.value;
    }
  }

  method ReassembleFragments(db: Db, head: Bytes) returns (r: Option<Bytes>)
    ensures r == Reassembled(db, head, [], MAX_FRAGMENTS)
  {
    hide PayloadFrom, Has, DataStart, NextFragment;
    var out: Bytes := [];
    var cur := head;
    for i := 0 to MAX_FRAGMENTS
      invariant Reassembled(db, head, [], MAX_FRAGMENTS) == Reassembled(db, cur, out, MAX_FRAGMENTS - i)
    {
      var ok, incomplete, more := TakeFragment(cur, out);
      if !ok { return None; }
      out := more;
      if !incomplete { return Some(out); }
      LongerThanHeader(cur);
      var next := NextFragment(db, cur);
      if next == None { return None; }
      cur := next.value;
    }
    return None;
  }

  lemma LongerThanHeader(raw: Bytes)
    requires HasHeader(raw) && PayloadFrom(raw, FragmentHeader(raw)).Some? && Has(raw, RHD_INCOMPLETE)
    ensures |raw| > RHDF_SIZE
  {
  }

  /** A chain of slots that each lead to the next, the last being complete. */
  ghost predicate Linked(db: Db, chain: seq<Bytes>) {
    chain != [] &&
    (if |chain| == 1 then FragmentAt(db, chain[0]).Last?
     else FragmentAt(db, chain[0]).More? && FragmentAt(db, chain[0]).next == chain[1] && Linked(db, chain[1..]))
  }

  ghost function Pieces(db: Db, chain: seq<Bytes>): Bytes {
    if chain == [] || FragmentAt(db, chain[0]).Broken? then []
    else FragmentAt(db, chain[0]).piece + Pieces(db, chain[1..])
  }

  lemma {:induction false} ChainReassembles(db: Db, chain: seq<Bytes>, out: Bytes, hops: nat)
    requires Linked(db, chain) && |chain| <= hops
    ensures Reassembled(db, chain[0], out, hops) == Some(out + Pieces(db, chain))
    decreases chain
  {
    hide FragmentAt;
    var f := FragmentAt(db, chain[0]);
    if |chain| == 1 {
      assert f.piece + [] == f.piece;
    } else {
      ChainReassembles(db, chain[1..], out + f.piece, hops - 1);
      ConcatAssociates(out, f.piece, Pieces(db, chain[1..]));
    }
  }

  lemma {:induction false} ReassembledHasChain(db: Db, cur: Bytes, out: Bytes, hops: nat) returns (chain: seq<Bytes>)
    requires Reassembled(db, cur, out, hops).Some?
    ensures Linked(db, chain) && |chain| <= hops && chain[0] == cur
    decreases hops
  {
    hide FragmentAt;
    var f := FragmentAt(db, cur);
    if f.Last? {
      chain := [cur];
    } else {
      var rest := ReassembledHasChain(db, f.next, out + f.piece, hops - 1);
      chain := [cur] + rest;
      assert chain[1..] == rest;
    }
  }

  /**
   Reassembly yields a record if and only if the head starts a linked chain of at most
   4096 slots, and then the record is the chain's pieces in order.
   */
  lemma ReassemblyExact(db: Db, head: Bytes, rec: Bytes)
    ensures Reassembled(db, head, [], MAX_FRAGMENTS) == Some(rec) <==>
            exists chain :: Linked(db, chain) && |chain| <= MAX_FRAGMENTS && chain[0] == head &&
              Pieces(db, chain) == rec
  {
    hide FragmentAt;
    if Reassembled(db, head, [], MAX_FRAGMENTS) == Some(rec) {
      var chain := ReassembledHasChain(db, head, [], MAX_FRAGMENTS);
      ChainReassembles(db, chain, [], MAX_FRAGMENTS);
      assert [] + Pieces(db, chain) == Pieces(db, chain);
    }
    if chain :| Linked(db, chain) && |chain| <= MAX_FRAGMENTS && chain[0] == head && Pieces(db, chain) == rec {
      ChainReassembles(db, chain, [], MAX_FRAGMENTS);
      assert [] + Pieces(db, chain) == Pieces(db, chain);
    }
  }

  /** A chain that stays among slots which all lead on, a cycle for one, yields nothing. */
  lemma {:induction false} EndlessChainFails(db: Db, slots: set<Bytes>, cur: Bytes, out: Bytes, hops: nat)
    requires cur in slots
    requires forall raw :: raw in slots ==> FragmentAt(db, raw).More? && FragmentAt(db, raw).next in slots
    ensures Reassembled(db, cur, out, hops) == None
    decreases hops
  {
    hide FragmentAt;
    if hops > 0 {
      var f := FragmentAt(db, cur);
      EndlessChainFails(db, slots, f.next, out + f.piece, hops - 1);
    }
  }

  ghost predicate AllPacked(chain: seq<Bytes>) {
    forall i :: 0 <= i < |chain| ==> HasHeader(chain[i]) && !Has(chain[i], RHD_NOT_PACKED)
  }

  /** The compressed bytes of the chain put together. */
  ghost function Whole(chain: seq<Bytes>): Bytes
    requires forall i :: 0 <= i < |chain| ==> HasHeader(chain[i])
  {
    if chain == [] then []
    else
      var start := if FragmentHeader(chain[0]) <= |chain[0]| then FragmentHeader(chain[0]) else |chain[0]|;
      chain[0][start..] + Whole(chain[1..])
  }

  lemma PackedPiece(db: Db, raw: Bytes) returns (rs: seq<Sqz.Run>)
    requires !FragmentAt(db, raw).Broken? && !Has(raw, RHD_NOT_PACKED)
    ensures FragmentHeader(raw) <= |raw|
    ensures Sqz.AllValid(rs) && Sqz.Serialise(rs) == raw[FragmentHeader(raw)..] &&
            Sqz.Expand(rs) == FragmentAt(db, raw).piece
  {
    hide Has, DataStart, NextFragment;
    var comp, piece := raw[FragmentHeader(raw)..], FragmentAt(db, raw).piece;
    assert Sqz.Decompressed(comp) == Some(piece);
    Sqz.DecompressExact(comp, piece);
    rs :| Sqz.Encodes(rs, comp, piece);
  }

  lemma {:induction false} WholeRuns(db: Db, chain: seq<Bytes>) returns (rs: seq<Sqz.Run>)
    requires Linked(db, chain) && AllPacked(chain)
    ensures Sqz.AllValid(rs) && Sqz.Serialise(rs) == Whole(chain) && Sqz.Expand(rs) == Pieces(db, chain)
    decreases chain
  {
    hide FragmentAt, Has, DataStart;
    var f := FragmentAt(db, chain[0]);
    var first := PackedPiece(db, chain[0]);
    if |chain| == 1 {
      rs := first;
      assert Whole(chain[1..]) == [] && Pieces(db, chain[1..]) == [];
      assert Sqz.Serialise(first) + [] == Sqz.Serialise(first) && f.piece + [] == f.piece;
    } else {
      var rest := WholeRuns(db, chain[1..]);
      rs := first + rest;
      Sqz.ExpandAppend(first, rest);
      Sqz.SerialiseAppend(first, rest);
    }
  }

  /**
   Cutting a compressed record between runs and chaining the parts changes nothing, as
   long as the record is within the decoder's cap: reassembly equals decompressing the
   parts put together. Beyond the cap reassembly still yields the record, the decoder none.
   */
  lemma FragmentsTransparent(db: Db, chain: seq<Bytes>)
    requires Linked(db, chain) && AllPacked(chain) && |chain| <= MAX_FRAGMENTS
    ensures Reassembled(db, chain[0], [], MAX_FRAGMENTS) == Some(Pieces(db, chain))
    ensures Sqz.Decompressed(Whole(chain)) == Sqz.Capped(Pieces(db, chain))
    ensures Reassembled(db, chain[0], [], MAX_FRAGMENTS) == Sqz.Decompressed(Whole(chain)) <==>
            |Pieces(db, chain)| <= Sqz.MAX_RECORD_SIZE
  {
    hide FragmentAt, Has, DataStart;
    ChainReassembles(db, chain, [], MAX_FRAGMENTS);
    assert [] + Pieces(db, chain) == Pieces(db, chain);
    var rs := WholeRuns(db, chain);
    var whole := Whole(chain);
    assert whole[0..] == whole;
    Sqz.DecodeOfSerial(whole, 0, [], rs);
  }

  // ── Back versions ──

  const MAX_CHAIN_DEPTH: nat := 8

  /** A record's bytes and the format they were written in. */
  datatype Version = Version(rec: Bytes, format: int)

  /** Only back versions and delete stubs point to an older version. */
  predicate LeadsBack(raw: Bytes) {
    HasHeader(raw) && (Has(raw, RHD_CHAIN) || Has(raw, RHD_DELETED))
  }

  /** The first version that unpacks, from a slot on, within `depth` slots. */
  function Resolved(db: Db, page: int, line: nat, depth: nat): Option<Version>
    decreases depth
  {
    if depth == 0 then None else
    match ReadSlotRaw(db, page, line)
    case None => None
    case Some(back) =>
      match RecordCdc(back)
      case Some(u) => Some(Version(u.rec, Format(back)))
      case None => if !LeadsBack(back) then None else Resolved(db, BackPage(back), BackLine(back), depth - 1)
  }

  /** The version a delete stub deleted; a stub without a back page deleted nothing visible. */
  function DeletedVersion(db: Db, stub: Bytes): Option<Version>
    requires HasHeader(stub)
  {
    if BackPage(stub) == 0 then None else Resolved(db, BackPage(stub), BackLine(stub), MAX_CHAIN_DEPTH)
  }

  method FollowChain(db: Db, stub: Bytes, buf: Bytes) returns (resolved: bool, rec: Bytes, format: int)
    requires HasHeader(stub)
    ensures resolved <==> DeletedVersion(db, stub).Some?
    ensures resolved ==> DeletedVersion(db, stub) == Some(Version(rec, format))
  {
    hide Has, U32Le, U16Le, RecordCdc, ReadSlotRaw;
    rec := buf;
    var chainPage: int := BackPage(stub);
    var chainLine := BackLine(stub);
    format := Format(stub);
    if chainPage == 0 { return false, rec, format; }
    for depth := 0 to MAX_CHAIN_DEPTH
      invariant DeletedVersion(db, stub) == Resolved(db, chainPage, chainLine, MAX_CHAIN_DEPTH - depth)
    {
      var slot := ReadSlotRaw(db, chainPage, chainLine);
      if slot == None { return false, rec, format; }
      var back := slot.value;
      var deleted;
      deleted, rec := UnpackRecordCdc(back, rec);
      if deleted.Some? {
        UnpackedHasHeader(back);
        return true, rec, Format(back);
      }
      if |back| < RHD_SIZE { return false, rec, format; }
      if !Has(back, RHD_CHAIN) && !Has(back, RHD_DELETED) { return false, rec, format; }
      chainPage, chainLine := BackPage(back), BackLine(back);
    }
    resolved := false;
  }

  lemma UnpackedHasHeader(raw: Bytes)
    requires RecordCdc(raw).Some?
    ensures HasHeader(raw)
  {
  }

  /** A path of back versions from a slot: every earlier one fails to unpack and leads back, the last unpacks. */
  ghost predicate BackPath(db: Db, page: int, line: nat, path: seq<Bytes>)
    decreases path
  {
    path != [] && ReadSlotRaw(db, page, line) == Some(path[0]) &&
    var back := path[0];
    if |path| == 1 then RecordCdc(back).Some?
    else RecordCdc(back) == None && LeadsBack(back) && BackPath(db, BackPage(back), BackLine(back), path[1..])
  }

  lemma {:induction false} PathResolves(db: Db, page: int, line: nat, path: seq<Bytes>, depth: nat)
    requires BackPath(db, page, line, path) && |path| <= depth
    ensures var last := path[|path| - 1];
            RecordCdc(last).Some? && HasHeader(last) &&
            Resolved(db, page, line, depth) == Some(Version(RecordCdc(last).value.rec, Format(last)))
    decreases path
  {
    hide RecordCdc, ReadSlotRaw, Has, BackPage, BackLine;
    if |path| == 1 {
      UnpackedHasHeader(path[0]);
    } else {
      PathResolves(db, BackPage(path[0]), BackLine(path[0]), path[1..], depth - 1);
    }
  }

  lemma {:induction false} ResolvedHasPath(db: Db, page: int, line: nat, depth: nat) returns (path: seq<Bytes>)
    requires Resolved(db, page, line, depth).Some?
    ensures BackPath(db, page, line, path) && |path| <= depth
    decreases depth
  {
    hide RecordCdc, ReadSlotRaw, Has, BackPage, BackLine;
    var back := ReadSlotRaw(db, page, line).value;
    if RecordCdc(back).Some? {
      path := [back];
    } else {
      var rest := ResolvedHasPath(db, BackPage(back), BackLine(back), depth - 1);
      path := [back] + rest;
      assert path[1..] == rest;
    }
  }

  /**
   A stub resolves if and only if the first unpackable version behind it is at most eight
   slots away, every earlier slot leading back; the version is decoded in its own format.
   */
  lemma ResolutionExact(db: Db, stub: Bytes, v: Version)
    requires HasHeader(stub)
    ensures DeletedVersion(db, stub) == Some(v) <==>
            BackPage(stub) != 0 &&
            exists path :: BackPath(db, BackPage(stub), BackLine(stub), path) && |path| <= MAX_CHAIN_DEPTH &&
                           HasHeader(path[|path| - 1]) && RecordCdc(path[|path| - 1]).Some? &&
                           v == Version(RecordCdc(path[|path| - 1]).value.rec, Format(path[|path| - 1]))
  {
    hide RecordCdc, ReadSlotRaw, Has, BackPage, BackLine;
    if DeletedVersion(db, stub) == Some(v) {
      var path := ResolvedHasPath(db, BackPage(stub), BackLine(stub), MAX_CHAIN_DEPTH);
      PathResolves(db, BackPage(stub), BackLine(stub), path, MAX_CHAIN_DEPTH);
    }
    if BackPage(stub) != 0 {
      forall path | BackPath(db, BackPage(stub), BackLine(stub), path) && |path| <= MAX_CHAIN_DEPTH
        ensures RecordCdc(path[|path| - 1]).Some? && HasHeader(path[|path| - 1])
        ensures DeletedVersion(db, stub) ==
                Some(Version(RecordCdc(path[|path| - 1]).value.rec, Format(path[|path| - 1])))
      {
        PathResolves(db, BackPage(stub), BackLine(stub), path, MAX_CHAIN_DEPTH);
      }
    }
  }
}
