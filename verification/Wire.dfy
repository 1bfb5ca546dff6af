/**
 The framed wire protocol: length-prefixed blobs, the request header, and the chunked
 body with its writer and its reader.
 */
module Wire {
  import opened Bytes

  const MAGIC: Bytes := [70, 68, 66, 73]
  const VERSION: Byte := 1

  datatype Op = Full | Delta
  {
    function ToByte(): Byte {
      if Full? then 1 else 2
    }
  }

  function OpFromByte(b: Byte): Option<Op> {
    if b == 1 then Some(Full) else if b == 2 then Some(Delta) else None
  }

  datatype Error = InvalidData | UnexpectedEof
  datatype Result<+T> = Ok(value: T) | Err(error: Error)

  /** A byte stream: what was written and not read yet. */
  class Stream {
    var data: Bytes

    constructor (data: Bytes)
      ensures this.data == data
    {
      this.data := data;
    }

    method WriteAll(b: Bytes)
      modifies this
      ensures data == old(data) + b
    {
      data := data + b;
    }

    /** Fills a buffer of `n` bytes; a short stream is drained and the read fails. */
    method ReadExact(n: nat) returns (r: Result<Bytes>)
      modifies this
      ensures |old(data)| >= n ==> r == Ok(old(data)[..n]) && data == old(data)[n..]
      ensures |old(data)| < n ==> r == Err(UnexpectedEof) && data == []
    {
      if |data| < n {
        data := [];
        return Err(UnexpectedEof);
      }
      r := Ok(data[..n]);
      data := data[n..];
    }
  }

  // ── Length-prefixed blobs ──

  /** The blob on the wire; the length is cut to 32 bits. */
  function Prefixed(b: Bytes): Bytes {
    Be32(|b|) + b
  }

  /** The blob at the front of a stream, and the rest. */
  function Unprefixed(data: Bytes): Option<(Bytes, Bytes)> {
    if |data| < 4 || |data| - 4 < U32Be(data, 0) then None
    else
      var n := U32Be(data, 0);
      Some((data[4..4 + n], data[4 + n..]))
  }

  lemma PrefixReads(b: Bytes, tail: Bytes)
    ensures var data := Prefixed(b) + tail;
            |data| >= 4 && U32Be(data, 0) == |b| % U32_LIMIT && data[4..] == b + tail
  {
    var data := Prefixed(b) + tail;
    assert data[0..4] == Be32(|b|);
    Be32At(data, 0, |b|);
  }

  /** A blob is read back, and the stream left right after it, exactly when its length fits 32 bits. */
  lemma PrefixedRoundTrip(b: Bytes, tail: Bytes)
    ensures Unprefixed(Prefixed(b) + tail) == Some((b, tail)) <==> |b| < U32_LIMIT
  {
    var data := Prefixed(b) + tail;
    var n := |b| % U32_LIMIT;
    PrefixReads(b, tail);
    assert data[4..][..n] == data[4..4 + n];
    assert data[4..][n..] == data[4 + n..];
    assert (b + tail)[..|b|] == b && (b + tail)[|b|..] == tail;
    if |b| >= U32_LIMIT {
      assert |data[4..4 + n]| == n < |b|;
    }
  }

  lemma PrefixIsThere(data: Bytes)
    requires |data| >= 4
    ensures data == Be32(U32Be(data, 0)) + data[4..]
  {
    hide ToBe, FromBe;
    BeRestores(data[0..4]);
    assert data == data[0..4] + data[4..];
  }

  /** A blob is read exactly from a stream that begins with one as it is written; any other is too short. */
  lemma UnprefixedIff(data: Bytes, b: Bytes, rest: Bytes)
    ensures Unprefixed(data) == Some((b, rest)) <==> data == Prefixed(b) + rest && |b| < U32_LIMIT
    ensures Unprefixed(data) == None <==> |data| < 4 || |data| < 4 + U32Be(data, 0)
  {
    hide U32Be, Be32;
    if data == Prefixed(b) + rest { PrefixedRoundTrip(b, rest); }
    if Unprefixed(data) == Some((b, rest)) {
      PrefixIsThere(data);
      var n := U32Be(data, 0);
      assert data[4..] == data[4..4 + n] + data[4 + n..];
      ConcatAssociates(Be32(n), b, rest);
    }
  }

  method WriteU32Prefixed(w: Stream, b: Bytes)
    modifies w
    ensures w.data == old(w.data) + Prefixed(b)
  {
    w.WriteAll(Be32(|b|));
    w.WriteAll(b);
    assert old(w.data) + Be32(|b|) + b == old(w.data) + Prefixed(b);
  }

  method ReadU32Prefixed(r: Stream) returns (res: Result<Bytes>)
    modifies r
    ensures match Unprefixed(old(r.data))
            case Some((b, rest)) => res == Ok(b) && r.data == rest
            case None => res == Err(UnexpectedEof) && r.data == []
  {
    ghost var data := r.data;
    var l := r.ReadExact(4);
    if l.Err? { return Err(UnexpectedEof); }
    assert data[0..4] == data[..4] == l.value;
    assert l.value[0..4] == l.value;
    var n := U32Be(l.value, 0);
    res := r.ReadExact(n);
    if res.Ok? {
      assert data[4..][..n] == data[4..4 + n];
      assert data[4..][n..] == data[4 + n..];
    }
  }

  /** Streams the body of a blob from `r` to `w`; a short body is copied as far as it goes. */
  method CopyU32Prefixed(r: Stream, w: Stream) returns (res: Result<nat>)
    requires r != w
    modifies r, w
    ensures match Unprefixed(old(r.data))
            case Some((b, rest)) => res == Ok(|b|) && r.data == rest && w.data == old(w.data) + b
            case None => res == Err(UnexpectedEof) && r.data == []
  {
    ghost var data := r.data;
    var l := r.ReadExact(4);
    if l.Err? { return Err(UnexpectedEof); }
    assert data[0..4] == data[..4] == l.value;
    assert l.value[0..4] == l.value;
    var n := U32Be(l.value, 0);
    var copied := if |r.data| < n then |r.data| else n;
    var body := r.ReadExact(copied);
    w.WriteAll(body.value);
    if copied != n { return Err(UnexpectedEof); }
    assert data[4..][..n] == data[4..4 + n];
    assert data[4..][n..] == data[4 + n..];
    res := Ok(copied);
  }

  // ── Requests ──

  function RequestHeader(op: Op, json: Bytes): Bytes {
    MAGIC + [VERSION, op.ToByte()] + Prefixed(json)
  }

  method WriteRequestHeader(w: Stream, op: Op, json: Bytes)
    modifies w
    ensures w.data == old(w.data) + RequestHeader(op, json)
  {
    w.WriteAll(MAGIC);
    w.WriteAll([VERSION, op.ToByte()]);
    WriteU32Prefixed(w, json);
    assert old(w.data) + MAGIC + [VERSION, op.ToByte()] + Prefixed(json) == old(w.data) + RequestHeader(op, json);
  }

  /** The header a stream starts with, or why it has none. */
  function ParseRequestHeader(data: Bytes): Result<(Op, Bytes, Bytes)> {
    if |data| < 4 then Err(UnexpectedEof)
    else if data[..4] != MAGIC then Err(InvalidData)
    else if |data| < 6 then Err(UnexpectedEof)
    else if data[4] != VERSION || OpFromByte(data[5]).None? then Err(InvalidData)
    else match Unprefixed(data[6..])
      case None => Err(UnexpectedEof)
      case Some((json, rest)) => Ok((OpFromByte(data[5]).value, json, rest))
  }

  method ReadRequestHeader(r: Stream) returns (res: Result<(Op, Bytes)>)
    modifies r
    ensures match ParseRequestHeader(old(r.data))
            case Ok((op, json, rest)) => res == Ok((op, json)) && r.data == rest
            case Err(e) => res == Err(e)
  {
    ghost var data := r.data;
    var m := r.ReadExact(4);
    if m.Err? { return Err(m.error); }
    if m.value != MAGIC { return Err(InvalidData); }
    var vo := r.ReadExact(2);
    if vo.Err? { return Err(vo.error); }
    assert vo.value[0] == data[4] && vo.value[1] == data[5];
    if vo.value[0] != VERSION { return Err(InvalidData); }
    var op := OpFromByte(vo.value[1]);
    if op.None? { return Err(InvalidData); }
    assert data[4..][2..] == data[6..];
    var json := ReadU32Prefixed(r);
    if json.Err? { return Err(json.error); }
    res := Ok((op.value, json.value));
  }

  lemma HeaderParses(op: Op, json: Bytes, after: Bytes)
    ensures ParseRequestHeader(RequestHeader(op, json) + after) ==
            match Unprefixed(Prefixed(json) + after)
            case None => Err(UnexpectedEof)
            case Some((j, rest)) => Ok((op, j, rest))
  {
    var data := RequestHeader(op, json) + after;
    assert data[..4] == MAGIC && data[4] == VERSION && data[5] == op.ToByte();
    assert data[6..] == Prefixed(json) + after;
  }

  /**
   A header is read exactly from a stream that begins with one as it is written. A stream is
   refused when its first four bytes are there and are not the magic, or when they are and
   the next two are not version 1 and an operation, 1 for full and 2 for delta. What is
   neither is too short.
   */
  lemma HeaderIff(data: Bytes, op: Op, json: Bytes, rest: Bytes)
    ensures ParseRequestHeader(data) == Ok((op, json, rest)) <==>
            data == RequestHeader(op, json) + rest && |json| < U32_LIMIT
    ensures ParseRequestHeader(data) == Ok((op, json, rest)) ==> data[5] == if op == Full then 1 else 2
    ensures ParseRequestHeader(data) == Err(InvalidData) <==>
            |data| >= 4 &&
            if data[..4] != [70, 68, 66, 73] then true
            else |data| >= 6 && (data[4] != 1 || (data[5] != 1 && data[5] != 2))
  {
    hide Unprefixed;
    if data == RequestHeader(op, json) + rest {
      HeaderParses(op, json, rest);
      PrefixedRoundTrip(json, rest);
    }
    if ParseRequestHeader(data) == Ok((op, json, rest)) {
      UnprefixedIff(data[6..], json, rest);
      assert data == (data[..4] + [data[4], data[5]]) + data[6..];
    }
  }

  /** A delta request: header, then the upsert body and the delete body. */
  function DeltaRequest(json: Bytes, upserts: Bytes, deletes: Bytes, after: Bytes): Bytes {
    RequestHeader(Delta, json) + (Prefixed(upserts) + (Prefixed(deletes) + after))
  }

  datatype DeltaReceived = DeltaReceived(op: Op, json: Bytes, upserts: Bytes, deletes: Bytes, after: Bytes)

  /** The gateway's reads of a delta request, in order; both bodies are drained, whatever the counts say. */
  function ReceiveDelta(data: Bytes): Result<DeltaReceived> {
    match ParseRequestHeader(data)
    case Err(e) => Err(e)
    case Ok((op, json, body)) =>
      match Unprefixed(body)
      case None => Err(UnexpectedEof)
      case Some((upserts, body2)) =>
        match Unprefixed(body2)
        case None => Err(UnexpectedEof)
        case Some((deletes, after)) => Ok(DeltaReceived(op, json, upserts, deletes, after))
  }

  /**
   A delta request is received as it was sent, with the connection left right after the
   delete body, exactly when all three lengths fit 32 bits.
   */
  lemma DeltaRequestRoundTrip(json: Bytes, upserts: Bytes, deletes: Bytes, after: Bytes)
    ensures |json| < U32_LIMIT && |upserts| < U32_LIMIT && |deletes| < U32_LIMIT <==>
            ReceiveDelta(DeltaRequest(json, upserts, deletes, after)) ==
            Ok(DeltaReceived(Delta, json, upserts, deletes, after))
  {
    var body2 := Prefixed(deletes) + after;
    var body := Prefixed(upserts) + body2;
    HeaderParses(Delta, json, body);
    PrefixedRoundTrip(json, body);
    PrefixedRoundTrip(upserts, body2);
    PrefixedRoundTrip(deletes, after);
    BlobFits(Prefixed(json) + body);
    if |json| < U32_LIMIT {
      BlobFits(body);
      if |upserts| < U32_LIMIT { BlobFits(body2); }
    }
  }

  lemma BlobFits(data: Bytes)
    ensures Unprefixed(data).Some? ==> |Unprefixed(data).value.0| < U32_LIMIT
  {
  }

  // ── The chunk writer ──

  /** What one `write` puts on the wire: nothing for an empty buffer, else a frame. */
  function Frame(b: Bytes): Bytes {
    if b == [] then [] else Prefixed(b)
  }

  function Frames(writes: seq<Bytes>): Bytes {
    if writes == [] then [] else Frame(writes[0]) + Frames(writes[1..])
  }

  function Payload(writes: seq<Bytes>): Bytes {
    if writes == [] then [] else writes[0] + Payload(writes[1..])
  }

  const TERMINATOR: Bytes := Be32(0)

  lemma {:induction false} FramesAppend(writes: seq<Bytes>, b: Bytes)
    ensures Frames(writes + [b]) == Frames(writes) + Frame(b)
  {
    hide Frame;
    if writes == [] {
      assert (writes + [b])[1..] == [];
    } else {
      FramesAppend(writes[1..], b);
      assert (writes + [b])[1..] == writes[1..] + [b];
    }
  }

  class ChunkWriter {
    var inner: Bytes
    var written: nat
    ghost var writes: seq<Bytes>

    /** The inner stream holds one frame for each write so far, and `written` is their size. */
    ghost predicate Valid()
      reads this
    {
      inner == Frames(writes) && written == |inner|
    }

    constructor ()
      ensures Valid() && writes == []
    {
      inner, written, writes := [], 0, [];
    }

    method Write(buf: Bytes) returns (n: nat)
      requires Valid()
      modifies this
      ensures Valid() && writes == old(writes) + [buf] && n == |buf|
    {
      FramesAppend(writes, buf);
      ghost var before := inner;
      assert before + [] == before;
      writes := writes + [buf];
      if buf == [] { return 0; }
      inner := inner + Be32(|buf|);
      inner := inner + buf;
      ConcatAssociates(before, Be32(|buf|), buf);
      written := written + (4 + |buf|);
      n := |buf|;
    }

    method BytesWritten() returns (n: nat)
      requires Valid()
      ensures n == |Frames(writes)|
    {
      n := written;
    }

    method Finish() returns (stream: Bytes)
      requires Valid()
      modifies this
      ensures stream == Frames(old(writes)) + TERMINATOR
    {
      inner := inner + Be32(0);
      stream := inner;
    }
  }

  // ── The chunk reader ──

  datatype ReaderState = ReaderState(rest: Bytes, remaining: nat, done: bool)

  datatype Reply = Data(bytes: Bytes) | Eof

  /** How many bytes the inner stream hands over: any count from 1 to what is asked and there. */
  function Granted(want: nat, there: nat, grant: nat): (k: nat)
    ensures k <= want && k <= there && (k == 0 <==> want == 0 || there == 0)
  {
    var most := if want < there then want else there;
    if most == 0 then 0 else if grant < most then 1 + grant else most
  }

  /** One `read` into a buffer of `len` bytes. */
  function Step(s: ReaderState, len: nat, grant: nat): (ReaderState, Reply) {
    if s.done then (s, Data([]))
    else if s.remaining > 0 then TakeChunk(s, len, grant)
    else if |s.rest| < 4 then (ReaderState([], 0, false), Eof)
    else
      var n := U32Be(s.rest, 0);
      if n == 0 then (ReaderState(s.rest[4..], 0, true), Data([]))
      else TakeChunk(ReaderState(s.rest[4..], n, false), len, grant)
  }

  function TakeChunk(s: ReaderState, len: nat, grant: nat): (ReaderState, Reply) {
    var to := if s.remaining < len then s.remaining else len;
    var got := Granted(to, |s.rest|, grant);
    if got == 0 then (s, Eof)
    else (ReaderState(s.rest[got..], s.remaining - got, false), Data(s.rest[..got]))
  }

  class ChunkReader {
    var inner: Bytes
    var remaining: nat
    var done: bool

    constructor (inner: Bytes)
      ensures State() == ReaderState(inner, 0, false)
    {
      this.inner, remaining, done := inner, 0, false;
    }

    function State(): ReaderState
      reads this
    {
      ReaderState(inner, remaining, done)
    }

    method Read(buf: array<Byte>, grant: nat) returns (r: Result<nat>)
      modifies this, buf
      ensures State() == Step(old(State()), buf.Length, grant).0
      ensures match Step(old(State()), buf.Length, grant).1
              case Data(bytes) => r == Ok(|bytes|) && |bytes| <= buf.Length && buf[..|bytes|] == bytes
              case Eof => r == Err(UnexpectedEof)
    {
      if done { return Ok(0); }
      if remaining == 0 {
        if |inner| < 4 {
          inner := [];
          return Err(UnexpectedEof);
        }
        var n := U32Be(inner, 0);
        inner := inner[4..];
        if n == 0 {
          done := true;
          return Ok(0);
        }
        remaining := n;
      }
      var to := if remaining < buf.Length then remaining else buf.Length;
      var got := Granted(to, |inner|, grant);
      if got == 0 { return Err(UnexpectedEof); }
      forall k | 0 <= k < got {
        buf[k] := inner[k];
      }
      assert buf[..got] == inner[..got];
      inner := inner[got..];
      remaining := remaining - got;
      r := Ok(got);
    }
  }

  // ── What a reader state still has to deliver ──

  /** The payload up to the terminator and the bytes after it, if the terminator is there. */
  ghost function Pending(rest: Bytes, remaining: nat): Option<(Bytes, Bytes)>
    decreases |rest|
  {
    if remaining > 0 then
      if |rest| < remaining then None else
      match Pending(rest[remaining..], 0)
      case None => None
      case Some((payload, tail)) => Some((rest[..remaining] + payload, tail))
    else if |rest| < 4 then None
    else
      var n := U32Be(rest, 0);
      if n == 0 then Some(([], rest[4..])) else Pending(rest[4..], n)
  }

  /** Taking a few bytes of the current chunk takes them off the pending payload. */
  lemma PendingTaken(rest: Bytes, remaining: nat, k: nat)
    requires 0 < k <= remaining && k <= |rest|
    ensures match Pending(rest, remaining)
            case None => Pending(rest[k..], remaining - k) == None
            case Some((payload, tail)) =>
              k <= |payload| && payload[..k] == rest[..k] &&
              Pending(rest[k..], remaining - k) == Some((payload[k..], tail))
  {
    if |rest| >= remaining {
      var after := rest[remaining..];
      assert rest[k..][remaining - k..] == after;
      if Pending(after, 0).Some? {
        var more := Pending(after, 0).value.0;
        var payload := rest[..remaining] + more;
        assert payload[k..] == rest[k..][..remaining - k] + more;
        assert k == remaining ==> payload[k..] == more;
      }
    }
  }

  /** One read into a non-empty buffer delivers the next bytes, or ends exactly at the terminator. */
  lemma StepDelivers(s: ReaderState, len: nat, grant: nat)
    requires !s.done && len > 0
    ensures var (s', reply) := Step(s, len, grant);
            match Pending(s.rest, s.remaining)
            case Some((payload, tail)) =>
              reply.Data? && reply.bytes <= payload &&
              (if s'.done then payload == [] && reply.bytes == [] && s'.rest == tail
               else reply.bytes != [] && Pending(s'.rest, s'.remaining) == Some((payload[|reply.bytes|..], tail)))
            case None =>
              !s'.done && (reply.Eof? || (reply.bytes != [] && Pending(s'.rest, s'.remaining) == None &&
                                          |s'.rest| < |s.rest|))
  {
    if s.remaining > 0 {
      TakeDelivers(s, len, grant);
    } else if |s.rest| >= 4 && U32Be(s.rest, 0) > 0 {
      TakeDelivers(ReaderState(s.rest[4..], U32Be(s.rest, 0), false), len, grant);
    }
  }

  lemma TakeDelivers(s: ReaderState, len: nat, grant: nat)
    requires !s.done && len > 0 && s.remaining > 0
    ensures var (s', reply) := TakeChunk(s, len, grant);
            !s'.done &&
            match Pending(s.rest, s.remaining)
            case Some((payload, tail)) =>
              reply.Data? && reply.bytes != [] && reply.bytes <= payload &&
              Pending(s'.rest, s'.remaining) == Some((payload[|reply.bytes|..], tail))
            case None =>
              reply.Eof? || (reply.bytes != [] && Pending(s'.rest, s'.remaining) == None && |s'.rest| < |s.rest|)
  {
    var to := if s.remaining < len then s.remaining else len;
    var got := Granted(to, |s.rest|, grant);
    if got > 0 {
      PendingTaken(s.rest, s.remaining, got);
    }
  }

  // ── Whole runs ──

  /** A schedule of reads: buffer sizes, and how much the inner stream grants each time. */
  type Schedule = seq<(nat, nat)>

  /** Reads until the schedule ends, the reader is done, or a read fails. */
  function ReadRun(s: ReaderState, schedule: Schedule): (ReaderState, Bytes, bool)
    decreases |schedule|
  {
    if schedule == [] || s.done then (s, [], false)
    else
      var (s', reply) := Step(s, schedule[0].0, schedule[0].1);
      match reply
      case Eof => (s', [], true)
      case Data(bytes) =>
        var (last, more, failed) := ReadRun(s', schedule[1..]);
        (last, bytes + more, failed)
  }

  ghost predicate NonEmptyBuffers(schedule: Schedule) {
    forall i :: 0 <= i < |schedule| ==> schedule[i].0 > 0
  }

  /** From a state with a terminator ahead, every schedule reads the payload, in order, and nothing else. */
  lemma {:induction false} RunDelivers(s: ReaderState, schedule: Schedule, payload: Bytes, tail: Bytes)
    requires !s.done && Pending(s.rest, s.remaining) == Some((payload, tail)) && NonEmptyBuffers(schedule)
    ensures var (last, bytes, failed) := ReadRun(s, schedule);
            !failed && bytes <= payload &&
            (last.done ==> bytes == payload && last.rest == tail) &&
            (|schedule| > |payload| ==> last.done)
    decreases |schedule|
  {
    if schedule != [] {
      StepDelivers(s, schedule[0].0, schedule[0].1);
      var (s', reply) := Step(s, schedule[0].0, schedule[0].1);
      if !s'.done {
        var k := |reply.bytes|;
        RunDelivers(s', schedule[1..], payload[k..], tail);
        assert payload == payload[..k] + payload[k..];
      }
    }
  }

  /** Without a terminator ahead, no schedule ever ends; enough reads fail. */
  lemma {:induction false} RunFails(s: ReaderState, schedule: Schedule)
    requires !s.done && Pending(s.rest, s.remaining) == None && NonEmptyBuffers(schedule)
    ensures var (last, bytes, failed) := ReadRun(s, schedule);
            !last.done && (|schedule| > |s.rest| ==> failed)
    decreases |schedule|
  {
    if schedule != [] {
      StepDelivers(s, schedule[0].0, schedule[0].1);
      var (s', reply) := Step(s, schedule[0].0, schedule[0].1);
      if reply.Data? {
        RunFails(s', schedule[1..]);
      }
    }
  }

  ghost predicate ChunksFit(writes: seq<Bytes>) {
    forall i :: 0 <= i < |writes| ==> |writes[i]| < U32_LIMIT
  }

  /** A terminated chunk stream and what follows it. */
  ghost function Terminated(writes: seq<Bytes>, tail: Bytes): Bytes {
    if writes == [] then TERMINATOR + tail else Frame(writes[0]) + Terminated(writes[1..], tail)
  }

  lemma {:induction false} TerminatedFrames(writes: seq<Bytes>, tail: Bytes)
    ensures Terminated(writes, tail) == Frames(writes) + (TERMINATOR + tail)
  {
    if writes == [] {
      assert [] + (TERMINATOR + tail) == TERMINATOR + tail;
    } else {
      TerminatedFrames(writes[1..], tail);
      ConcatAssociates(Frame(writes[0]), Frames(writes[1..]), TERMINATOR + tail);
    }
  }

  lemma {:induction false} PendingOfFrames(writes: seq<Bytes>, tail: Bytes)
    requires ChunksFit(writes)
    ensures Pending(Terminated(writes, tail), 0) == Some((Payload(writes), tail))
  {
    if writes == [] {
      ConcatSplits(TERMINATOR, tail);
      var rest := TERMINATOR + tail;
      assert rest[0..4] == rest[..4];
      Be32At(rest, 0, 0);
    } else {
      var b, after := writes[0], Terminated(writes[1..], tail);
      PendingOfFrames(writes[1..], tail);
      if b == [] {
        assert [] + after == after;
        assert [] + Payload(writes[1..]) == Payload(writes[1..]);
      } else {
        PendingOfFrame(b, after);
      }
    }
  }

  lemma PendingOfFrame(b: Bytes, after: Bytes)
    requires 0 < |b| < U32_LIMIT
    ensures Pending(Prefixed(b) + after, 0) ==
            match Pending(after, 0)
            case None => None
            case Some((payload, tail)) => Some((b + payload, tail))
  {
    PrefixReads(b, after);
    ConcatSplits(b, after);
  }

  /** More bytes after a stream that already ends only lengthen what follows it. */
  lemma {:induction false} PendingExtends(rest: Bytes, remaining: nat, more: Bytes)
    requires Pending(rest, remaining).Some?
    ensures var (payload, tail) := Pending(rest, remaining).value;
            Pending(rest + more, remaining) == Some((payload, tail + more))
    decreases |rest|
  {
    if remaining > 0 {
      PendingExtends(rest[remaining..], 0, more);
      assert (rest + more)[remaining..] == rest[remaining..] + more;
      assert (rest + more)[..remaining] == rest[..remaining];
    } else {
      assert (rest + more)[0..4] == rest[0..4];
      assert (rest + more)[4..] == rest[4..] + more;
      if U32Be(rest, 0) != 0 {
        PendingExtends(rest[4..], U32Be(rest, 0), more);
      }
    }
  }

  /**
   Chunked stream inversion: whatever was written is read back by every schedule of
   non-empty buffers and short inner reads, and the reader stops right after the terminator.
   */
  lemma ChunkedRoundTrip(writes: seq<Bytes>, tail: Bytes, schedule: Schedule)
    requires ChunksFit(writes) && NonEmptyBuffers(schedule)
    ensures var stream := Frames(writes) + (TERMINATOR + tail);
            var (last, bytes, failed) := ReadRun(ReaderState(stream, 0, false), schedule);
            !failed && bytes <= Payload(writes) &&
            (last.done ==> bytes == Payload(writes) && last.rest == tail) &&
            (|schedule| > |Payload(writes)| ==> last.done)
  {
    TerminatedFrames(writes, tail);
    PendingOfFrames(writes, tail);
    RunDelivers(ReaderState(Terminated(writes, tail), 0, false), schedule, Payload(writes), tail);
  }

  /** A stream cut anywhere is never reported done, and enough reads report the cut. */
  lemma TruncationDetected(writes: seq<Bytes>, k: nat, schedule: Schedule)
    requires ChunksFit(writes) && NonEmptyBuffers(schedule) && k < |Frames(writes) + TERMINATOR|
    ensures var cut := (Frames(writes) + TERMINATOR)[..k];
            var (last, bytes, failed) := ReadRun(ReaderState(cut, 0, false), schedule);
            !last.done && (|schedule| > k ==> failed)
  {
    var stream := Frames(writes) + TERMINATOR;
    var cut := stream[..k];
    assert TERMINATOR + [] == TERMINATOR;
    TerminatedFrames(writes, []);
    PendingOfFrames(writes, []);
    CutIsPending(stream, k, Payload(writes));
    RunFails(ReaderState(cut, 0, false), schedule);
  }

  lemma CutIsPending(stream: Bytes, k: nat, payload: Bytes)
    requires k < |stream| && Pending(stream, 0) == Some((payload, []))
    ensures Pending(stream[..k], 0) == None
  {
    var cut, more := stream[..k], stream[k..];
    assert cut + more == stream && more != [];
    if Pending(cut, 0).Some? {
      PendingExtends(cut, 0, more);
    }
  }

  lemma {:induction false} PendingSizes(rest: Bytes, remaining: nat)
    requires Pending(rest, remaining).Some?
    ensures var (payload, tail) := Pending(rest, remaining).value;
            remaining <= |payload| && |payload| + |tail| + 4 <= |rest| &&
            (|payload| > remaining ==> |payload| + |tail| + 8 <= |rest|)
    decreases |rest|
  {
    if remaining > 0 {
      PendingSizes(rest[remaining..], 0);
    } else if U32Be(rest, 0) != 0 {
      PendingSizes(rest[4..], U32Be(rest, 0));
    }
  }

  /** One written chunk survives the framing exactly when its length fits 32 bits. */
  lemma ChunkFitsExactly(b: Bytes)
    ensures Pending(Frame(b) + TERMINATOR, 0) == Some((b, [])) <==> |b| < U32_LIMIT
  {
    if |b| < U32_LIMIT {
      PendingOfFrames([], []);
      assert TERMINATOR + [] == TERMINATOR && b + [] == b;
      if b != [] { PendingOfFrame(b, TERMINATOR); } else { assert [] + TERMINATOR == TERMINATOR; }
    } else {
      PrefixReads(b, TERMINATOR);
      var rest := b + TERMINATOR;
      var n := |b| % U32_LIMIT;
      if n > 0 && Pending(rest, n) == Some((b, [])) {
        PendingSizes(rest, n);
      }
    }
  }

  /** The terminator is the next thing to be read. */
  predicate TerminatorNext(s: ReaderState) {
    s.remaining == 0 && |s.rest| >= 4 && U32Be(s.rest, 0) == 0
  }

  /** A read into an empty buffer fails exactly if the terminator is not next. */
  lemma EmptyBufferFails(s: ReaderState, grant: nat)
    requires !s.done
    ensures Step(s, 0, grant).1.Eof? <==> s.remaining > 0 || |s.rest| < 4 || U32Be(s.rest, 0) != 0
  {
  }

  /** The read fails that has an empty buffer while the terminator is not next. */
  ghost predicate StarvedAt(s: ReaderState, schedule: Schedule, i: nat)
    requires i < |schedule|
  {
    var (at, _, failed) := ReadRun(s, schedule[..i]);
    schedule[i].0 == 0 && !failed && !at.done && !TerminatorNext(at)
  }

  lemma StarvedLater(s: ReaderState, schedule: Schedule, i: nat)
    requires !s.done && 0 < i < |schedule|
    ensures var (s', reply) := Step(s, schedule[0].0, schedule[0].1);
            StarvedAt(s, schedule, i) <==> reply.Data? && !s'.done && StarvedAt(s', schedule[1..], i - 1)
  {
    hide Step, TerminatorNext;
    var first, rest := schedule[..i], schedule[1..];
    assert first[0] == schedule[0] && first[1..] == rest[..i - 1] && rest[i - 1] == schedule[i];
    var (s', reply) := Step(s, schedule[0].0, schedule[0].1);
    if reply.Data? {
      assert ReadRun(s, first).0 == ReadRun(s', rest[..i - 1]).0;
      assert ReadRun(s, first).2 == ReadRun(s', rest[..i - 1]).2;
      if s'.done { assert ReadRun(s', rest[..i - 1]).0 == s'; }
    }
  }

  /**
   Over a terminated stream a schedule fails if and only if it meets an empty buffer before
   the terminator is next.
   */
  lemma {:induction false} RunFailsIffStarved(s: ReaderState, schedule: Schedule)
    requires !s.done && Pending(s.rest, s.remaining).Some?
    ensures ReadRun(s, schedule).2 <==> exists i :: 0 <= i < |schedule| && StarvedAt(s, schedule, i)
    decreases |schedule|
  {
    hide Step, Pending, TerminatorNext;
    if schedule != [] {
      var rest := schedule[1..];
      var (s', reply) := Step(s, schedule[0].0, schedule[0].1);
      FirstRead(s, schedule);
      forall i | 0 < i < |schedule|
        ensures StarvedAt(s, schedule, i) <==> reply.Data? && !s'.done && StarvedAt(s', rest, i - 1)
      {
        StarvedLater(s, schedule, i);
      }
      if reply.Data? && !s'.done {
        RunFailsIffStarved(s', rest);
        if i :| 0 <= i < |rest| && StarvedAt(s', rest, i) { StarvedLater(s, schedule, i + 1); }
      }
    }
  }

  /** The first read fails if and only if its buffer is empty and the terminator is not next. */
  lemma FirstRead(s: ReaderState, schedule: Schedule)
    requires !s.done && Pending(s.rest, s.remaining).Some? && schedule != []
    ensures var (s', reply) := Step(s, schedule[0].0, schedule[0].1);
            (reply.Eof? <==> StarvedAt(s, schedule, 0)) &&
            (reply.Data? && !s'.done ==> Pending(s'.rest, s'.remaining).Some?)
  {
    var (len, grant) := schedule[0];
    assert schedule[..0] == [];
    if len > 0 { StepDelivers(s, len, grant); } else { EmptyBufferFails(s, grant); }
  }
}
