/**
 The SQZ run-length codec of Firebird records: a decoder loop, and the serialised run
 lists it accepts.
 */
module Sqz {
  import opened Bytes

  const MAX_RECORD_SIZE: nat := 256 * 1024

  /** One control byte and what follows it. The last three differ in how the count is stored. */
  datatype Run =
    | Copy(bytes: Bytes)
    | Short(count: nat, byte: Byte)
    | Medium(count: nat, byte: Byte)
    | Long(count: nat, byte: Byte)
  {
    predicate Valid() {
      match this
      case Copy(bytes) => |bytes| < 128
      case Short(count, _) => 3 <= count <= 128
      case Medium(count, _) => count < U16_LIMIT
      case Long(count, _) => count < U32_LIMIT
    }

    function Serial(): Bytes {
      match this
      case Copy(bytes) => [(|bytes| % 256) as Byte] + bytes
      case Short(count, byte) => [((256 - count) % 256) as Byte, byte]
      case Medium(count, byte) => [255] + ToLe(count, 2) + [byte]
      case Long(count, byte) => [254] + ToLe(count, 4) + [byte]
    }

    function Plain(): Bytes {
      match this
      case Copy(bytes) => bytes
      case _ => Repeat(count, byte)
    }
  }

  function Repeat(count: nat, byte: Byte): (b: Bytes)
    ensures |b| == count && forall i :: 0 <= i < count ==> b[i] == byte
  {
    seq(count, _ => byte)
  }

  ghost predicate AllValid(rs: seq<Run>) {
    rs == [] || (rs[0].Valid() && AllValid(rs[1..]))
  }

  ghost function Serialise(rs: seq<Run>): Bytes {
    if rs == [] then [] else rs[0].Serial() + Serialise(rs[1..])
  }

  ghost function Expand(rs: seq<Run>): Bytes {
    if rs == [] then [] else rs[0].Plain() + Expand(rs[1..])
  }

  lemma {:induction false} ExpandAppend(rs: seq<Run>, more: seq<Run>)
    ensures Expand(rs + more) == Expand(rs) + Expand(more)
  {
    if rs == [] {
      assert rs + more == more;
    } else {
      ExpandAppend(rs[1..], more);
      assert (rs + more)[1..] == rs[1..] + more && (rs + more)[0] == rs[0];
      ConcatAssociates(rs[0].Plain(), Expand(rs[1..]), Expand(more));
    }
  }

  lemma {:induction false} SerialiseAppend(rs: seq<Run>, more: seq<Run>)
    ensures Serialise(rs + more) == Serialise(rs) + Serialise(more)
    ensures AllValid(rs) && AllValid(more) ==> AllValid(rs + more)
  {
    hide Run.Serial, Run.Plain, Run.Valid;
    if rs == [] {
      assert rs + more == more;
    } else {
      SerialiseAppend(rs[1..], more);
      assert (rs + more)[1..] == rs[1..] + more && (rs + more)[0] == rs[0];
      ConcatAssociates(rs[0].Serial(), Serialise(rs[1..]), Serialise(more));
    }
  }

  // ── One run ──

  /** The run at offset `i`, and its length. */
  function RunAt(input: Bytes, i: nat): Option<(Run, nat)>
    requires i < |input|
  {
    var ctrl := Signed(input[i] as int, 256);
    if ctrl >= 0 then
      if i + 1 + ctrl > |input| then None else Some((Copy(input[i + 1..i + 1 + ctrl]), 1 + ctrl))
    else if ctrl == -1 then
      if i + 4 > |input| then None else Some((Medium(U16Le(input, i + 1), input[i + 3]), 4))
    else if ctrl == -2 then
      if i + 6 > |input| then None else Some((Long(U32Le(input, i + 1), input[i + 5]), 6))
    else
      if i + 2 > |input| then None else Some((Short(-ctrl, input[i + 1]), 2))
  }

  lemma RunOfSerial(input: Bytes, i: nat, r: Run)
    requires r.Valid() && i + |r.Serial()| <= |input| && input[i..i + |r.Serial()|] == r.Serial()
    ensures i < |input| && RunAt(input, i) == Some((r, |r.Serial()|))
  {
    hide ToLe, FromLe, Pow256;
    match r
    case Copy(bytes) =>
      CopyOfSerial(input, i, bytes);
    case Short(count, byte) =>
      ShortOfSerial(input, i, count, byte);
    case Medium(count, byte) =>
      PowerLimits();
      WordOfSerial(input, i, 255, count, 2, byte);
    case Long(count, byte) =>
      PowerLimits();
      WordOfSerial(input, i, 254, count, 4, byte);
  }

  lemma CopyOfSerial(input: Bytes, i: nat, bytes: Bytes)
    requires var r := Copy(bytes); r.Valid() && i + |r.Serial()| <= |input| && input[i..i + |r.Serial()|] == r.Serial()
    ensures i < |input| && RunAt(input, i) == Some((Copy(bytes), 1 + |bytes|))
  {
    var s := Copy(bytes).Serial();
    var there := input[i..i + |s|];
    assert input[i] == there[0] == s[0];
    assert input[i + 1..i + 1 + |bytes|] == there[1..] == bytes;
  }

  lemma ShortOfSerial(input: Bytes, i: nat, count: nat, byte: Byte)
    requires var r := Short(count, byte); r.Valid() && i + 2 <= |input| && input[i..i + 2] == r.Serial()
    ensures RunAt(input, i) == Some((Short(count, byte), 2))
  {
    var s := Short(count, byte).Serial();
    var there := input[i..i + 2];
    assert input[i] == there[0] == s[0];
    assert input[i + 1] == there[1] == s[1];
  }

  lemma WordOfSerial(input: Bytes, i: nat, ctrl: Byte, count: nat, k: nat, byte: Byte)
    requires i + k + 2 <= |input| && input[i..i + k + 2] == [ctrl] + ToLe(count, k) + [byte] && count < Pow256(k)
    ensures input[i] == ctrl && FromLe(input[i + 1..i + 1 + k]) == count && input[i + 1 + k] == byte
    ensures Pow256(2) == U16_LIMIT && Pow256(4) == U32_LIMIT
  {
    PowerLimits();
    var there := input[i..i + k + 2];
    assert input[i] == there[0] && input[i + 1 + k] == there[k + 1];
    var word := ToLe(count, k);
    assert ([ctrl] + word + [byte])[1..k + 1] == word;
    SubSlice(input, i, i + k + 2, 1, k + 1);
    LeRoundTrip(count, k);
  }

  lemma SerialOfRun(input: Bytes, i: nat)
    requires i < |input| && RunAt(input, i).Some?
    ensures var (r, n) := RunAt(input, i).value;
            r.Valid() && 1 <= n <= |input| - i && r.Serial() == input[i..i + n]
  {
    hide ToLe, FromLe, Pow256;
    var (r, n) := RunAt(input, i).value;
    match r
    case Copy(bytes) =>
      assert input[i..i + n] == [input[i]] + bytes;
    case Short(_, _) =>
      assert input[i..i + n] == [input[i], input[i + 1]];
    case Medium(_, _) =>
      PowerLimits();
      LeRestores(input[i + 1..i + 3]);
      Bracketed(input, i, 2);
    case Long(_, _) =>
      PowerLimits();
      LeRestores(input[i + 1..i + 5]);
      Bracketed(input, i, 4);
  }

  lemma Bracketed(input: Bytes, i: nat, k: nat)
    requires i + k + 2 <= |input|
    ensures input[i..i + k + 2] == [input[i]] + input[i + 1..i + 1 + k] + [input[i + k + 1]]
  {
  }

  // ── Decompression ──

  /** What the decoder makes of the input from offset `i`, `out` being there already. */
  function DecodeFrom(input: Bytes, i: nat, out: Bytes): Option<Bytes>
    requires i <= |input|
    decreases |input| - i
  {
    if i == |input| then Some(out) else
    match RunAt(input, i)
    case None => None
    case Some((r, n)) =>
      var next := out + r.Plain();
      if n == 0 || i + n > |input| || |next| > MAX_RECORD_SIZE then None else DecodeFrom(input, i + n, next)
  }

  function Capped(out: Bytes): Option<Bytes> {
    if |out| <= MAX_RECORD_SIZE then Some(out) else None
  }

  function Decompressed(input: Bytes): Option<Bytes> {
    DecodeFrom(input, 0, [])
  }

  /** `input` is the serialisation of `rs`, which expands to `out` within the size cap. */
  ghost predicate Encodes(rs: seq<Run>, input: Bytes, out: Bytes) {
    AllValid(rs) && Serialise(rs) == input && Expand(rs) == out && |out| <= MAX_RECORD_SIZE
  }

  lemma {:induction false} DecodeOfSerial(input: Bytes, i: nat, out: Bytes, rs: seq<Run>)
    requires i <= |input| && AllValid(rs) && Serialise(rs) == input[i..] && |out| <= MAX_RECORD_SIZE
    ensures DecodeFrom(input, i, out) == Capped(out + Expand(rs))
    decreases rs
  {
    hide RunAt, Run.Serial, Run.Plain, Run.Valid;
    if rs == [] {
      assert |input[i..]| == 0;
      assert out + [] == out;
    } else {
      SerialFront(input, i, rs);
      var n, plain, more := |rs[0].Serial()|, rs[0].Plain(), rs[1..];
      DecodeStep(input, i, out, rs[0], n);
      var next := out + plain;
      assert out + Expand(rs) == next + Expand(more) by {
        ConcatAssociates(out, plain, Expand(more));
      }
      if |next| <= MAX_RECORD_SIZE {
        DecodeOfSerial(input, i + n, next, more);
      }
    }
  }

  lemma DecodeRound(input: Bytes, i: nat, out: Bytes)
    requires i < |input|
    ensures match RunAt(input, i)
            case None => DecodeFrom(input, i, out) == None
            case Some((r, n)) =>
              0 < n <= |input| - i &&
              DecodeFrom(input, i, out) ==
              if |out + r.Plain()| > MAX_RECORD_SIZE then None else DecodeFrom(input, i + n, out + r.Plain())
  {
    hide RunAt;
    if RunAt(input, i).Some? { SerialOfRun(input, i); }
  }

  /** The bytes of a run's count, where its data begins and ends, and how many bytes it stands for. */
  function CountWidth(c: Byte): nat {
    if c == 255 then 2 else if c == 254 then 4 else 0
  }

  function DataEnd(input: Bytes, i: nat): nat
    requires i < |input|
  {
    i + 1 + CountWidth(input[i]) + if input[i] < 128 then input[i] as int else 1
  }

  function CountAt(input: Bytes, i: nat): nat
    requires i < |input| && DataEnd(input, i) <= |input|
  {
    var c := input[i];
    if c < 128 then c as int
    else if c == 255 then input[i + 1] as int + 256 * input[i + 2] as int
    else if c == 254 then U32Le(input, i + 1)
    else 256 - c as int
  }

  lemma RunMeans(input: Bytes, i: nat)
    requires i < |input|
    ensures RunAt(input, i).Some? <==> DataEnd(input, i) <= |input|
    ensures RunAt(input, i).Some? ==>
              var (r, n) := RunAt(input, i).value;
              var end := DataEnd(input, i);
              n == end - i &&
              r.Plain() == if input[i] < 128 then input[i + 1..end] else Repeat(CountAt(input, i), input[end - 1])
  {
    hide FromLe, Repeat, U32Le;
    if i + 3 <= |input| { LittleEndian(input, i + 1); }
  }

  /**
   What a control byte does: below 128 it copies as many bytes as it says; from 128 to 253 it
   repeats the next byte 256 minus it times; 255 and 254 repeat a byte as often as the two or
   four bytes before it say, lowest first. What is cut short or passes 262144 bytes fails.
   */
  lemma ControlByteMeans(input: Bytes, i: nat, out: Bytes)
    requires i < |input|
    ensures DecodeFrom(input, i, out) ==
              if DataEnd(input, i) > |input| || |out| + CountAt(input, i) > 262144 then None
              else
                var end := DataEnd(input, i);
                var plain := if input[i] < 128 then input[i + 1..end] else seq(CountAt(input, i), _ => input[end - 1]);
                DecodeFrom(input, end, out + plain)
  {
    hide RunAt, Run.Plain, CountAt;
    DecodeRound(input, i, out);
    RunMeans(input, i);
    if DataEnd(input, i) <= |input| {
      var count, byte := CountAt(input, i), input[DataEnd(input, i) - 1];
      CopiedCount(input, i);
      assert Repeat(count, byte) == seq(count, _ => byte);
    }
  }

  lemma CopiedCount(input: Bytes, i: nat)
    requires i < |input| && DataEnd(input, i) <= |input|
    ensures input[i] < 128 ==> CountAt(input, i) == input[i] as int && DataEnd(input, i) == i + 1 + input[i] as int
  {
  }

  lemma DecodeStep(input: Bytes, i: nat, out: Bytes, r: Run, n: nat)
    requires i < |input| && 0 < n <= |input| - i && RunAt(input, i) == Some((r, n))
    ensures DecodeFrom(input, i, out) ==
            if |out + r.Plain()| > MAX_RECORD_SIZE then None else DecodeFrom(input, i + n, out + r.Plain())
  {
    hide RunAt;
  }

  lemma SerialFront(input: Bytes, i: nat, rs: seq<Run>)
    requires i <= |input| && rs != [] && AllValid(rs) && Serialise(rs) == input[i..]
    ensures AllValid(rs[1..])
    ensures var n := |rs[0].Serial()|;
            0 < n <= |input| - i && RunAt(input, i) == Some((rs[0], n)) && Serialise(rs[1..]) == input[i + n..]
  {
    hide RunAt;
    var head, tail := rs[0].Serial(), Serialise(rs[1..]);
    FrontSplits(input, i, head, tail);
    RunOfSerial(input, i, rs[0]);
  }

  lemma FrontSplits(input: Bytes, i: nat, head: Bytes, tail: Bytes)
    requires i <= |input| && input[i..] == head + tail
    ensures i + |head| <= |input| && input[i..i + |head|] == head && input[i + |head|..] == tail
  {
    assert input[i..i + |head|] == input[i..][..|head|];
    assert input[i + |head|..] == input[i..][|head|..];
  }

  lemma SerialCons(input: Bytes, i: nat, n: nat, more: seq<Run>)
    requires AllValid(more) && i < |input| && RunAt(input, i).Some? && RunAt(input, i).value.1 == n
    requires i + n <= |input| && Serialise(more) == input[i + n..]
    ensures var r := RunAt(input, i).value.0;
            AllValid([r] + more) && Serialise([r] + more) == input[i..] &&
            Expand([r] + more) == r.Plain() + Expand(more)
  {
    hide RunAt, Run.Serial, Run.Plain, Run.Valid;
    var rs := [RunAt(input, i).value.0] + more;
    SerialOfRun(input, i);
    assert rs[1..] == more;
    assert input[i..] == input[i..i + n] + input[i + n..];
  }

  lemma {:induction false} SerialOfDecode(input: Bytes, i: nat, out: Bytes) returns (rs: seq<Run>)
    requires i <= |input| && DecodeFrom(input, i, out).Some? && |out| <= MAX_RECORD_SIZE
    ensures AllValid(rs) && Serialise(rs) == input[i..]
    ensures DecodeFrom(input, i, out) == Some(out + Expand(rs)) && |out + Expand(rs)| <= MAX_RECORD_SIZE
    decreases |input| - i
  {
    hide RunAt;
    if i == |input| {
      rs := [];
      assert out + [] == out;
    } else {
      DecodeRound(input, i, out);
      var (r, n) := RunAt(input, i).value;
      var plain := r.Plain();
      var more := SerialOfDecode(input, i + n, out + plain);
      rs := [r] + more;
      SerialCons(input, i, n, more);
      ConcatAssociates(out, plain, Expand(more));
    }
  }

  /** Decompression succeeds exactly on serialised run lists within the cap, with their expansion. */
  lemma DecompressExact(input: Bytes, out: Bytes)
    ensures Decompressed(input) == Some(out) <==> exists rs :: Encodes(rs, input, out)
  {
    assert input[0..] == input;
    if Decompressed(input) == Some(out) {
      var rs := SerialOfDecode(input, 0, []);
      assert [] + Expand(rs) == Expand(rs);
      assert Encodes(rs, input, out);
    }
    if rs :| Encodes(rs, input, out) {
      DecodeOfSerial(input, 0, [], rs);
      assert [] + Expand(rs) == Expand(rs);
    }
  }

  /** No input serialises two run lists. */
  lemma {:induction false} SerialUnique(rs: seq<Run>, others: seq<Run>)
    requires AllValid(rs) && AllValid(others) && Serialise(rs) == Serialise(others)
    ensures rs == others
  {
    hide RunAt;
    var input := Serialise(rs);
    assert input[0..] == input;
    if rs != [] {
      SerialFront(input, 0, rs);
      SerialFront(input, 0, others);
      SerialUnique(rs[1..], others[1..]);
      assert rs == [rs[0]] + rs[1..] && others == [others[0]] + others[1..];
    } else if others != [] {
      SerialFront(input, 0, others);
    }
  }

  /** One turn of the decoder's loop: the run at `i` appended to `out`, or a malformed input. */
  method TakeRun(input: Bytes, i: nat, out: Bytes) returns (ok: bool, next: nat, more: Bytes)
    requires i < |input| && |out| <= MAX_RECORD_SIZE
    ensures ok ==> i < next <= |input| && |more| <= MAX_RECORD_SIZE
    ensures ok ==> DecodeFrom(input, i, out) == DecodeFrom(input, next, more)
    ensures !ok ==> DecodeFrom(input, i, out) == None
  {
    hide DecodeFrom, Run.Serial, Run.Valid, FromLe;
    DecodeRound(input, i, out);
    more := out;
    var ctrl := Signed(input[i] as int, 256);
    next := i + 1;
    if ctrl >= 0 {
      if next + ctrl > |input| { return false, next, more; }
      more := more + input[next..next + ctrl];
      next := next + ctrl;
    } else {
      var count;
      if ctrl == -1 {
        if next + 2 > |input| { return false, next, more; }
        count := U16Le(input, next);
        next := next + 2;
      } else if ctrl == -2 {
        if next + 4 > |input| { return false, next, more; }
        count := U32Le(input, next);
        next := next + 4;
        if count > MAX_RECORD_SIZE { return false, next, more; }
      } else {
        count := -ctrl;
      }
      if next >= |input| { return false, next, more; }
      var byte := input[next];
      next := next + 1;
      if |more| + count > MAX_RECORD_SIZE { return false, next, more; }
      more := more + Repeat(count, byte);
    }
    ok := |more| <= MAX_RECORD_SIZE;
  }

  /** The loop; `out` is the caller's buffer, cleared. */
  method DecompressImpl(input: Bytes) returns (ok: bool, out: Bytes)
    ensures ok <==> Decompressed(input).Some?
    ensures ok ==> Decompressed(input) == Some(out)
  {
    out := [];
    var i := 0;
    while i < |input|
      invariant i <= |input| && |out| <= MAX_RECORD_SIZE
      invariant DecodeFrom(input, i, out) == Decompressed(input)
      decreases |input| - i
    {
      ok, i, out := TakeRun(input, i, out);
      if !ok { return; }
    }
    ok := true;
  }

  method Decompress(input: Bytes) returns (r: Option<Bytes>)
    ensures r == Decompressed(input)
  {
    var ok, out := DecompressImpl(input);
    r := if ok then Some(out) else None;
  }
}
