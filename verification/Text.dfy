/** Windows-1252 text to UTF-8, and the strict UTF-8 decoder of RFC 3629 it is judged by. */
module Text {
  import opened Bytes

  // ── UTF-8, sections 3 and 4 of RFC 3629 ──

  predicate Tail(b: int) {
    0x80 <= b < 0xC0
  }

  /** The code point at offset `i` and its length, in the shortest form only and without surrogates. */
  function CodePointAt(b: Bytes, i: nat): Option<(nat, nat)>
    requires i < |b|
  {
    var b0 := b[i] as int;
    var b1 := if i + 1 < |b| then b[i + 1] as int else 0;
    var b2 := if i + 2 < |b| then b[i + 2] as int else 0;
    var b3 := if i + 3 < |b| then b[i + 3] as int else 0;
    if b0 < 0x80 then Some((b0, 1))
    else if 0xC2 <= b0 < 0xE0 && Tail(b1) then Some(((b0 - 0xC0) * 0x40 + (b1 - 0x80), 2))
    else if 0xE0 <= b0 < 0xF0 && Tail(b1) && Tail(b2) && (b0 == 0xE0 ==> b1 >= 0xA0) && (b0 == 0xED ==> b1 < 0xA0) then
      Some(((b0 - 0xE0) * 0x1000 + (b1 - 0x80) * 0x40 + (b2 - 0x80), 3))
    else if 0xF0 <= b0 < 0xF5 && Tail(b1) && Tail(b2) && Tail(b3) && (b0 == 0xF0 ==> b1 >= 0x90) &&
      (b0 == 0xF4 ==> b1 < 0x90) then
      Some(((b0 - 0xF0) * 0x4_0000 + (b1 - 0x80) * 0x1000 + (b2 - 0x80) * 0x40 + (b3 - 0x80), 4))
    else None
  }

  /** The code points from offset `i` on, if the bytes are well-formed UTF-8. */
  function CodePoints(b: Bytes, i: nat): Option<seq<nat>>
    requires i <= |b|
    decreases |b| - i
  {
    if i == |b| then Some([]) else
    match CodePointAt(b, i)
    case None => None
    case Some((cp, n)) =>
      if i + n > |b| then None else
      match CodePoints(b, i + n)
      case None => None
      case Some(more) => Some([cp] + more)
  }

  predicate WellFormedUtf8(b: Bytes) {
    CodePoints(b, 0).Some?
  }

  // ── The transcoder ──

  const WIN1252_EXTRA: seq<nat> := [
    0x20AC, 0x0081, 0x201A, 0x0192, 0x201E, 0x2026, 0x2020, 0x2021,
    0x02C6, 0x2030, 0x0160, 0x2039, 0x0152, 0x008D, 0x017D, 0x008F,
    0x0090, 0x2018, 0x2019, 0x201C, 0x201D, 0x2022, 0x2013, 0x2014,
    0x02DC, 0x2122, 0x0161, 0x203A, 0x0153, 0x009D, 0x017E, 0x0178
  ]

  /** The code point of one Windows-1252 byte. */
  function CodePoint(b: Byte): nat {
    if 0x80 <= b < 0xA0 then WIN1252_EXTRA[b as int - 0x80] else b as int
  }

  lemma ExtraRange(k: nat)
    requires k < 32
    ensures 0x80 <= WIN1252_EXTRA[k] < 0x2123
  {
  }

  /** The bytes pushed for one code point above ASCII; the shifts and masks are disjoint bit fields. */
  function Pushed(cp: nat): Bytes
    requires cp < 0x1_0000
  {
    if cp < 0x800 then [(0xC0 + cp / 0x40) as Byte, (0x80 + cp % 0x40) as Byte]
    else [(0xE0 + cp / 0x1000) as Byte, (0x80 + cp / 0x40 % 0x40) as Byte, (0x80 + cp % 0x40) as Byte]
  }

  /** The UTF-8 form of one byte; nothing for NUL. */
  function Encoded1(b: Byte): (r: Bytes)
    ensures |r| <= 3
  {
    if b == 0 then []
    else if b < 0x80 then [b]
    else
      assert b < 0xA0 ==> CodePoint(b) < 0x1_0000 by { if b < 0xA0 { ExtraRange(b as int - 0x80); } }
      Pushed(CodePoint(b))
  }

  function Encoded(bytes: Bytes): Bytes {
    if bytes == [] then [] else Encoded1(bytes[0]) + Encoded(bytes[1..])
  }

  lemma {:induction false} EncodedAppend(a: Bytes, b: Bytes)
    ensures Encoded(a + b) == Encoded(a) + Encoded(b)
  {
    if a == [] {
      assert a + b == b;
    } else {
      EncodedAppend(a[1..], b);
      assert (a + b)[1..] == a[1..] + b && (a + b)[0] == a[0];
      ConcatAssociates(Encoded1(a[0]), Encoded(a[1..]), Encoded(b));
    }
  }

  predicate Clean(b: Byte) {
    0 < b < 0x80
  }

  /** A run of ASCII without NUL is its own UTF-8 form. */
  lemma {:induction false} EncodedAscii(run: Bytes)
    requires forall k :: 0 <= k < |run| ==> Clean(run[k])
    ensures Encoded(run) == run
  {
    if run != [] {
      EncodedAscii(run[1..]);
      assert run == [run[0]] + run[1..];
    }
  }

  /** What the loop has pushed for the first `i` bytes, extended by the bytes up to `j`. */
  lemma EncodedUpTo(bytes: Bytes, i: nat, j: nat)
    requires i <= j <= |bytes|
    ensures Encoded(bytes[..j]) == Encoded(bytes[..i]) + Encoded(bytes[i..j])
  {
    assert bytes[..j] == bytes[..i] + bytes[i..j];
    EncodedAppend(bytes[..i], bytes[i..j]);
  }

  lemma EncodedNext(bytes: Bytes, i: nat)
    requires i < |bytes|
    ensures Encoded(bytes[..i + 1]) == Encoded(bytes[..i]) + Encoded1(bytes[i])
  {
    EncodedUpTo(bytes, i, i + 1);
    var one := bytes[i..i + 1];
    assert one == [bytes[i]] && one[1..] == [];
    assert Encoded(one) == Encoded1(bytes[i]) + [];
  }

  method CleanRunEnd(bytes: Bytes, start: nat) returns (i: nat)
    requires start <= |bytes|
    ensures start <= i <= |bytes| && (i < |bytes| ==> !Clean(bytes[i]))
    ensures Encoded(bytes[start..i]) == bytes[start..i]
    ensures start < |bytes| && Clean(bytes[start]) ==> start < i
  {
    i := start;
    while i < |bytes| && bytes[i] < 0x80 && bytes[i] != 0
      invariant start <= i <= |bytes|
      invariant forall k :: start <= k < i ==> Clean(bytes[k])
    {
      i := i + 1;
    }
    EncodedAscii(bytes[start..i]);
  }

  lemma HighByte(b: Byte)
    requires b >= 0x80
    ensures CodePoint(b) < 0x1_0000 && Encoded1(b) == Pushed(CodePoint(b))
  {
    hide Pushed;
    if b < 0xA0 { ExtraRange(b as int - 0x80); }
  }

  method Win1252ToUtf8(bytes: Bytes) returns (out: Bytes)
    ensures out == Encoded(bytes)
  {
    hide Encoded, Pushed, CodePoint;
    var split := CleanRunEnd(bytes, 0);
    assert bytes[0..split] == bytes[..split];
    if split == |bytes| {
      assert bytes[..split] == bytes;
      return bytes;
    }
    out := bytes[..split];
    var i := split;
    while i < |bytes|
      invariant i <= |bytes| && out == Encoded(bytes[..i])
    {
      var b := bytes[i];
      if b == 0 {
        EncodedNext(bytes, i);
        assert out + [] == out;
        i := i + 1;
      } else if b < 0x80 {
        var start := i;
        i := CleanRunEnd(bytes, start);
        EncodedUpTo(bytes, start, i);
        out := out + bytes[start..i];
      } else {
        EncodedNext(bytes, i);
        HighByte(b);
        var cp := CodePoint(b);
        out := out + Pushed(cp);
        i := i + 1;
      }
    }
    assert bytes[..i] == bytes;
  }

  // ── What the result means ──

  function NonNul(bytes: Bytes): Bytes {
    if bytes == [] then []
    else if bytes[0] == 0 then NonNul(bytes[1..])
    else [bytes[0]] + NonNul(bytes[1..])
  }

  function Image(bytes: Bytes): seq<nat> {
    if bytes == [] then [] else [CodePoint(bytes[0])] + Image(bytes[1..])
  }

  lemma TwoBytesDecode(out: Bytes, i: nat, cp: nat)
    requires 0x80 <= cp < 0x800 && i + 2 <= |out|
    requires out[i] as int == 0xC0 + cp / 0x40 && out[i + 1] as int == 0x80 + cp % 0x40
    ensures CodePointAt(out, i) == Some((cp, 2))
  {
    assert 2 <= cp / 0x40 < 0x20;
  }

  lemma ThreeBytesDecode(out: Bytes, i: nat, cp: nat)
    requires 0x800 <= cp < 0x2123 && i + 3 <= |out|
    requires out[i] as int == 0xE0 + cp / 0x1000 && out[i + 1] as int == 0x80 + cp / 0x40 % 0x40 &&
             out[i + 2] as int == 0x80 + cp % 0x40
    ensures CodePointAt(out, i) == Some((cp, 3))
  {
    var q := cp / 0x40;
    assert q / 0x40 == cp / 0x1000 && 0x20 <= q < 0x85;
    assert cp / 0x1000 <= 2;
    assert cp == cp / 0x1000 * 0x1000 + q % 0x40 * 0x40 + cp % 0x40;
  }

  lemma Encoded1Decodes(b: Byte, out: Bytes, i: nat)
    requires b != 0 && i + |Encoded1(b)| <= |out| && out[i..i + |Encoded1(b)|] == Encoded1(b)
    ensures i < |out| && CodePointAt(out, i) == Some((CodePoint(b), |Encoded1(b)|))
  {
    var e, cp := out[i..i + |Encoded1(b)|], CodePoint(b);
    if 0x80 <= b < 0xA0 { ExtraRange(b as int - 0x80); }
    assert out[i] == e[0];
    if b >= 0x80 {
      assert out[i + 1] == e[1];
      if cp < 0x800 {
        TwoBytesDecode(out, i, cp);
      } else {
        assert out[i + 2] == e[2];
        ThreeBytesDecode(out, i, cp);
      }
    }
  }

  lemma PartsInPlace(out: Bytes, i: nat, e: Bytes, rest: Bytes)
    requires i <= |out| && out[i..] == e + rest
    ensures i + |e| <= |out| && out[i..i + |e|] == e && out[i + |e|..] == rest
  {
    ConcatSplits(e, rest);
    assert out[i..i + |e|] == out[i..][..|e|];
    assert out[i + |e|..] == out[i..][|e|..];
  }

  /** The output is well-formed UTF-8 for the images of the non-NUL bytes, in order. */
  lemma {:induction false} TranscodeMeans(bytes: Bytes, out: Bytes, i: nat)
    requires i <= |out| && out[i..] == Encoded(bytes)
    ensures CodePoints(out, i) == Some(Image(NonNul(bytes)))
    decreases |bytes|
  {
    if bytes == [] {
      assert |out[i..]| == 0;
    } else {
      var b, e := bytes[0], Encoded1(bytes[0]);
      PartsInPlace(out, i, e, Encoded(bytes[1..]));
      TranscodeMeans(bytes[1..], out, i + |e|);
      if b != 0 {
        Encoded1Decodes(b, out, i);
        ImageOfCons(b, NonNul(bytes[1..]));
      }
    }
  }

  lemma ImageOfCons(b: Byte, rest: Bytes)
    ensures Image([b] + rest) == [CodePoint(b)] + Image(rest)
  {
    assert ([b] + rest)[1..] == rest;
  }

  lemma {:induction false} TranscodeAtMostTriples(bytes: Bytes)
    ensures |Encoded(bytes)| <= 3 * |bytes|
  {
    if bytes != [] { TranscodeAtMostTriples(bytes[1..]); }
  }

  /** The byte of a code point in the table's range. */
  function ExtraIndex(cp: nat): int {
    match cp
    case 0x20AC => 0 case 0x0081 => 1 case 0x201A => 2 case 0x0192 => 3
    case 0x201E => 4 case 0x2026 => 5 case 0x2020 => 6 case 0x2021 => 7
    case 0x02C6 => 8 case 0x2030 => 9 case 0x0160 => 10 case 0x2039 => 11
    case 0x0152 => 12 case 0x008D => 13 case 0x017D => 14 case 0x008F => 15
    case 0x0090 => 16 case 0x2018 => 17 case 0x2019 => 18 case 0x201C => 19
    case 0x201D => 20 case 0x2022 => 21 case 0x2013 => 22 case 0x2014 => 23
    case 0x02DC => 24 case 0x2122 => 25 case 0x0161 => 26 case 0x203A => 27
    case 0x0153 => 28 case 0x009D => 29 case 0x017E => 30 case 0x0178 => 31
    case _ => -1
  }

  lemma ExtraIndexInverts(k: nat)
    requires k < 32
    ensures ExtraIndex(WIN1252_EXTRA[k]) == k
  {
  }

  lemma CodePointInjective(a: Byte, b: Byte)
    requires CodePoint(a) == CodePoint(b)
    ensures a == b
  {
    if 0x80 <= a < 0xA0 { ExtraIndexInverts(a as int - 0x80); }
    if 0x80 <= b < 0xA0 { ExtraIndexInverts(b as int - 0x80); }
  }

  lemma {:induction false} ImageInjective(a: Bytes, b: Bytes)
    requires Image(a) == Image(b)
    ensures a == b
  {
    if a != [] && b != [] {
      assert Image(a)[0] == Image(b)[0] && Image(a)[1..] == Image(b)[1..];
      CodePointInjective(a[0], b[0]);
      assert Image(a)[1..] == Image(a[1..]) && Image(b)[1..] == Image(b[1..]);
      ImageInjective(a[1..], b[1..]);
      assert a == [a[0]] + a[1..] && b == [b[0]] + b[1..];
    }
  }

  lemma {:induction false} EncodedDropsNul(bytes: Bytes)
    ensures Encoded(bytes) == Encoded(NonNul(bytes))
  {
    if bytes != [] {
      EncodedDropsNul(bytes[1..]);
      var kept := NonNul(bytes[1..]);
      if bytes[0] == 0 {
        assert [] + Encoded(kept) == Encoded(kept);
      } else {
        assert ([bytes[0]] + kept)[1..] == kept;
      }
    }
  }

  /** Two texts transcode alike exactly when they agree up to NUL bytes; without NUL the map is injective. */
  lemma TranscodeInjective(a: Bytes, b: Bytes)
    ensures Encoded(a) == Encoded(b) <==> NonNul(a) == NonNul(b)
  {
    EncodedDropsNul(a);
    EncodedDropsNul(b);
    var out := Encoded(a);
    assert out[0..] == out;
    if Encoded(a) == Encoded(b) {
      TranscodeMeans(a, out, 0);
      TranscodeMeans(b, out, 0);
      ImageInjective(NonNul(a), NonNul(b));
    }
  }
}
