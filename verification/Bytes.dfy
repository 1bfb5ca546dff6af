/** Bytes, fixed-width integers in both byte orders, and flag words. */
module Bytes {
  import Arith

  newtype Byte = x: int | 0 <= x < 256
  type Bytes = seq<Byte>

  const U16_LIMIT: nat := 0x1_0000
  const U32_LIMIT: nat := 0x1_0000_0000
  const U64_LIMIT: nat := 0x1_0000_0000_0000_0000

  datatype Option<+T> = None | Some(value: T)

  lemma SubSlice<T>(s: seq<T>, i: nat, j: nat, a: nat, b: nat)
    requires i <= j <= |s| && a <= b <= j - i
    ensures s[i..j][a..b] == s[i + a..i + b]
  {
    var t := s[i..j];
    assert forall k :: 0 <= k < b - a ==> t[a..b][k] == t[a + k] == s[i + a + k] == s[i + a..i + b][k];
  }

  lemma ConcatAssociates<T>(a: seq<T>, b: seq<T>, c: seq<T>)
    ensures a + (b + c) == (a + b) + c
  {
  }

  lemma ConcatSplits<T>(a: seq<T>, b: seq<T>)
    ensures (a + b)[..|a|] == a && (a + b)[|a|..] == b
  {
  }

  /** `part` lies in `whole` at offset `i`. */
  predicate InPlace<T(==)>(whole: seq<T>, i: nat, part: seq<T>) {
    i + |part| <= |whole| && whole[i..i + |part|] == part
  }

  lemma InPlaceSplits<T>(whole: seq<T>, i: nat, a: seq<T>, b: seq<T>)
    requires InPlace(whole, i, a + b)
    ensures InPlace(whole, i, a) && InPlace(whole, i + |a|, b)
  {
    ConcatSplits(a, b);
    SubSlice(whole, i, i + |a + b|, 0, |a|);
    SubSlice(whole, i, i + |a + b|, |a|, |a + b|);
  }

  function Pow256(k: nat): (r: nat)
    ensures r > 0
  {
    if k == 0 then 1 else 256 * Pow256(k - 1)
  }

  lemma PowerLimits()
    ensures Pow256(1) == 0x100 && Pow256(2) == U16_LIMIT && Pow256(4) == U32_LIMIT && Pow256(8) == U64_LIMIT
  {
    assert Pow256(4) == U32_LIMIT;
    assert Pow256(6) == 0x1_0000_0000_0000;
  }

  // ── Little endian ──

  function ToLe(v: nat, k: nat): (b: Bytes)
    ensures |b| == k
  {
    if k == 0 then [] else [(v % 256) as Byte] + ToLe(v / 256, k - 1)
  }

  function FromLe(b: Bytes): (r: nat)
    ensures r < Pow256(|b|)
  {
    if b == [] then 0 else b[0] as int + 256 * FromLe(b[1..])
  }

  lemma {:induction false} LeRoundTrip(v: nat, k: nat)
    requires v < Pow256(k)
    ensures FromLe(ToLe(v, k)) == v
  {
    if k > 0 {
      LeRoundTrip(v / 256, k - 1);
      assert ToLe(v, k)[1..] == ToLe(v / 256, k - 1);
    }
  }

  lemma {:induction false} LeRestores(b: Bytes)
    ensures ToLe(FromLe(b), |b|) == b
  {
    if b != [] {
      LeRestores(b[1..]);
      assert FromLe(b) % 256 == b[0] as int && FromLe(b) / 256 == FromLe(b[1..]);
      assert b == [b[0]] + b[1..];
    }
  }

  // ── Big endian ──

  function ToBe(v: nat, k: nat): (b: Bytes)
    ensures |b| == k
  {
    if k == 0 then [] else ToBe(v / 256, k - 1) + [(v % 256) as Byte]
  }

  function FromBe(b: Bytes): (r: nat)
    ensures r < Pow256(|b|)
  {
    if b == [] then 0 else 256 * FromBe(b[..|b|-1]) + b[|b|-1] as int
  }

  lemma {:induction false} BeRoundTrip(v: nat, k: nat)
    requires v < Pow256(k)
    ensures FromBe(ToBe(v, k)) == v
  {
    if k > 0 {
      BeRoundTrip(v / 256, k - 1);
      assert ToBe(v, k)[..k-1] == ToBe(v / 256, k - 1);
    }
  }

  lemma {:induction false} BeRestores(b: Bytes)
    ensures ToBe(FromBe(b), |b|) == b
  {
    if b != [] {
      var n := |b| - 1;
      BeRestores(b[..n]);
      assert FromBe(b) % 256 == b[n] as int && FromBe(b) / 256 == FromBe(b[..n]);
      assert b == b[..n] + [b[n]];
    }
  }

  // ── Words; every writer keeps the low bits, as an `as u32` cast does ──

  function U16Le(b: Bytes, i: nat): (r: nat)
    requires i + 2 <= |b|
    ensures r < U16_LIMIT
  {
    PowerLimits();
    FromLe(b[i..i+2])
  }

  function U32Le(b: Bytes, i: nat): (r: nat)
    requires i + 4 <= |b|
    ensures r < U32_LIMIT
  {
    PowerLimits();
    FromLe(b[i..i+4])
  }

  function U64Le(b: Bytes, i: nat): (r: nat)
    requires i + 8 <= |b|
    ensures r < U64_LIMIT
  {
    PowerLimits();
    FromLe(b[i..i+8])
  }

  function U16Be(b: Bytes, i: nat): (r: nat)
    requires i + 2 <= |b|
    ensures r < U16_LIMIT
  {
    PowerLimits();
    FromBe(b[i..i+2])
  }

  function U32Be(b: Bytes, i: nat): (r: nat)
    requires i + 4 <= |b|
    ensures r < U32_LIMIT
  {
    PowerLimits();
    FromBe(b[i..i+4])
  }

  /** Two's complement reading of an unsigned word. */
  function Signed(v: nat, limit: nat): int {
    if 2 * v < limit then v else v - limit
  }

  function Le32(v: nat): (b: Bytes)
    ensures |b| == 4
  {
    ToLe(v % U32_LIMIT, 4)
  }

  function Le64(v: nat): (b: Bytes)
    ensures |b| == 8
  {
    ToLe(v % U64_LIMIT, 8)
  }

  function Be16(v: int): (b: Bytes)
    ensures |b| == 2
  {
    ToBe(v % U16_LIMIT, 2)
  }

  function Be32(v: int): (b: Bytes)
    ensures |b| == 4
  {
    ToBe(v % U32_LIMIT, 4)
  }

  function Be64(v: int): (b: Bytes)
    ensures |b| == 8
  {
    ToBe(v % U64_LIMIT, 8)
  }

  /** Writing a word keeps exactly its low bits, wherever it lands in a buffer. */
  lemma Le32At(b: Bytes, i: nat, v: nat)
    requires i + 4 <= |b| && b[i..i+4] == Le32(v)
    ensures U32Le(b, i) == v % U32_LIMIT
  {
    PowerLimits();
    LeRoundTrip(v % U32_LIMIT, 4);
  }

  lemma Le64At(b: Bytes, i: nat, v: nat)
    requires i + 8 <= |b| && b[i..i+8] == Le64(v)
    ensures U64Le(b, i) == v % U64_LIMIT
  {
    PowerLimits();
    LeRoundTrip(v % U64_LIMIT, 8);
  }

  lemma Be32At(b: Bytes, i: nat, v: int)
    requires i + 4 <= |b| && b[i..i+4] == Be32(v)
    ensures U32Be(b, i) == v % U32_LIMIT
  {
    PowerLimits();
    BeRoundTrip(v % U32_LIMIT, 4);
  }

  lemma Be16At(b: Bytes, i: nat, v: int)
    requires i + 2 <= |b| && b[i..i+2] == Be16(v)
    ensures U16Be(b, i) == v % U16_LIMIT
  {
    PowerLimits();
    BeRoundTrip(v % U16_LIMIT, 2);
  }

  // ── What the words mean ──

  /** The first byte is the lowest. */
  lemma LittleEndian(b: Bytes, i: nat)
    ensures i + 2 <= |b| ==> U16Le(b, i) == b[i] as int + 0x100 * b[i + 1] as int
    ensures i + 4 <= |b| ==> U32Le(b, i) == U16Le(b, i) + 0x1_0000 * U16Le(b, i + 2)
    ensures i + 8 <= |b| ==> U64Le(b, i) == U32Le(b, i) + 0x1_0000_0000 * U32Le(b, i + 4)
  {
    hide FromLe;
    if i + 2 <= |b| { LePair(b[i..i + 2]); }
    if i + 4 <= |b| {
      LeSplits(b[i..i + 4], 2);
      SubSlice(b, i, i + 4, 0, 2);
      SubSlice(b, i, i + 4, 2, 4);
    }
    if i + 8 <= |b| {
      LeSplits(b[i..i + 8], 4);
      SubSlice(b, i, i + 8, 0, 4);
      SubSlice(b, i, i + 8, 4, 8);
    }
    PowerLimits();
  }

  lemma LePair(b: Bytes)
    requires |b| == 2
    ensures FromLe(b) == b[0] as int + 0x100 * b[1] as int
  {
    assert b[1..][1..] == [];
  }

  lemma {:induction false} LeSplits(b: Bytes, k: nat)
    requires k <= |b|
    ensures FromLe(b) == FromLe(b[..k]) + FromLe(b[k..]) * Pow256(k)
  {
    hide FromLe;
    LeFront(b, k);
    if k == 0 {
      assert b[0..] == b;
    } else {
      LeSplits(b[1..], k - 1);
      assert b[1..][..k - 1] == b[..k][1..] && b[1..][k - 1..] == b[k..];
      Arith.MulShift(FromLe(b[k..]), 256, Pow256(k - 1));
    }
  }

  lemma LeFront(b: Bytes, k: nat)
    requires k <= |b|
    ensures if k == 0 then FromLe(b[..k]) == 0
            else FromLe(b) == b[0] as int + 256 * FromLe(b[1..]) &&
                 FromLe(b[..k]) == b[0] as int + 256 * FromLe(b[..k][1..])
  {
  }

  /** The first byte is the highest. */
  lemma BigEndian(b: Bytes, i: nat)
    ensures i + 2 <= |b| ==> U16Be(b, i) == 0x100 * b[i] as int + b[i + 1] as int
    ensures i + 4 <= |b| ==> U32Be(b, i) == 0x1_0000 * U16Be(b, i) + U16Be(b, i + 2)
    ensures i + 8 <= |b| ==> FromBe(b[i..i + 8]) == 0x1_0000_0000 * U32Be(b, i) + U32Be(b, i + 4)
  {
    hide FromBe;
    if i + 2 <= |b| { BePair(b[i..i + 2]); }
    if i + 4 <= |b| {
      BeSplits(b[i..i + 4], 2);
      SubSlice(b, i, i + 4, 0, 2);
      SubSlice(b, i, i + 4, 2, 4);
    }
    if i + 8 <= |b| {
      BeSplits(b[i..i + 8], 4);
      SubSlice(b, i, i + 8, 0, 4);
      SubSlice(b, i, i + 8, 4, 8);
    }
    PowerLimits();
  }

  lemma BePair(b: Bytes)
    requires |b| == 2
    ensures FromBe(b) == 0x100 * b[0] as int + b[1] as int
  {
    assert b[..1][..0] == [];
  }

  lemma {:induction false} BeSplits(b: Bytes, k: nat)
    requires k <= |b|
    ensures FromBe(b) == FromBe(b[..|b| - k]) * Pow256(k) + FromBe(b[|b| - k..])
    decreases k
  {
    if k == 0 {
      assert b[..|b|] == b && b[|b|..] == [];
    } else {
      var init, n := b[..|b| - 1], |b| - k;
      BeSplits(init, k - 1);
      assert init[..n] == b[..n] && init[n..] == b[n..][..k - 1];
      Arith.MulShift(FromBe(b[..n]), 256, Pow256(k - 1));
    }
  }

  /** Two's complement: the number in the signed range that the word is modulo `limit`. */
  lemma SignedIs(v: nat, limit: nat)
    requires v < limit
    ensures -(limit as int) <= 2 * Signed(v, limit) < limit
    ensures Signed(v, limit) == v || Signed(v, limit) == v - limit
    ensures Signed(v, limit) % limit == v
  {
    if 2 * v >= limit { Arith.DivModUnique(v - limit, limit, -1, v); }
  }

  // ── Flag words ──

  /** `word & mask != 0` for a mask of one bit. */
  predicate Bit(word: nat, mask: nat)
    requires mask > 0
  {
    word / mask % 2 == 1
  }

  /** The bit's own value, whatever the bits above and below it are. */
  lemma BitIs(high: nat, bit: bool, low: nat, mask: nat)
    requires low < mask
    ensures Bit(high * (2 * mask) + (if bit then mask else 0) + low, mask) == bit
  {
    var digit := if bit then 1 else 0;
    Arith.MulShift(high, 2, mask);
    Arith.MulAdds(2 * high, digit, mask);
    Arith.DivModUnique(high * (2 * mask) + digit * mask + low, mask, 2 * high + digit, low);
  }
}
