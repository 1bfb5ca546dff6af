/** Products of two variables, one small fact at a time. */
module Arith {

  lemma MulLe(x: int, y: int, z: int)
    requires x <= y && 0 <= z
    ensures x * z <= y * z
  {
  }

  lemma MulSucc(x: int, z: int)
    ensures (x + 1) * z == x * z + z
  {
  }

  lemma MulAdds(x: int, y: int, z: int)
    ensures (x + y) * z == x * z + y * z
  {
  }

  lemma MulNonNegative(x: nat, z: nat)
    ensures x * z >= 0
  {
  }

  /** Row `a` of `stride` cells ends before row `b` begins. */
  lemma RowsApart(a: nat, b: nat, stride: nat)
    requires a < b
    ensures a * stride + stride <= b * stride
  {
    MulSucc(a, stride);
    MulLe(a + 1, b, stride);
  }

  lemma LeadingDigitDecides(x: int, y: int, r: nat, s: nat, p: nat)
    requires r < p && s < p && x < y
    ensures x * p + r < y * p + s
  {
    MulSucc(x, p);
    MulLe(x + 1, y, p);
  }

  lemma MulShift(x: int, k: int, p: int)
    ensures x * (k * p) == k * (x * p)
  {
  }

  lemma DivModUnique(v: int, m: int, q: int, r: int)
    requires m > 0 && 0 <= r < m && v == m * q + r
    ensures v / m == q && v % m == r
  {
    var d := v / m - q;
    assert m * (v / m) - m * q == m * d;
    assert -m < r - v % m < m;
    assert d >= 1 ==> m * d >= m;
    assert d <= -1 ==> m * d <= -m;
  }

  lemma FloorBounds(v: nat, m: nat, q: nat)
    requires m > 0 && q == v / m
    ensures 0 <= q * m <= v < q * m + m
  {
    assert v == m * (v / m) + v % m;
  }
}
