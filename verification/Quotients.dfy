/** Facts about division and powers of two that several models use. */
module Quotients {

  function Pow2(n: nat): (p: nat)
    ensures p > 0
  {
    if n == 0 then 1 else 2 * Pow2(n - 1)
  }

  lemma {:induction false} Pow2Sum(a: nat, b: nat)
    ensures Pow2(a + b) == Pow2(a) * Pow2(b)
  {
    if a > 0 {
      Pow2Sum(a - 1, b);
      assert Pow2(a + b) == 2 * (Pow2(a - 1) * Pow2(b));
      MulAssociates(2, Pow2(a - 1), Pow2(b));
    }
  }

  lemma Pow2Small()
    ensures Pow2(0) == 1 && Pow2(1) == 2 && Pow2(2) == 4 && Pow2(3) == 8 && Pow2(4) == 16
    ensures Pow2(5) == 32 && Pow2(6) == 64 && Pow2(7) == 128 && Pow2(8) == 256
  {
    assert Pow2(3) == 8;
    assert Pow2(6) == 64;
  }

  lemma MulAssociates(a: int, b: int, c: int)
    ensures a * (b * c) == (a * b) * c
  {}

  lemma MulPlus(p: int, a: int, b: int)
    ensures p * (a + b) == p * a + p * b
  {}

  lemma MulMinus(p: int, a: int, b: int)
    ensures p * (a - b) == p * a - p * b
  {}

  lemma MulAtLeast(p: int, d: int)
    requires p > 0
    ensures d >= 1 ==> p * d >= p
    ensures d <= -1 ==> p * d <= -p
  {}

  lemma DivMod(x: int, p: int)
    requires p > 0
    ensures x == p * (x / p) + x % p && 0 <= x % p < p
  {}

  lemma QuotientUnique(x: int, p: int, q: int, r: int)
    requires p > 0 && x == p * q + r && 0 <= r < p
    ensures x / p == q && x % p == r
  {
    DivMod(x, p);
    MulMinus(p, x / p, q);
    MulAtLeast(p, x / p - q);
  }

  lemma QuotientNat(x: nat, p: nat)
    requires p > 0
    ensures x / p >= 0
  {
    assert x == p * (x / p) + x % p;
    MulAtLeast(p, x / p);
  }

  lemma QuotientOfSum(c: int, x: int, p: int)
    requires p > 0
    ensures (p * c + x) / p == c + x / p
  {
    var q, r := x / p, x % p;
    assert p * (c + q) == p * c + p * q;
    QuotientUnique(p * c + x, p, c + q, r);
  }

  lemma QuotientBelow(x: int, p: int, q: int)
    requires p > 0 && 0 <= x < p * q
    ensures 0 <= x / p < q
  {
    var z := x / p;
    DivMod(x, p);
    MulAtLeast(p, z);
    MulMinus(p, z, q);
    MulAtLeast(p, z - q);
  }

  /** Dividing twice is dividing by the product. */
  lemma NestedQuotient(x: nat, p: nat, q: nat)
    requires p > 0 && q > 0
    ensures p * q > 0 && x / (p * q) == x / p / q
  {
    var y, r := x / p, x % p;
    var z, t := y / q, y % q;
    DivMod(x, p);
    DivMod(y, q);
    RemainderFits(p, q, t, r);
    NestedParts(x, p, q, y, r, z, t);
    QuotientUnique(x, p * q, z, p * t + r);
  }

  lemma NestedParts(x: int, p: int, q: int, y: int, r: int, z: int, t: int)
    requires x == p * y + r && y == q * z + t
    ensures x == (p * q) * z + (p * t + r)
  {
    MulPlus(p, q * z, t);
    MulAssociates(p, q, z);
  }

  lemma RemainderFits(p: nat, q: nat, t: nat, r: nat)
    requires r < p && t < q
    ensures 0 <= p * t + r < p * q
  {
    MulMinus(p, q, t);
    MulAtLeast(p, q - t);
    MulAtLeast(p, t);
  }

  lemma EqualParts(v: nat, w: nat, a: nat, b: nat, q: nat)
    requires a < q && b < q
    ensures v * q + a == w * q + b <==> v == w && a == b
  {
    assert q * (v - w) == v * q - w * q;
    MulAtLeast(q, v - w);
  }
}
