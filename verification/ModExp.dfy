/** Square-and-multiply over big integers (`bn_mod_exp.cc`), updating its result in place. */
module ModExp {
  import opened Options
  import opened Quotients

  class BigNum {
    var value: int

    constructor (v: int)
      ensures value == v
    {
      value := v;
    }
  }

  function Pow(a: int, n: nat): int {
    if n == 0 then 1 else a * Pow(a, n - 1)
  }

  // ----- working modulo m

  predicate Congruent(x: int, y: int, m: nat)
    requires m > 0
  {
    x % m == y % m
  }

  lemma CongruentTimes(x: int, y: int, z: int, m: nat)
    requires m > 0 && Congruent(x, y, m)
    ensures Congruent(x * z, y * z, m)
  {
    var k := x / m - y / m;
    assert m * k == m * (x / m) - m * (y / m);
    assert x == y + m * k;
    var q, t := (y * z) / m, (y * z) % m;
    assert (y + m * k) * z == y * z + (m * k) * z;
    MulAssociates(m, k, z);
    assert m * (q + k * z) == m * q + m * (k * z);
    assert x * z == (y + m * k) * z;
    QuotientUnique(x * z, m, q + k * z, t);
  }

  lemma Residue(x: int, m: nat)
    requires m > 0
    ensures Congruent(x % m, x, m)
  {
    QuotientUnique(x % m, m, 0, x % m);
  }

  lemma {:induction false} PowCongruent(x: int, y: int, n: nat, m: nat)
    requires m > 0 && Congruent(x, y, m)
    ensures Congruent(Pow(x, n), Pow(y, n), m)
  {
    if n > 0 {
      PowCongruent(x, y, n - 1, m);
      CongruentTimes(x, y, Pow(x, n - 1), m);
      CongruentTimes(Pow(x, n - 1), Pow(y, n - 1), y, m);
    }
  }

  /** Halving the exponent squares the base. */
  lemma {:induction false} PowSquare(a: int, h: nat)
    ensures Pow(a, 2 * h) == Pow(a * a, h)
    ensures Pow(a, 2 * h + 1) == a * Pow(a * a, h)
  {
    if h > 0 {
      PowSquare(a, h - 1);
      assert Pow(a, 2 * h) == a * Pow(a, 2 * h - 1) == a * (a * Pow(a, 2 * (h - 1)));
      MulAssociates(a, a, Pow(a, 2 * (h - 1)));
    }
  }

  /** One round of the loop keeps `r * base^exp`, modulo m. */
  lemma RoundKeeps(r: int, base: int, exp: nat, r': int, base': int, m: nat)
    requires m > 0 && exp > 0
    requires r' == if exp % 2 == 1 then (r * base) % m else r
    requires base' == (base * base) % m
    ensures Congruent(r' * Pow(base', exp / 2), r * Pow(base, exp), m)
  {
    var h := exp / 2;
    var square := Pow(base * base, h);
    PowSquare(base, h);
    Residue(base * base, m);
    PowCongruent(base', base * base, h, m);
    CongruentTimes(Pow(base', h), square, r', m);
    assert Congruent(r' * Pow(base', h), r' * square, m);
    if exp % 2 == 1 {
      Residue(r * base, m);
      CongruentTimes(r', r * base, square, m);
      MulAssociates(r, base, square);
    }
  }

  // ----- the loop

  function Abs(x: int): (n: nat)
    ensures n == x || n == -x
  {
    if x < 0 then -x else x
  }

  /** What the loop computes from values it has copied. The sign of the exponent plays no part, and the
      remainder is the non-negative one for a modulus of either sign. The modulus 1 is tested for first,
      -1 is not, so an empty product is not reduced by it. */
  function Computed(a: int, p: int, m: int): int
    requires m != 0
  {
    if m == -1 && p == 0 then 1 else Pow(a, Abs(p)) % m
  }

  /** What a call leaves in the result, or that it fails, when the result may be the object that holds
      the base or the modulus: it is set to one before either is read. */
  function Left(a: int, p: int, m: int, overBase: bool, overModulus: bool): Option<int> {
    if m == 1 then Some(0)
    else if overModulus then if p == 0 then Some(1) else None
    else if m == 0 then None
    else Some(Computed(if overBase then 1 else a, p, m))
  }

  method ModExp(r: BigNum, a: BigNum, p: BigNum, m: BigNum) returns (ok: bool)
    modifies r
    ensures (if ok then Some(r.value) else None) == Left(old(a.value), old(p.value), old(m.value), r == a, r == m)
  {
    if m.value == 1 {
      r.value := 0;
      return true;
    }
    var exp := p.value;
    r.value := 1;
    if m.value == 0 {
      return false;
    }
    var base := a.value % m.value;
    if r == m {
      ok := LoopOverModulus(r, base, exp);
    } else {
      ok := Loop(r, base, exp, m, a.value);
    }
  }

  /** The loop, when the modulus stays as it is. */
  method Loop(r: BigNum, base0: int, exp0: int, m: BigNum, ghost a: int) returns (ok: bool)
    requires r != m && r.value == 1 && m.value !in {0, 1} && base0 == a % m.value
    modifies r
    ensures ok && r.value == Computed(a, exp0, m.value)
  {
    ComputedFromResidue(a, exp0, m.value);
    var base, exp := base0, exp0;
    ghost var n := Abs(m.value);
    while exp != 0
      invariant 0 <= r.value && (r.value < n || r.value == 1)
      invariant Congruent(r.value * Pow(base, Abs(exp)), Pow(base0, Abs(exp0)), n)
      invariant if exp0 == 0 then r.value == 1 else exp == 0 ==> r.value < n
      decreases Abs(exp)
    {
      ghost var r1 := if exp % 2 == 1 then (r.value * base) % n else r.value;
      RoundKeeps(r.value, base, Abs(exp), r1, (base * base) % n, n);
      SameRemainder(r.value * base, m.value);
      SameRemainder(base * base, m.value);
      if exp % 2 == 1 {
        r.value := r.value * base;
        r.value := r.value % m.value;
      }
      exp := if exp < 0 then -(-exp / 2) else exp / 2;
      base := base * base;
      base := base % m.value;
    }
    SameRemainder(Pow(base0, Abs(exp0)), m.value);
    assert Congruent(r.value, Pow(base0, Abs(exp0)), n);
    if r.value < n { QuotientUnique(r.value, n, 0, r.value); }
    return true;
  }

  /** The loop, when the result is the modulus: it divides by one, and then by zero. */
  method LoopOverModulus(r: BigNum, base0: int, exp0: int) returns (ok: bool)
    requires r.value == 1 && base0 == 0
    modifies r
    ensures ok <==> exp0 == 0
    ensures ok ==> r.value == 1
  {
    var base, exp := base0, exp0;
    while exp != 0
      invariant r.value == 1 && base == 0
      invariant exp == 0 <==> exp0 == 0
      decreases Abs(exp)
    {
      if exp % 2 == 1 {
        r.value := r.value * base; // which leaves zero to divide by
        return false;
      }
      exp := if exp < 0 then -(-exp / 2) else exp / 2;
      base := base * base;
      base := base % r.value;
    }
    return true;
  }

  lemma SameRemainder(x: int, m: int)
    requires m != 0
    ensures x % m == x % Abs(m)
  {
    var n, t := Abs(m), x % m;
    assert x == m * (x / m) + t;
    QuotientUnique(x, n, if m < 0 then -(x / m) else x / m, t);
  }

  lemma ComputedFromResidue(a: int, p: int, m: int)
    requires m != 0
    ensures Computed(a % m, p, m) == Computed(a, p, m)
  {
    var n := Abs(m);
    SameRemainder(a, m);
    Residue(a, n);
    PowCongruent(a % m, a, Abs(p), n);
    SameRemainder(Pow(a % m, Abs(p)), m);
    SameRemainder(Pow(a, Abs(p)), m);
  }

  lemma PowOne(n: nat)
    ensures Pow(1, n) == 1
  {
    if n > 0 { PowOne(n - 1); }
  }

  /** When a call leaves the least non-negative residue of a^|p| modulo m. With a result of its own:
      always, but for the empty product modulo -1. Over the modulus: for the modulus 1, and for the
      exponent 0. Over the base: it leaves the residue of 1, so exactly when a^|p| has that residue. */
  lemma ResidueExactly(a: int, p: int, m: int, overBase: bool, overModulus: bool)
    requires m != 0
    ensures Left(a, p, m, overBase, overModulus) == Some(Pow(a, Abs(p)) % m) <==>
      && !(m == -1 && p == 0)
      && (overModulus ==> m == 1 || p == 0)
      && (overBase && !overModulus ==> Pow(a, Abs(p)) % m == 1 % m)
  {
    PowOne(Abs(p));
    SameRemainder(1, m);
    SameRemainder(Pow(a, Abs(p)), m);
    QuotientUnique(1, Abs(m), if Abs(m) == 1 then 1 else 0, if Abs(m) == 1 then 0 else 1);
    if Abs(m) == 1 {
      QuotientUnique(Pow(a, Abs(p)), 1, Pow(a, Abs(p)), 0);
    }
  }

  /** Squaring 3 modulo 7 into the object that holds the 3 leaves 1, not 2. */
  lemma OverBaseFails()
    ensures Left(3, 2, 7, true, false) == Some(1) && Pow(3, 2) % 7 == 2
  {
    assert Pow(3, 2) == 9 && Pow(1, 2) == 1;
  }
}
