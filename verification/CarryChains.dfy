/** Addition and subtraction with carry on 64-bit limbs (`internal.h`), and the loops that chain them over
    limb sequences (`bn/generic.cc.inc`). Words are integers, and every wrap-around is written out. */
module CarryChains {

  const BASE := 0x1_0000_0000_0000_0000

  type u64 = x: int | 0 <= x < 0x1_0000_0000_0000_0000

  type Bit = x: int | 0 <= x <= 1

  function Wrap(x: int): u64 {
    x % BASE
  }

  /** The form without 128-bit integers. */
  method AddcU64(x: u64, y: u64, carry: Bit) returns (ret: u64, outCarry: Bit)
    ensures ret + BASE * outCarry == x + y + carry
  {
    var x1 := Wrap(x + carry);
    var carry1 := if x1 < carry then 1 else 0;
    ret := Wrap(x1 + y);
    outCarry := carry1 + (if ret < x1 then 1 else 0);
  }

  method SubcU64(x: u64, y: u64, borrow: Bit) returns (ret: u64, outBorrow: Bit)
    ensures ret - BASE * outBorrow == x - y - borrow
  {
    ret := Wrap(x - y - borrow);
    outBorrow := if x < y || (x == y && borrow == 1) then 1 else 0;
  }

  // ----- limb sequences, least significant first

  type Limbs = seq<u64>

  function Value(s: Limbs): nat {
    if s == [] then 0 else s[0] + BASE * Value(s[1..])
  }

  function Power(n: nat): (p: nat)
    ensures p > 0
  {
    if n == 0 then 1 else BASE * Power(n - 1)
  }

  lemma {:induction false} ValueBelow(s: Limbs)
    ensures Value(s) < Power(|s|)
  {
    if s != [] { ValueBelow(s[1..]); }
  }

  lemma {:induction false} ValueInjective(a: Limbs, b: Limbs)
    requires |a| == |b| && Value(a) == Value(b)
    ensures a == b
  {
    if a != [] {
      assert a[0] == b[0] && Value(a[1..]) == Value(b[1..]);
      ValueInjective(a[1..], b[1..]);
      assert a == [a[0]] + a[1..] && b == [b[0]] + b[1..];
    }
  }

  function Sum(a: Limbs, b: Limbs, carry: Bit): (r: (Limbs, Bit))
    requires |a| == |b|
    ensures |r.0| == |a|
  {
    if a == [] then ([], carry) else
      var t := a[0] + b[0] + carry;
      var (rest, out) := Sum(a[1..], b[1..], t / BASE);
      ([t % BASE] + rest, out)
  }

  function Difference(a: Limbs, b: Limbs, borrow: Bit): (r: (Limbs, Bit))
    requires |a| == |b|
    ensures |r.0| == |a|
  {
    if a == [] then ([], borrow) else
      var t := a[0] - b[0] - borrow;
      var (rest, out) := Difference(a[1..], b[1..], if t < 0 then 1 else 0);
      ([Wrap(t)] + rest, out)
  }

  /** The chain adds exactly: nothing is lost but what the last carry holds. */
  lemma {:induction false} SumIsExact(a: Limbs, b: Limbs, carry: Bit)
    requires |a| == |b|
    ensures Value(Sum(a, b, carry).0) + Out(Sum(a, b, carry).1, |a|) == Value(a) + Value(b) + carry
  {
    if a != [] {
      var t := a[0] + b[0] + carry;
      SumIsExact(a[1..], b[1..], t / BASE);
      assert Sum(a, b, carry).0[1..] == Sum(a[1..], b[1..], t / BASE).0;
    }
  }

  /** What a last carry or borrow out of `n` limbs weighs. */
  function Out(bit: Bit, n: nat): nat {
    if bit == 1 then Power(n) else 0
  }

  lemma {:induction false} DifferenceValue(a: Limbs, b: Limbs, borrow: Bit)
    requires |a| == |b|
    ensures Value(Difference(a, b, borrow).0) - Out(Difference(a, b, borrow).1, |a|) == Value(a) - Value(b) - borrow
  {
    if a != [] {
      var t := a[0] - b[0] - borrow;
      var next: Bit := if t < 0 then 1 else 0;
      DifferenceValue(a[1..], b[1..], next);
      WrapDifference(t);
      assert Difference(a, b, borrow).0[1..] == Difference(a[1..], b[1..], next).0;
    }
  }

  lemma WrapDifference(t: int)
    requires -BASE <= t < BASE
    ensures Wrap(t) == if t < 0 then t + BASE else t
  {}

  /** The chain subtracts exactly, and borrows at the end exactly when the result would be negative. */
  lemma DifferenceIsExact(a: Limbs, b: Limbs, borrow: Bit)
    requires |a| == |b|
    ensures Value(Difference(a, b, borrow).0) - Out(Difference(a, b, borrow).1, |a|) == Value(a) - Value(b) - borrow
    ensures Difference(a, b, borrow).1 == 1 <==> Value(a) < Value(b) + borrow
  {
    DifferenceValue(a, b, borrow);
    ValueBelow(Difference(a, b, borrow).0);
  }

  /** Subtracting what was added, or adding what was subtracted, restores the limbs, and the second chain
      carries out what the first did. */
  lemma ChainsUndoEachOther(a: Limbs, b: Limbs, carry: Bit)
    requires |a| == |b|
    ensures Difference(Sum(a, b, carry).0, b, carry) == (a, Sum(a, b, carry).1)
    ensures Sum(Difference(a, b, carry).0, b, carry) == (a, Difference(a, b, carry).1)
  {
    var (s, c) := Sum(a, b, carry);
    var (d, e) := Difference(s, b, carry);
    SumIsExact(a, b, carry);
    DifferenceIsExact(s, b, carry);
    ValueBelow(a);
    ValueBelow(d);
    assert Value(d) == Value(a) && c == e;
    ValueInjective(a, d);
    UndoDifference(a, b, carry);
  }

  lemma UndoDifference(a: Limbs, b: Limbs, carry: Bit)
    requires |a| == |b|
    ensures Sum(Difference(a, b, carry).0, b, carry) == (a, Difference(a, b, carry).1)
  {
    var (d, e) := Difference(a, b, carry);
    var (s, c) := Sum(d, b, carry);
    DifferenceIsExact(a, b, carry);
    SumIsExact(d, b, carry);
    ValueBelow(a);
    ValueBelow(s);
    assert Value(s) == Value(a) && c == e;
    ValueInjective(a, s);
  }

  // ----- the loops, four limbs at a time and then one

  /** Limbs done so far, and the carry into the rest. */
  ghost predicate SumSoFar(a: Limbs, b: Limbs, done: Limbs, carry: Bit)
    requires |a| == |b| && |done| <= |a|
  {
    var rest := Sum(a[|done|..], b[|done|..], carry);
    Sum(a, b, 0) == (done + rest.0, rest.1)
  }

  ghost predicate DifferenceSoFar(a: Limbs, b: Limbs, done: Limbs, borrow: Bit)
    requires |a| == |b| && |done| <= |a|
  {
    var rest := Difference(a[|done|..], b[|done|..], borrow);
    Difference(a, b, 0) == (done + rest.0, rest.1)
  }

  /** One more limb: the carry it leaves goes into the rest. */
  lemma SumOneMore(a: Limbs, b: Limbs, done: Limbs, carry: Bit, x: u64, next: Bit)
    requires |a| == |b| && |done| < |a| && SumSoFar(a, b, done, carry)
    requires x + BASE * next == a[|done|] + b[|done|] + carry
    ensures SumSoFar(a, b, done + [x], next)
  {
    var i := |done|;
    assert a[i..][1..] == a[i + 1..] && b[i..][1..] == b[i + 1..];
    var rest := Sum(a[i + 1..], b[i + 1..], next);
    assert Sum(a[i..], b[i..], carry) == ([x] + rest.0, rest.1);
    assert done + ([x] + rest.0) == (done + [x]) + rest.0;
  }

  lemma SumStart(a: Limbs, b: Limbs)
    requires |a| == |b|
    ensures SumSoFar(a, b, [], 0)
  {
    assert a[0..] == a && b[0..] == b;
    assert [] + Sum(a, b, 0).0 == Sum(a, b, 0).0;
  }

  lemma DifferenceOneMore(a: Limbs, b: Limbs, done: Limbs, borrow: Bit, x: u64, next: Bit)
    requires |a| == |b| && |done| < |a| && DifferenceSoFar(a, b, done, borrow)
    requires x - BASE * next == a[|done|] - b[|done|] - borrow
    ensures DifferenceSoFar(a, b, done + [x], next)
  {
    var i := |done|;
    assert a[i..][1..] == a[i + 1..] && b[i..][1..] == b[i + 1..];
    var rest := Difference(a[i + 1..], b[i + 1..], next);
    assert Difference(a[i..], b[i..], borrow) == ([x] + rest.0, rest.1);
    assert done + ([x] + rest.0) == (done + [x]) + rest.0;
  }

  lemma DifferenceStart(a: Limbs, b: Limbs)
    requires |a| == |b|
    ensures DifferenceSoFar(a, b, [], 0)
  {
    assert a[0..] == a && b[0..] == b;
    assert [] + Difference(a, b, 0).0 == Difference(a, b, 0).0;
  }

  /** The result may lie over either operand: a limb is read before it is written. */
  method AddOne(r: array<u64>, a: array<u64>, b: array<u64>, i: nat, carry: Bit, ghost a0: Limbs, ghost b0: Limbs)
      returns (next: Bit)
    requires |a0| == |b0| == r.Length == a.Length == b.Length && i < r.Length
    requires forall k :: i <= k < |a0| ==> a[k] == a0[k] && b[k] == b0[k]
    requires SumSoFar(a0, b0, r[..i], carry)
    modifies r
    ensures forall k :: i < k < |a0| ==> a[k] == a0[k] && b[k] == b0[k]
    ensures SumSoFar(a0, b0, r[..i + 1], next)
  {
    ghost var done := r[..i];
    var x;
    x, next := AddcU64(a[i], b[i], carry);
    r[i] := x;
    SumOneMore(a0, b0, done, carry, x, next);
    assert r[..i + 1] == done + [x];
  }

  method AddWords(r: array<u64>, a: array<u64>, b: array<u64>) returns (carry: Bit)
    requires r.Length == a.Length == b.Length
    modifies r
    ensures (r[..], carry) == Sum(old(a[..]), old(b[..]), 0)
  {
    ghost var a0, b0 := a[..], b[..];
    SumStart(a0, b0);
    if r.Length == 0 {
      assert r[..] == [];
      return 0;
    }
    carry := 0;
    var i := 0;
    assert r[..0] == [];
    while i + 4 <= r.Length
      invariant i <= r.Length
      invariant forall k :: i <= k < |a0| ==> a[k] == a0[k] && b[k] == b0[k]
      invariant SumSoFar(a0, b0, r[..i], carry)
    {
      carry := AddOne(r, a, b, i, carry, a0, b0);
      carry := AddOne(r, a, b, i + 1, carry, a0, b0);
      carry := AddOne(r, a, b, i + 2, carry, a0, b0);
      carry := AddOne(r, a, b, i + 3, carry, a0, b0);
      i := i + 4;
    }
    while i < r.Length
      invariant i <= r.Length
      invariant forall k :: i <= k < |a0| ==> a[k] == a0[k] && b[k] == b0[k]
      invariant SumSoFar(a0, b0, r[..i], carry)
    {
      carry := AddOne(r, a, b, i, carry, a0, b0);
      i := i + 1;
    }
    assert r[..i] == r[..] && r[..] + [] == r[..];
  }

  method SubOne(r: array<u64>, a: array<u64>, b: array<u64>, i: nat, borrow: Bit, ghost a0: Limbs, ghost b0: Limbs)
      returns (next: Bit)
    requires |a0| == |b0| == r.Length == a.Length == b.Length && i < r.Length
    requires forall k :: i <= k < |a0| ==> a[k] == a0[k] && b[k] == b0[k]
    requires DifferenceSoFar(a0, b0, r[..i], borrow)
    modifies r
    ensures forall k :: i < k < |a0| ==> a[k] == a0[k] && b[k] == b0[k]
    ensures DifferenceSoFar(a0, b0, r[..i + 1], next)
  {
    ghost var done := r[..i];
    var x;
    x, next := SubcU64(a[i], b[i], borrow);
    r[i] := x;
    DifferenceOneMore(a0, b0, done, borrow, x, next);
    assert r[..i + 1] == done + [x];
  }

  method SubWords(r: array<u64>, a: array<u64>, b: array<u64>) returns (borrow: Bit)
    requires r.Length == a.Length == b.Length
    modifies r
    ensures (r[..], borrow) == Difference(old(a[..]), old(b[..]), 0)
  {
    ghost var a0, b0 := a[..], b[..];
    DifferenceStart(a0, b0);
    if r.Length == 0 {
      assert r[..] == [];
      return 0;
    }
    borrow := 0;
    var i := 0;
    assert r[..0] == [];
    while i + 4 <= r.Length
      invariant i <= r.Length
      invariant forall k :: i <= k < |a0| ==> a[k] == a0[k] && b[k] == b0[k]
      invariant DifferenceSoFar(a0, b0, r[..i], borrow)
    {
      borrow := SubOne(r, a, b, i, borrow, a0, b0);
      borrow := SubOne(r, a, b, i + 1, borrow, a0, b0);
      borrow := SubOne(r, a, b, i + 2, borrow, a0, b0);
      borrow := SubOne(r, a, b, i + 3, borrow, a0, b0);
      i := i + 4;
    }
    while i < r.Length
      invariant i <= r.Length
      invariant forall k :: i <= k < |a0| ==> a[k] == a0[k] && b[k] == b0[k]
      invariant DifferenceSoFar(a0, b0, r[..i], borrow)
    {
      borrow := SubOne(r, a, b, i, borrow, a0, b0);
      i := i + 1;
    }
    assert r[..i] == r[..] && r[..] + [] == r[..];
  }
}
