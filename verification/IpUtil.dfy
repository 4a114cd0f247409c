/** Netmasks and masked address comparison (`ip_util.cc`): the byte tricks, and the CIDR ranges of
    integers they stand for. */
module IpUtil {
  import opened Octets
  import opened Quotients

  const IPV4_ADDRESS_SIZE := 4
  const IPV6_ADDRESS_SIZE := 16

  /** The big-endian integer a byte string spells. */
  function Value(b: Octets): (v: nat)
  {
    if b == [] then 0 else Value(b[..|b| - 1]) * 256 + b[|b| - 1] as int
  }

  /** `k` one bits followed by zero bits only. */
  ghost predicate PrefixMask(mask: Octets, k: nat) {
    k <= 8 * |mask| && forall i :: 0 <= i < 8 * |mask| ==> (Bit(mask[i / 8], i % 8) <==> i < k)
  }

  method IsValidNetmask(mask: Octets) returns (r: bool)
    ensures r <==> (|mask| == IPV4_ADDRESS_SIZE || |mask| == IPV6_ADDRESS_SIZE) && exists k: nat :: PrefixMask(mask, k)
    ensures r ==> |mask| == 4 || |mask| == 16
  {
    if |mask| != IPV4_ADDRESS_SIZE && |mask| != IPV6_ADDRESS_SIZE {
      return false;
    }
    MaskBytes(mask);
    for i := 0 to |mask|
      invariant forall j :: 0 <= j < i ==> mask[j] == 0xff
    {
      var b := mask[i];
      if b != 0xff {
        var inv := !b;
        if inv & (inv + 1) != 0 {
          return false;
        }
        for j := i + 1 to |mask|
          invariant forall l :: i < l < j ==> mask[l] == 0
        {
          if mask[j] != 0 {
            return false;
          }
        }
        assert ByteForm(mask, i);
        return true;
      }
    }
    assert ByteForm(mask, |mask|);
    return true;
  }

  predicate SameUnder(a: bv8, b: bv8, m: bv8) {
    a & m == b & m
  }

  /** The masked bytes agree, position by position. */
  predicate Matches(addr1: Octets, addr2: Octets, mask: Octets) {
    |addr1| == |addr2| == |mask| && forall i :: 0 <= i < |mask| ==> SameUnder(addr1[i], addr2[i], mask[i])
  }

  method IPAddressMatchesWithNetmask(addr1: Octets, addr2: Octets, mask: Octets) returns (r: bool)
    ensures r <==> Matches(addr1, addr2, mask)
  {
    if |addr1| != |addr2| || |addr1| != |mask| {
      return false;
    }
    for i := 0 to |addr1|
      invariant forall j :: 0 <= j < i ==> SameUnder(addr1[j], addr2[j], mask[j])
    {
      if addr1[i] & mask[i] != addr2[i] & mask[i] {
        return false;
      }
    }
    return true;
  }

  // ----- the byte form of a mask

  predicate OnesThenZeros(b: bv8) {
    !b & (!b + 1) == 0
  }

  /** Full bytes, one boundary byte, zero bytes: what the nested loops look for. */
  ghost predicate ByteForm(mask: Octets, i: nat) {
    && i <= |mask|
    && (forall j :: 0 <= j < i ==> mask[j] == 0xff)
    && (i < |mask| ==> mask[i] != 0xff && OnesThenZeros(mask[i]))
    && (forall j :: i < j < |mask| ==> mask[j] == 0)
  }

  lemma MaskBytes(mask: Octets)
    ensures (exists k: nat :: PrefixMask(mask, k)) <==> exists i: nat :: ByteForm(mask, i)
  {
    if exists k: nat :: PrefixMask(mask, k) {
      var k: nat :| PrefixMask(mask, k);
      PrefixToBytes(mask, k);
      assert ByteForm(mask, k / 8);
    }
    if exists i: nat :: ByteForm(mask, i) {
      var i: nat :| ByteForm(mask, i);
      BytesToPrefix(mask, i);
    }
  }

  /** How many leading ones a contiguous byte has. */
  function LeadingOnes(b: bv8): (t: nat)
    ensures t <= 8
  {
    if b == 0 then 0 else if b == 0x80 then 1 else if b == 0xc0 then 2 else if b == 0xe0 then 3 else if b == 0xf0 then 4
    else if b == 0xf8 then 5 else if b == 0xfc then 6 else if b == 0xfe then 7 else 8
  }

  lemma ContiguousByte(b: bv8)
    requires OnesThenZeros(b)
    ensures forall j :: 0 <= j < 8 ==> (Bit(b, j) <==> j < LeadingOnes(b))
    ensures b != 0xff ==> LeadingOnes(b) < 8
  {}

  /** The eight bits of a byte determine it. */
  lemma ByteFromBits(b: bv8, t: nat)
    requires t <= 8 && forall j :: 0 <= j < 8 ==> (Bit(b, j) <==> j < t)
    ensures OnesThenZeros(b) && LeadingOnes(b) == t
    ensures (t == 8 <==> b == 0xff) && (t == 0 <==> b == 0)
  {
    assert Bit(b, 0) <==> 0 < t;
    assert Bit(b, 1) <==> 1 < t;
    assert Bit(b, 2) <==> 2 < t;
    assert Bit(b, 3) <==> 3 < t;
    assert Bit(b, 4) <==> 4 < t;
    assert Bit(b, 5) <==> 5 < t;
    assert Bit(b, 6) <==> 6 < t;
    assert Bit(b, 7) <==> 7 < t;
  }

  /** The ones of a prefix mask that fall into byte `i`. */
  function OnesInByte(k: nat, i: nat): (t: nat)
    ensures t <= 8
  {
    if k <= 8 * i then 0 else if k >= 8 * i + 8 then 8 else k - 8 * i
  }

  lemma PrefixByte(mask: Octets, k: nat, i: nat)
    requires PrefixMask(mask, k) && i < |mask|
    ensures OnesThenZeros(mask[i]) && LeadingOnes(mask[i]) == OnesInByte(k, i)
    ensures (OnesInByte(k, i) == 8 <==> mask[i] == 0xff) && (OnesInByte(k, i) == 0 <==> mask[i] == 0)
  {
    forall j | 0 <= j < 8 ensures Bit(mask[i], j) <==> j < OnesInByte(k, i) {
      assert (8 * i + j) / 8 == i && (8 * i + j) % 8 == j;
      assert Bit(mask[(8 * i + j) / 8], (8 * i + j) % 8) <==> 8 * i + j < k;
    }
    ByteFromBits(mask[i], OnesInByte(k, i));
  }

  lemma PrefixToBytes(mask: Octets, k: nat)
    requires PrefixMask(mask, k)
    ensures ByteForm(mask, k / 8)
  {
    forall i | 0 <= i < |mask|
      ensures (i < k / 8 ==> mask[i] == 0xff) && (i == k / 8 ==> mask[i] != 0xff && OnesThenZeros(mask[i]))
        && (i > k / 8 ==> mask[i] == 0)
    {
      PrefixByte(mask, k, i);
    }
  }

  lemma BytesToPrefix(mask: Octets, i: nat)
    requires ByteForm(mask, i)
    ensures exists k: nat :: PrefixMask(mask, k)
  {
    var k := 8 * i + (if i < |mask| then LeadingOnes(mask[i]) else 0);
    forall p | 0 <= p < 8 * |mask| ensures Bit(mask[p / 8], p % 8) <==> p < k {
      var b := mask[p / 8];
      assert p == 8 * (p / 8) + p % 8;
      assert OnesThenZeros(b);
      ContiguousByte(b);
      assert p / 8 < i ==> LeadingOnes(b) == 8;
      assert p / 8 > i ==> LeadingOnes(b) == 0;
    }
    assert PrefixMask(mask, k);
  }

  // ----- the meaning of a masked comparison

  /** Masking a byte with its first `t` bits is dividing by the weight of the others. */
  lemma MaskedByte(a: bv8, b: bv8, m: bv8)
    requires OnesThenZeros(m)
    ensures SameUnder(a, b, m) <==> Block(a as int, 8 - LeadingOnes(m)) == Block(b as int, 8 - LeadingOnes(m))
  {
    var t := LeadingOnes(m);
    MaskIsShift(a, b, m);
    ShiftIsQuotient(a, t);
    ShiftIsQuotient(b, t);
  }

  /** The first `t` bits of a byte. */
  function TopBits(a: bv8, t: nat): bv8
    requires t <= 8
  {
    if t == 0 then 0 else if t == 1 then a >> 7 else if t == 2 then a >> 6 else if t == 3 then a >> 5
    else if t == 4 then a >> 4 else if t == 5 then a >> 3 else if t == 6 then a >> 2 else if t == 7 then a >> 1 else a
  }

  lemma MaskIsShift(a: bv8, b: bv8, m: bv8)
    requires OnesThenZeros(m)
    ensures SameUnder(a, b, m) <==> TopBits(a, LeadingOnes(m)) == TopBits(b, LeadingOnes(m))
  {}

  lemma ShiftIsQuotient(a: bv8, t: nat)
    requires t <= 8
    ensures TopBits(a, t) as int == a as int / Pow2(8 - t)
  {
    Pow2Small();
    ByteShifts(a);
  }

  lemma ByteShifts(a: bv8)
    ensures a as int / 256 == 0 && (a >> 7) as int == a as int / 128 && (a >> 6) as int == a as int / 64
    ensures (a >> 5) as int == a as int / 32 && (a >> 4) as int == a as int / 16 && (a >> 3) as int == a as int / 8
    ensures (a >> 2) as int == a as int / 4 && (a >> 1) as int == a as int / 2
  {
    LongShifts(a);
    ShortShifts(a);
  }

  lemma LongShifts(a: bv8)
    ensures a as int / 256 == 0 && (a >> 7) as int == a as int / 128 && (a >> 6) as int == a as int / 64
    ensures (a >> 5) as int == a as int / 32
  {}

  lemma ShortShifts(a: bv8)
    ensures (a >> 4) as int == a as int / 16 && (a >> 3) as int == a as int / 8
    ensures (a >> 2) as int == a as int / 4 && (a >> 1) as int == a as int / 2
  {
    ShiftByTwo(a);
    ShiftByOne(a);
  }

  lemma ShiftByTwo(a: bv8)
    ensures (a >> 2) as int == a as int / 4
  {}

  lemma ShiftByOne(a: bv8)
    ensures (a >> 1) as int == a as int / 2
  {}

  lemma {:induction false} ValueInjective(a: Octets, b: Octets)
    requires |a| == |b|
    ensures Value(a) == Value(b) <==> a == b
  {
    if a != [] {
      var n := |a| - 1;
      EqualParts(Value(a[..n]), Value(b[..n]), a[n] as int, b[n] as int, 256);
      ValueInjective(a[..n], b[..n]);
      assert a == a[..n] + [a[n]] && b == b[..n] + [b[n]];
    }
  }

  /** The number of the block of `2^bits` consecutive integers that holds `v`. */
  function Block(v: nat, bits: nat): nat {
    QuotientNat(v, Pow2(bits));
    v / Pow2(bits)
  }

  predicate InBlock(v: nat, number: nat, bits: nat) {
    number * Pow2(bits) <= v < number * Pow2(bits) + Pow2(bits)
  }

  /** Under a mask of `k` ones, two addresses match exactly when the integers they spell have the same
      quotient by the weight of the masked-out bits. */
  lemma {:induction false} MatchIsEqualQuotient(a: Octets, b: Octets, mask: Octets, k: nat)
    requires |a| == |b| == |mask| && PrefixMask(mask, k)
    ensures Matches(a, b, mask) <==> Block(Value(a), 8 * |mask| - k) == Block(Value(b), 8 * |mask| - k)
  {
    if mask != [] {
      var n := |mask| - 1;
      var front := if k <= 8 * n then k else 8 * n;
      PrefixFront(mask, k);
      MatchIsEqualQuotient(a[..n], b[..n], mask[..n], front);
      MatchesSplit(a, b, mask);
      LastByteMatch(a[n], b[n], mask, k);
      var v, w := Value(a[..n]), Value(b[..n]);
      assert Value(a) == v * 256 + a[n] as int && Value(b) == w * 256 + b[n] as int;
      QuotientSplit(v, a[n], w, b[n], 8 * n, k, front, k - front);
    }
  }

  lemma LastByteMatch(c: bv8, d: bv8, mask: Octets, k: nat)
    requires mask != [] && PrefixMask(mask, k)
    ensures var n := |mask| - 1;
            var t := if k <= 8 * n then 0 else k - 8 * n;
            t <= 8 && (SameUnder(c, d, mask[n]) <==> Block(c as int, 8 - t) == Block(d as int, 8 - t))
  {
    PrefixByte(mask, k, |mask| - 1);
    MaskedByte(c, d, mask[|mask| - 1]);
  }

  /** One more byte on both sides of an equality of quotients. */
  lemma QuotientSplit(v: nat, c: bv8, w: nat, d: bv8, bits: nat, k: nat, front: nat, t: nat)
    requires k <= bits + 8 && front == (if k <= bits then k else bits) && t == k - front
    ensures Block(v * 256 + c as int, bits + 8 - k) == Block(w * 256 + d as int, bits + 8 - k)
       <==> Block(v, bits - front) == Block(w, bits - front) && Block(c as int, 8 - t) == Block(d as int, 8 - t)
  {
    Pow2Small();
    if k <= bits {
      DropByte(v, c, bits - k);
      DropByte(w, d, bits - k);
      assert c as int / 256 == 0 == d as int / 256;
    } else {
      var s := bits + 8 - k;
      LastByteQuotient(v, c, s);
      LastByteQuotient(w, d, s);
      EqualParts(v, w, c as int / Pow2(s), d as int / Pow2(s), Pow2(8 - s));
    }
  }

  lemma DropByte(v: nat, l: bv8, s: nat)
    ensures (v * 256 + l as int) / Pow2(s + 8) == v / Pow2(s)
  {
    Pow2Sum(8, s);
    Pow2Small();
    NestedQuotient(v * 256 + l as int, 256, Pow2(s));
    QuotientUnique(v * 256 + l as int, 256, v, l as int);
  }

  lemma LastByteQuotient(v: nat, l: bv8, s: nat)
    requires s <= 8
    ensures (v * 256 + l as int) / Pow2(s) == v * Pow2(8 - s) + l as int / Pow2(s)
    ensures 0 <= l as int / Pow2(s) < Pow2(8 - s)
  {
    Pow2Sum(s, 8 - s);
    Pow2Small();
    var p, q := Pow2(s), Pow2(8 - s);
    assert v * 256 == p * (v * q) by {
      MulAssociates(p, q, v);
      assert q * v == v * q;
    }
    QuotientOfSum(v * q, l as int, p);
    QuotientBelow(l as int, p, q);
  }

  lemma PrefixFront(mask: Octets, k: nat)
    requires mask != [] && PrefixMask(mask, k)
    ensures var n := |mask| - 1; PrefixMask(mask[..n], if k <= 8 * n then k else 8 * n)
  {
    var n := |mask| - 1;
    forall i | 0 <= i < 8 * n ensures Bit(mask[..n][i / 8], i % 8) <==> i < k {
      assert Bit(mask[i / 8], i % 8) <==> i < k;
    }
  }

  lemma MatchesSplit(a: Octets, b: Octets, mask: Octets)
    requires |a| == |b| == |mask| > 0
    ensures var n := |mask| - 1;
            Matches(a, b, mask) <==> Matches(a[..n], b[..n], mask[..n]) && SameUnder(a[n], b[n], mask[n])
  {
    var n := |mask| - 1;
    if Matches(a[..n], b[..n], mask[..n]) && SameUnder(a[n], b[n], mask[n]) {
      forall i | 0 <= i < |mask| ensures SameUnder(a[i], b[i], mask[i]) {
        if i < n {
          assert SameUnder(a[..n][i], b[..n][i], mask[..n][i]);
        }
      }
    }
    if Matches(a, b, mask) {
      forall i | 0 <= i < n ensures SameUnder(a[..n][i], b[..n][i], mask[..n][i]) {
        assert SameUnder(a[i], b[i], mask[i]);
      }
    }
  }

  /** A subtree is one interval of integers, aligned to its own length. */
  lemma RangeIsAlignedInterval(x: Octets, addr: Octets, mask: Octets, k: nat)
    requires |x| == |addr| == |mask| && PrefixMask(mask, k)
    ensures Matches(x, addr, mask) <==> InBlock(Value(x), Block(Value(addr), 8 * |mask| - k), 8 * |mask| - k)
  {
    MatchIsEqualQuotient(x, addr, mask, k);
    BlockIsInterval(Value(x), Block(Value(addr), 8 * |mask| - k), 8 * |mask| - k);
  }

  lemma BlockIsInterval(v: nat, number: nat, bits: nat)
    ensures Block(v, bits) == number <==> InBlock(v, number, bits)
  {
    var size := Pow2(bits);
    if InBlock(v, number, bits) {
      QuotientUnique(v, size, number, v - number * size);
    }
    assert v == size * (v / size) + v % size;
  }

  /** Two ranges over addresses of one size are nested or disjoint. */
  lemma RangesNestOrAreDisjoint(a: Octets, m: Octets, k: nat, b: Octets, w: Octets, l: nat)
    requires |a| == |m| == |b| == |w| && PrefixMask(m, k) && PrefixMask(w, l) && k <= l
    ensures (forall x :: Matches(x, b, w) ==> Matches(x, a, m)) || (forall x :: Matches(x, b, w) ==> !Matches(x, a, m))
  {
    var narrow := 8 * |m| - l;
    forall x | Matches(x, b, w) ensures Matches(x, a, m) <==> Matches(b, a, m) {
      MatchIsEqualQuotient(x, b, w, l);
      MatchIsEqualQuotient(x, a, m, k);
      MatchIsEqualQuotient(b, a, m, k);
      CoarserBlock(Value(x), narrow, l - k);
      CoarserBlock(Value(b), narrow, l - k);
    }
  }

  lemma CoarserBlock(v: nat, bits: nat, more: nat)
    ensures Block(v, bits + more) == Block(Block(v, bits), more)
  {
    Pow2Sum(bits, more);
    NestedQuotient(v, Pow2(bits), Pow2(more));
  }
}
