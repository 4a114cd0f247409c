/** DER BIT STRING values (`parse_values.cc`; X.690, sections 8.6.2 and 11.2.1). */
module BitStrings {
  import opened Octets
  import opened Options

  datatype BitString = BitString(bytes: Octets, unusedBits: nat) {
    /** What the constructor checks. */
    predicate Valid() {
      && unusedBits < 8
      && (unusedBits == 0 || bytes != [])
      && (bytes == [] || bytes[|bytes| - 1] & LowMask(unusedBits) == 0)
    }

    /** Bits are numbered from the most significant bit of the first byte. */
    function AssertsBit(i: nat): bool {
      i / 8 < |bytes| && Bit(bytes[i / 8], i - i / 8 * 8)
    }
  }

  function LowMask(n: nat): bv8
    requires n < 8
  {
    0xFF >> (8 - n)
  }

  /** The octets of the encoding: the number of unused bits, then the bytes. */
  function Encoded(b: BitString): Octets
    requires b.unusedBits < 8
  {
    [b.unusedBits as bv8] + b.bytes
  }

  method ParseBitString(input: Octets) returns (r: Option<BitString>)
    ensures r.Some? ==> r.value.Valid() && Encoded(r.value) == input
    ensures r.None? ==> forall b: BitString :: b.Valid() ==> Encoded(b) != input
  {
    if input == [] {
      return None;
    }
    Candidate(input);
    var unused := input[0];
    if unused > 7 {
      return None;
    }
    var bytes := input[1..];
    if unused > 0 {
      if bytes == [] {
        return None;
      }
      var last := bytes[|bytes| - 1];
      if LowMask(unused as nat) & last != 0 {
        return None;
      }
    }
    return Some(BitString(bytes, unused as nat));
  }

  /** The only value whose octets could be `input`. */
  lemma Candidate(input: Octets)
    requires input != []
    ensures forall b: BitString :: b.Valid() && Encoded(b) == input ==>
      b.bytes == input[1..] && b.unusedBits == input[0] as nat && input[0] <= 7
    ensures input[0] == 0 ==> LowMask(input[0] as nat) == 0
    ensures input[0] <= 7 ==> (input[0] as nat) < 8 && Encoded(BitString(input[1..], input[0] as nat)) == input
  {
    OneOctet(input[0]);
    forall b: BitString | b.Valid() && Encoded(b) == input
      ensures b.bytes == input[1..] && b.unusedBits == input[0] as nat && input[0] <= 7
    {
      OctetOf(b.unusedBits);
    }
  }

  lemma OneOctet(x: bv8)
    ensures x <= 7 ==> (x as nat) < 8 && (x as nat) as bv8 == x
  {}

  lemma OctetOf(n: nat)
    requires n < 8
    ensures n as bv8 <= 7 && (n as bv8) as nat == n
  {}

  // ----- the bits that an encoding stands for

  function Length(b: BitString): nat
    requires b.Valid()
  {
    8 * |b.bytes| - b.unusedBits
  }

  /** The parser's check on the last byte makes positions past the end read as zero. */
  lemma UnusedBitsReadZero(b: BitString, i: nat)
    requires b.Valid()
    ensures b.AssertsBit(i) ==> i < Length(b)
  {
    if b.AssertsBit(i) && i >= Length(b) {
      var last := b.bytes[|b.bytes| - 1];
      assert i / 8 == |b.bytes| - 1 && 8 - b.unusedBits <= i % 8;
      LowBitsClear(last, b.unusedBits, i % 8);
    }
  }

  lemma LowBitsClear(x: bv8, n: nat, k: nat)
    requires n < 8 && 8 - n <= k < 8 && x & LowMask(n) == 0
    ensures !Bit(x, k)
  {
    if
    case k == 1 => LowBitClear(x, n, 6);
    case k == 2 => LowBitClear(x, n, 5);
    case k == 3 => LowBitClear(x, n, 4);
    case k == 4 => LowBitClear(x, n, 3);
    case k == 5 => LowBitClear(x, n, 2);
    case k == 6 => LowBitClear(x, n, 1);
    case k == 7 => LowBitClear(x, n, 0);
  }

  lemma LowBitClear(x: bv8, n: nat, j: nat)
    requires j < n < 8 && x & LowMask(n) == 0
    ensures x & (1 << j) == 0
  {
    var m, one := LowMask(n), 1 as bv8 << j;
    MaskHolds(n, j);
    assert x & one == x & (m & one) == (x & m) & one;
  }

  lemma MaskHolds(n: nat, j: nat)
    requires j < n < 8
    ensures LowMask(n) & (1 << j) == 1 << j
  {
    Masks();
    if
    case n == 1 => assert j == 0;
    case n == 2 => assert j in {0, 1};
    case n == 3 => assert j in {0, 1, 2};
    case n == 4 => assert j in {0, 1, 2, 3};
    case n == 5 => assert j in {0, 1, 2, 3, 4};
    case n == 6 => assert j in {0, 1, 2, 3, 4, 5};
    case n == 7 => assert j in {0, 1, 2, 3, 4, 5, 6};
  }

  lemma Masks()
    ensures LowMask(1) == 1 && LowMask(2) == 3 && LowMask(3) == 7 && LowMask(4) == 15
    ensures LowMask(5) == 31 && LowMask(6) == 63 && LowMask(7) == 127
  {}

  /** The bit list a value stands for: `AssertsBit` reads it, and is false beyond its end. */
  ghost predicate StandsFor(b: BitString, bits: seq<bool>)
    requires b.Valid()
  {
    |bits| == Length(b) && forall i: nat :: b.AssertsBit(i) <==> i < |bits| && bits[i]
  }

  /** Every valid value stands for a bit list, and no other value stands for the same one. */
  lemma EncodingIsCanonical(a: BitString, b: BitString, bits: seq<bool>)
    requires a.Valid() && b.Valid() && StandsFor(a, bits) && StandsFor(b, bits)
    ensures a == b && Encoded(a) == Encoded(b)
  {
    assert |a.bytes| == |b.bytes|;
    forall i: nat ensures a.AssertsBit(i) == b.AssertsBit(i) {}
    forall i | 0 <= i < |a.bytes| ensures a.bytes[i] == b.bytes[i] {
      SameByte(a, b, i);
    }
  }

  lemma SameByte(a: BitString, b: BitString, i: nat)
    requires i < |a.bytes| && i < |b.bytes|
    requires forall j: nat :: a.AssertsBit(j) == b.AssertsBit(j)
    ensures a.bytes[i] == b.bytes[i]
  {
    forall k: nat | k < 8 ensures Bit(a.bytes[i], k) == Bit(b.bytes[i], k) {
      assert a.AssertsBit(8 * i + k) == b.AssertsBit(8 * i + k);
      assert (8 * i + k) / 8 == i;
    }
    BitsMakeByte(a.bytes[i], b.bytes[i]);
  }

  lemma BitsMakeByte(x: bv8, y: bv8)
    requires forall k: nat :: k < 8 ==> Bit(x, k) == Bit(y, k)
    ensures x == y
  {
    EightBits(x);
    EightBits(y);
    assert forall k: nat :: k < 8 ==> Bit(x, k) == Bit(y, k);
    assert Bit(x, 0) == Bit(y, 0) && Bit(x, 1) == Bit(y, 1) && Bit(x, 2) == Bit(y, 2) && Bit(x, 3) == Bit(y, 3);
    assert Bit(x, 4) == Bit(y, 4) && Bit(x, 5) == Bit(y, 5) && Bit(x, 6) == Bit(y, 6) && Bit(x, 7) == Bit(y, 7);
  }

  lemma ValueStandsForItsBits(b: BitString)
    requires b.Valid()
    ensures StandsFor(b, seq(Length(b), i requires 0 <= i < Length(b) => b.AssertsBit(i)))
  {
    forall i: nat ensures b.AssertsBit(i) ==> i < Length(b) {
      UnusedBitsReadZero(b, i);
    }
  }

  function MakeByte(b: seq<bool>): bv8
    requires |b| == 8
  {
    (if b[0] then 0x80 else 0) | (if b[1] then 0x40 else 0) | (if b[2] then 0x20 else 0) | (if b[3] then 0x10 else 0)
    | (if b[4] then 8 else 0) | (if b[5] then 4 else 0) | (if b[6] then 2 else 0) | (if b[7] then 1 else 0)
  }

  lemma MadeByteBits(b: seq<bool>)
    requires |b| == 8
    ensures forall k: nat :: k < 8 ==> Bit(MakeByte(b), k) == b[k]
  {
    EightBits(MakeByte(b));
  }

  /** The padding with zeros up to a whole number of bytes. */
  function Padded(bits: seq<bool>): (p: seq<bool>)
    ensures |p| % 8 == 0
  {
    bits + seq((8 - |bits| % 8) % 8, i => false)
  }

  function Octet(p: seq<bool>, i: nat): bv8
    requires 8 * i + 8 <= |p|
  {
    MakeByte(p[8 * i..8 * i + 8])
  }

  /** The encoding of a bit list: eight to a byte. */
  function FromBits(bits: seq<bool>): BitString {
    var p := Padded(bits);
    BitString(seq(|p| / 8, i requires 0 <= i < |p| / 8 => Octet(p, i)), |p| - |bits|)
  }

  /** Every bit list has an encoding, so parsing is onto: with `EncodingIsCanonical`, one to one. */
  lemma EveryBitListIsEncoded(bits: seq<bool>)
    ensures FromBits(bits).Valid() && StandsFor(FromBits(bits), bits)
  {
    EncodedIsValid(bits);
    var b, p := FromBits(bits), Padded(bits);
    forall i: nat
      ensures b.AssertsBit(i) <==> i < |bits| && bits[i]
    {
      if i < |p| { PaddedBit(p, i); }
    }
  }

  lemma EncodedIsValid(bits: seq<bool>)
    ensures FromBits(bits).Valid()
  {
    var b, p := FromBits(bits), Padded(bits);
    if b.bytes != [] {
      var n := |b.bytes|;
      assert p[8 * (n - 1)..8 * (n - 1) + 8] == p[|p| - 8..];
      LastByteClear(p[|p| - 8..], b.unusedBits);
    }
  }

  lemma PaddedBit(p: seq<bool>, i: nat)
    requires |p| % 8 == 0 && i < |p|
    ensures Bit(Octet(p, i / 8), i % 8) == p[i]
  {
    MadeByteBits(p[8 * (i / 8)..8 * (i / 8) + 8]);
  }

  lemma LastByteClear(b: seq<bool>, n: nat)
    requires |b| == 8 && n < 8 && forall k :: 8 - n <= k < 8 ==> !b[k]
    ensures MakeByte(b) & LowMask(n) == 0
  {
    Masks();
    if
    case n == 0 => assert LowMask(0) == 0;
    case n == 1 => assert MakeByte(b) & 1 == 0;
    case n == 2 => assert MakeByte(b) & 3 == 0;
    case n == 3 => assert MakeByte(b) & 7 == 0;
    case n == 4 => assert MakeByte(b) & 15 == 0;
    case n == 5 => assert MakeByte(b) & 31 == 0;
    case n == 6 => assert MakeByte(b) & 63 == 0;
    case n == 7 => assert MakeByte(b) & 127 == 0;
  }
}
