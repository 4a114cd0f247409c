/** Byte strings (`input.h`): the lexicographic order, and the reader that consumes one byte at a time. */
module Input {

  type u8 = x: int | 0 <= x < 0x100

  type Bytes = seq<u8>

  /** The order as it is meant: at the first difference, or as a proper prefix. */
  ghost predicate Precedes(a: Bytes, b: Bytes) {
    exists i: nat :: i <= |a| && i < |b| && a[..i] == b[..i] && (i == |a| || a[i] < b[i])
  }

  predicate Less(a: Bytes, b: Bytes) {
    if b == [] then false
    else if a == [] then true
    else if a[0] != b[0] then a[0] < b[0]
    else Less(a[1..], b[1..])
  }

  /** `operator<`: two pointers advance while the bytes agree. */
  method LessThan(lhs: Bytes, rhs: Bytes) returns (r: bool)
    ensures r <==> Precedes(lhs, rhs)
    ensures r <==> Less(lhs, rhs)
  {
    LessIsPrecedes(lhs, rhs);
    var i := 0;
    while i != |lhs| && i != |rhs|
      invariant i <= |lhs| && i <= |rhs|
      invariant Less(lhs, rhs) == Less(lhs[i..], rhs[i..])
      decreases |lhs| - i
    {
      if lhs[i] < rhs[i] {
        return true;
      } else if rhs[i] < lhs[i] {
        return false;
      }
      assert lhs[i..][1..] == lhs[i + 1..] && rhs[i..][1..] == rhs[i + 1..];
      i := i + 1;
    }
    return i != |rhs|;
  }

  lemma {:induction false} LessIsPrecedes(a: Bytes, b: Bytes)
    ensures Less(a, b) <==> Precedes(a, b)
  {
    if b == [] {
    } else if a == [] {
      assert a[..0] == b[..0];
    } else if a[0] != b[0] {
      assert a[..0] == b[..0];
      forall i: nat | 0 < i <= |a| && i < |b| ensures a[..i] != b[..i] {
        assert a[..i][0] != b[..i][0];
      }
    } else {
      LessIsPrecedes(a[1..], b[1..]);
      TailPrecedes(a, b);
    }
  }

  lemma TailPrecedes(a: Bytes, b: Bytes)
    requires a != [] && b != [] && a[0] == b[0]
    ensures Precedes(a[1..], b[1..]) <==> Precedes(a, b)
  {
    if Precedes(a[1..], b[1..]) {
      var i: nat :| i <= |a[1..]| && i < |b[1..]| && a[1..][..i] == b[1..][..i]
          && (i == |a[1..]| || a[1..][i] < b[1..][i]);
      assert a[..i + 1] == [a[0]] + a[1..][..i] && b[..i + 1] == [b[0]] + b[1..][..i];
    }
    if Precedes(a, b) {
      var i: nat :| i <= |a| && i < |b| && a[..i] == b[..i] && (i == |a| || a[i] < b[i]);
      assert i > 0;
      assert a[1..][..i - 1] == a[..i][1..] && b[1..][..i - 1] == b[..i][1..];
    }
  }

  /** The order is strict and total, and agrees with byte-wise equality. */
  lemma {:induction false} LessTotal(a: Bytes, b: Bytes)
    ensures !Less(a, a)
    ensures !(Less(a, b) && Less(b, a))
    ensures Less(a, b) || Less(b, a) || a == b
  {
    if a != [] {
      if b != [] {
        LessTotal(a[1..], b[1..]);
        assert a == [a[0]] + a[1..] && b == [b[0]] + b[1..];
      } else {
        LessTotal(a[1..], []);
      }
    }
  }

  lemma {:induction false} LessTransitive(a: Bytes, b: Bytes, c: Bytes)
    requires Less(a, b) && Less(b, c)
    ensures Less(a, c)
  {
    if a != [] && a[0] == b[0] == c[0] {
      LessTransitive(a[1..], b[1..], c[1..]);
    }
  }

  /** Fields of equal width compare one after the other. */
  lemma {:induction false} LessConcat(a: Bytes, b: Bytes, c: Bytes, d: Bytes)
    requires |a| == |c|
    ensures Less(a + b, c + d) <==> Less(a, c) || (a == c && Less(b, d))
  {
    if a == [] {
      assert a + b == b && c + d == d;
    } else {
      assert (a + b)[1..] == a[1..] + b && (c + d)[1..] == c[1..] + d;
      assert a == [a[0]] + a[1..] && c == [c[0]] + c[1..];
      LessConcat(a[1..], b, c[1..], d);
    }
  }

  class ByteReader {
    var data: Bytes

    constructor (input: Bytes)
      ensures data == input
    {
      data := input;
    }

    method ReadByte() returns (ok: bool, byte: u8)
      modifies this
      ensures ok <==> old(data) != []
      ensures if ok then byte == old(data)[0] && data == old(data)[1..] else data == old(data)
    {
      if data == [] {
        return false, 0;
      }
      ok, byte, data := true, data[0], data[1..];
    }
  }
}
