/** Branch-free comparison and selection on 64-bit words, and the masked buffer operations built from
    them (`internal.h`). */
module ConstantTime {

  type Word = bv64

  const ALL_ONES: Word := 0xffff_ffff_ffff_ffff

  function Mask(b: bool): Word {
    if b then ALL_ONES else 0
  }

  function MsbW(a: Word): Word {
    0 - (a >> 63)
  }

  function LtW(a: Word, b: Word): Word {
    MsbW(a ^ ((a ^ b) | ((a - b) ^ a)))
  }

  function GeW(a: Word, b: Word): Word {
    !LtW(a, b)
  }

  function IsZeroW(a: Word): Word {
    MsbW(!a & (a - 1))
  }

  function EqW(a: Word, b: Word): Word {
    IsZeroW(a ^ b)
  }

  function SelectW(mask: Word, a: Word, b: Word): Word {
    (mask & a) | (!mask & b)
  }

  function Select8(mask: Word, a: bv8, b: bv8): bv8 {
    var m := (mask & 0xff) as bv8;
    (m & a) | (!m & b)
  }

  const TOP: Word := 0x8000_0000_0000_0000

  lemma MsbMeans(a: Word, c: bool)
    requires a & TOP == TOP <==> c
    ensures MsbW(a) == Mask(c)
  {}

  lemma TopBitOfLt(a: Word, b: Word)
    ensures (a ^ ((a ^ b) | ((a - b) ^ a))) & TOP == TOP <==> a < b
  {
    if (a ^ b) & TOP == TOP {
      TopBitsDiffer(a, b, a - b);
    } else {
      TopBitOfDifference(a, b);
      TopBitsAgree(a, b, a - b);
    }
  }

  /** If the top bits differ, b's decides, whatever the difference is. */
  lemma TopBitsDiffer(a: Word, b: Word, d: Word)
    requires (a ^ b) & TOP == TOP
    ensures (a ^ ((a ^ b) | (d ^ a))) & TOP == TOP <==> a < b
  {}

  /** If they agree, the difference's decides. */
  lemma TopBitsAgree(a: Word, b: Word, d: Word)
    requires (a ^ b) & TOP != TOP
    ensures (a ^ ((a ^ b) | (d ^ a))) & TOP == TOP <==> d & TOP == TOP
  {}

  lemma TopBitOfDifference(a: Word, b: Word)
    ensures (a ^ b) & TOP == TOP || ((a < b) == ((a - b) & TOP == TOP))
  {}

  lemma TopBitOfZero(a: Word)
    ensures (!a & (a - 1)) & TOP == TOP <==> a == 0
  {}

  lemma XorZero(a: Word, b: Word)
    ensures a ^ b == 0 <==> a == b
  {}

  lemma Complement(c: bool)
    ensures !Mask(c) == Mask(!c)
  {}

  /** The comparisons yield all ones or zero, according to the comparison they name. */
  lemma LtMeans(a: Word, b: Word)
    ensures LtW(a, b) == Mask(a < b)
  {
    TopBitOfLt(a, b);
    MsbMeans(a ^ ((a ^ b) | ((a - b) ^ a)), a < b);
  }

  lemma GeMeans(a: Word, b: Word)
    ensures GeW(a, b) == Mask(!(a < b))
  {
    LtMeans(a, b);
    Complement(a < b);
  }

  lemma IsZeroMeans(a: Word)
    ensures IsZeroW(a) == Mask(a == 0)
  {
    TopBitOfZero(a);
    MsbMeans(!a & (a - 1), a == 0);
  }

  lemma EqMeans(a: Word, b: Word)
    ensures EqW(a, b) == Mask(a == b)
  {
    IsZeroMeans(a ^ b);
    XorZero(a, b);
  }

  /** Selecting by a comparison is a conditional expression. */
  lemma SelectMeans(c: bool, a: Word, b: Word, x: bv8, y: bv8)
    ensures SelectW(Mask(c), a, b) == if c then a else b
    ensures Select8(Mask(c), x, y) == if c then x else y
  {}

  // ----- buffers

  function LowByte(mask: Word): bv8 {
    (mask & 0xff) as bv8
  }

  /** Under all ones the bytes are combined, and combining again takes them away; under zero nothing
      happens. */
  lemma XorByteMeans(x: bv8, y: bv8, c: bool)
    ensures XorByte(x, y, LowByte(Mask(c))) == if c then x ^ y else x
    ensures XorByte(XorByte(x, y, LowByte(Mask(c))), y, LowByte(Mask(c))) == x
  {
    assert LowByte(Mask(true)) == 0xff && LowByte(Mask(false)) == 0;
    XorTwice(x, y);
  }

  lemma XorTwice(x: bv8, y: bv8)
    ensures (x ^ y) ^ y == x
  {}

  const BLOCK := 32

  function XorByte(x: bv8, y: bv8, m: bv8): bv8 {
    x ^ (m & y)
  }

  /** The buffer after its first `n` bytes have been combined. */
  twostate predicate Combined(out: array<bv8>, src: array<bv8>, n: nat, m: bv8)
    requires n <= out.Length && n <= src.Length
    reads out, src
  {
    && (forall j :: 0 <= j < n ==> out[j] == XorByte(old(out[j]), src[j], m))
    && (forall j :: n <= j < out.Length ==> out[j] == old(out[j]))
  }

  /** The blocked form: 32 bytes at a time under a broadcast mask, then the rest byte by byte. It does
      what the byte-by-byte form `MemXor` does. */
  method MemXorBlocked(out: array<bv8>, src: array<bv8>, n: nat, mask: Word)
    requires out != src && n <= out.Length && n <= src.Length
    modifies out
    ensures Combined(out, src, n, LowByte(mask))
  {
    var nVec := n - n % BLOCK;
    XorBlocks(out, src, nVec, LowByte(mask));
    XorBytes(out, src, nVec, n, LowByte(mask));
  }

  /** The byte loop of both forms. */
  method XorBytes(out: array<bv8>, src: array<bv8>, from: nat, n: nat, m: bv8)
    requires out != src && from <= n <= out.Length && n <= src.Length
    modifies out
    ensures forall j :: from <= j < n ==> out[j] == XorByte(old(out[j]), src[j], m)
    ensures forall j :: 0 <= j < from || n <= j < out.Length ==> out[j] == old(out[j])
  {
    for k := from to n
      invariant forall j :: from <= j < k ==> out[j] == XorByte(old(out[j]), src[j], m)
      invariant forall j :: 0 <= j < from || k <= j < out.Length ==> out[j] == old(out[j])
    {
      out[k] := XorByte(out[k], src[k], m);
    }
  }

  method XorBlocks(out: array<bv8>, src: array<bv8>, nVec: nat, m: bv8)
    requires out != src && nVec <= out.Length && nVec <= src.Length && nVec % BLOCK == 0
    modifies out
    ensures Combined(out, src, nVec, m)
  {
    var i := 0;
    while i < nVec
      invariant i <= nVec && (nVec - i) % BLOCK == 0
      invariant Combined(out, src, i, m)
    {
      WholeBlock(nVec - i);
      XorBlock(out, src, i, m);
      i := i + BLOCK;
    }
  }

  lemma WholeBlock(left: nat)
    requires left > 0 && left % BLOCK == 0
    ensures left >= BLOCK && (left - BLOCK) % BLOCK == 0
  {}

  /** One vector operation. */
  method XorBlock(out: array<bv8>, src: array<bv8>, at: nat, m: bv8)
    requires out != src && at + BLOCK <= out.Length && at + BLOCK <= src.Length
    modifies out
    ensures forall j :: at <= j < at + BLOCK ==> out[j] == XorByte(old(out[j]), src[j], m)
    ensures forall j :: 0 <= j < at || at + BLOCK <= j < out.Length ==> out[j] == old(out[j])
  {
    forall j | at <= j < at + BLOCK {
      out[j] := XorByte(out[j], src[j], m);
    }
  }

  method MemXor(out: array<bv8>, src: array<bv8>, n: nat, mask: Word)
    requires out != src && n <= out.Length && n <= src.Length
    modifies out
    ensures Combined(out, src, n, LowByte(mask))
  {
    XorBytes(out, src, 0, n, LowByte(mask));
  }

  /** Copies under a mask of all ones, and leaves the buffer alone under zero. */
  method MemCpy(out: array<bv8>, src: array<bv8>, n: nat, ghost c: bool, mask: Word)
    requires out != src && n <= out.Length && n <= src.Length
    requires mask == Mask(c)
    modifies out
    ensures out[..n] == if c then src[..n] else old(out[..n])
    ensures out[n..] == old(out[n..])
  {
    for k := 0 to n
      invariant forall j :: 0 <= j < k ==> out[j] == if c then src[j] else old(out[j])
      invariant forall j :: k <= j < out.Length ==> out[j] == old(out[j])
    {
      SelectMeans(c, 0, 0, src[k], out[k]);
      out[k] := Select8(mask, src[k], out[k]);
    }
  }
}
