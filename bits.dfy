/** Fixed-width bit strings, least significant bit first.

    The checksum works on Python integers that it keeps to 64 bits with an
    explicit mask, and on bytes.  Both are modelled here as sequences of
    bits: a `Byte` has 8, a `Word` has 64.  Bit i of a sequence has weight
    2^i, so `Value` gives the unsigned integer a bit string denotes. */
module Bits {

  type Byte = b: seq<bool> | |b| == 8 witness seq(8, _ => false)
  type Word = w: seq<bool> | |w| == 64 witness seq(64, _ => false)

  function Zeros(n: nat): (r: seq<bool>)
    ensures |r| == n
  {
    seq(n, _ => false)
  }

  const ZeroByte: Byte := Zeros(8)
  const ZeroWord: Word := Zeros(64)

  /** Bitwise exclusive or of two bit strings of the same width. */
  function Xor(a: seq<bool>, b: seq<bool>): (r: seq<bool>)
    requires |a| == |b|
    ensures |r| == |a|
  {
    seq(|a|, i requires 0 <= i < |a| => a[i] != b[i])
  }

  lemma XorComm(a: seq<bool>, b: seq<bool>)
    requires |a| == |b|
    ensures Xor(a, b) == Xor(b, a)
  {
  }

  lemma XorAssoc(a: seq<bool>, b: seq<bool>, c: seq<bool>)
    requires |a| == |b| == |c|
    ensures Xor(Xor(a, b), c) == Xor(a, Xor(b, c))
  {
  }

  lemma XorZero(a: seq<bool>)
    ensures Xor(a, Zeros(|a|)) == a
  {
  }

  /** Python's `(w << k) & 0xffffffffffffffff`: bits pushed past bit 63 are lost. */
  function ShiftLeft(w: Word, k: nat): (r: Word)
    requires k < 64
  {
    seq(64, i requires 0 <= i < 64 => if i < k then false else w[i - k])
  }

  /** Python's `w >> k` on a non-negative integer below 2^64. */
  function ShiftRight(w: Word, k: nat): (r: Word)
    requires k <= 64
  {
    seq(64, i requires 0 <= i < 64 => if i + k < 64 then w[i + k] else false)
  }

  /** A byte read as a 64-bit integer. */
  function Widen(b: Byte): (r: Word)
  {
    b + Zeros(56)
  }

  lemma ShiftLeftXor(a: Word, b: Word, k: nat)
    requires k < 64
    ensures ShiftLeft(Xor(a, b), k) == Xor(ShiftLeft(a, k), ShiftLeft(b, k))
  {
  }

  lemma ShiftRightXor(a: Word, b: Word, k: nat)
    requires k <= 64
    ensures ShiftRight(Xor(a, b), k) == Xor(ShiftRight(a, k), ShiftRight(b, k))
  {
  }

  lemma WidenXor(a: Byte, b: Byte)
    ensures Widen(Xor(a, b)) == Xor(Widen(a), Widen(b))
  {
  }

  lemma ShiftZero(k: nat)
    requires k < 64
    ensures ShiftLeft(Widen(ZeroByte), k) == ZeroWord
    ensures ShiftRight(Widen(ZeroByte), k) == ZeroWord
  {
  }

  // ---------------------------------------------------------------------------
  // Numeric reading of bit strings

  function Pow2(n: nat): (r: nat)
    ensures r >= 1
  {
    if n == 0 then 1 else 2 * Pow2(n - 1)
  }

  /** The unsigned integer a bit string denotes (bit i has weight 2^i). */
  function Value(b: seq<bool>): (r: nat)
    ensures r < Pow2(|b|)
  {
    if b == [] then 0 else (if b[0] then 1 else 0) + 2 * Value(b[1..])
  }

  /** The n low bits of x; `FromValue(x, 8)` is Python's byte with value x % 256. */
  function FromValue(x: nat, n: nat): (r: seq<bool>)
    ensures |r| == n
  {
    if n == 0 then [] else [x % 2 == 1] + FromValue(x / 2, n - 1)
  }

  lemma {:induction false} FromValueOfValue(b: seq<bool>)
    ensures FromValue(Value(b), |b|) == b
  {
    if b != [] {
      FromValueOfValue(b[1..]);
      var v := Value(b[1..]);
      assert (Value(b)) / 2 == v;
    }
  }

  lemma {:induction false} ValueOfFromValue(x: nat, n: nat)
    requires x < Pow2(n)
    ensures Value(FromValue(x, n)) == x
  {
    if n > 0 {
      ValueOfFromValue(x / 2, n - 1);
      assert FromValue(x, n)[1..] == FromValue(x / 2, n - 1);
    }
  }

  /** Reading a concatenation: the second part is shifted up by the width of the first. */
  lemma {:induction false} ValueConcat(a: seq<bool>, b: seq<bool>)
    ensures Value(a + b) == Value(a) + Pow2(|a|) * Value(b)
  {
    if a == [] {
      assert a + b == b;
    } else {
      ValueConcat(a[1..], b);
      assert (a + b)[1..] == a[1..] + b;
      var p, v := Pow2(|a| - 1), Value(b);
      assert Pow2(|a|) == 2 * p;
      Double(p, v);
    }
  }

  lemma Double(p: nat, v: nat)
    ensures 2 * (p * v) == (2 * p) * v
  {
  }

  // ---------------------------------------------------------------------------
  // Little-endian byte strings: struct.pack('Q', x) packs in the machine's
  // native byte order, which is this order on little-endian machines

  /** The n-byte little-endian encoding of x modulo 256^n. */
  function LittleEndian(x: nat, n: nat): (r: seq<Byte>)
    ensures |r| == n
  {
    if n == 0 then [] else [FromValue(x % 256, 8)] + LittleEndian(x / 256, n - 1)
  }

  /** The integer a little-endian byte string denotes. */
  function FromLittleEndian(s: seq<Byte>): nat
  {
    if s == [] then 0 else Value(s[0]) + 256 * FromLittleEndian(s[1..])
  }

  /** The bytes of a bit string whose width is a multiple of 8, lowest byte first. */
  function Octets(b: seq<bool>): (r: seq<Byte>)
    requires |b| % 8 == 0
    ensures |r| == |b| / 8
    decreases |b|
  {
    if b == [] then [] else [b[..8]] + Octets(b[8..])
  }

  lemma {:induction false} OctetsAt(b: seq<bool>, j: nat)
    requires |b| % 8 == 0 && j < |b| / 8
    ensures Octets(b)[j] == b[8 * j .. 8 * j + 8]
    decreases |b|
  {
    if j > 0 {
      OctetsAt(b[8..], j - 1);
    }
  }

  lemma {:induction false} LittleEndianRoundTrip(x: nat, n: nat)
    requires x < Pow256(n)
    ensures FromLittleEndian(LittleEndian(x, n)) == x
  {
    if n > 0 {
      LittleEndianRoundTrip(x / 256, n - 1);
      ValueOfFromValue(x % 256, 8);
      assert LittleEndian(x, n)[1..] == LittleEndian(x / 256, n - 1);
    }
  }

  function Pow256(n: nat): (r: nat)
    ensures r >= 1
  {
    if n == 0 then 1 else 256 * Pow256(n - 1)
  }

  lemma Pow2Of8()
    ensures Pow2(8) == 256
  {
    assert Pow2(2) == 4;
    assert Pow2(4) == 16;
    assert Pow2(6) == 64;
  }

  /** Slicing a word into bytes is its little-endian encoding. */
  lemma {:induction false} OctetsAreLittleEndian(b: seq<bool>)
    requires |b| % 8 == 0
    ensures Octets(b) == LittleEndian(Value(b), |b| / 8)
    decreases |b|
  {
    if b != [] {
      var lo, hi := b[..8], b[8..];
      var v := Value(b);
      assert v == Value(lo) + 256 * Value(hi) by {
        assert b == lo + hi;
        ValueConcat(lo, hi);
        Pow2Of8();
      }
      assert Value(lo) < 256 by { Pow2Of8(); }
      SplitByte(v, Value(lo), Value(hi));
      OctetsAreLittleEndian(hi);
      FromValueOfValue(lo);
    }
  }

  lemma SplitByte(v: nat, lo: nat, hi: nat)
    requires lo < 256 && v == lo + 256 * hi
    ensures v % 256 == lo && v / 256 == hi
  {
  }
}
