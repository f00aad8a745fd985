/**
 Bytes, exclusive or, and the padding methods of the card protocols.
 */
module ByteStrings {
  type Byte = b: int | 0 <= b < 0x100

  type Bytes = seq<Byte>

  function Zeros(n: nat): Bytes {
    seq(n, _ => 0)
  }

  /** `get_short`: two bytes, the higher one first. */
  function GetShort(b: Bytes, at: nat): (n: nat)
    requires at + 2 <= |b|
    ensures n < 0x1_0000
  {
    var high: int, low: int := b[at], b[at + 1];
    high * 256 + low
  }

  /** The length a length byte stands for: `convert_byte`. */
  function LengthOf(b: Byte): (n: nat)
    ensures 1 <= n <= 256 && n % 256 == b
  {
    if b == 0 then 256 else b
  }

  // ---------- buffers ----------

  /** `memcpy` and `arrayCopy`. */
  method CopyInto(dst: array<Byte>, at: nat, src: Bytes)
    requires at + |src| <= dst.Length
    modifies dst
    ensures dst[..at] == old(dst[..at]) && dst[at..at + |src|] == src
    ensures dst[at + |src|..] == old(dst[at + |src|..])
    ensures dst[..at + |src|] == old(dst[..at]) + src
  {
    for i := 0 to |src|
      invariant dst[..at] == old(dst[..at]) && dst[at + i..] == old(dst[at + i..])
      invariant forall j :: 0 <= j < i ==> dst[at + j] == src[j]
    {
      dst[at + i] := src[i];
    }
  }

  // ---------- exclusive or ----------

  /** Bitwise exclusive or of two numbers. */
  function XorNat(a: nat, b: nat): nat {
    if a == 0 then b
    else if b == 0 then a
    else 2 * XorNat(a / 2, b / 2) + (if a % 2 == b % 2 then 0 else 1)
  }

  /** The recurrence also holds where one number is 0. */
  lemma XorNatStep(a: nat, b: nat)
    ensures XorNat(a, b) == 2 * XorNat(a / 2, b / 2) + (if a % 2 == b % 2 then 0 else 1)
  {
  }

  lemma {:induction false} XorNatTwice(a: nat, b: nat)
    ensures XorNat(XorNat(a, b), b) == a
    decreases a + b
  {
    if a + b > 0 {
      var x := XorNat(a, b);
      XorNatTwice(a / 2, b / 2);
      XorNatStep(a, b);
      XorNatStep(x, b);
      hide XorNat;
      assert x / 2 == XorNat(a / 2, b / 2) && (x % 2 == 0 <==> a % 2 == b % 2);
    }
  }

  lemma {:induction false} XorNatBound(a: nat, b: nat, n: nat)
    requires a < Pow2(n) && b < Pow2(n)
    ensures XorNat(a, b) < Pow2(n)
  {
    if a != 0 && b != 0 {
      XorNatBound(a / 2, b / 2, n - 1);
    }
  }

  /** Bit i of a number. */
  function BitOf(n: nat, i: nat): nat
    decreases i
  {
    if i == 0 then n % 2 else BitOf(n / 2, i - 1)
  }

  lemma {:induction false} XorNatBit(a: nat, b: nat, i: nat)
    ensures BitOf(XorNat(a, b), i) == 1 <==> BitOf(a, i) != BitOf(b, i)
    decreases i
  {
    hide XorNat;
    XorNatHalves(a, b);
    BitIsBit(a, i);
    BitIsBit(b, i);
    if i > 0 {
      XorNatBit(a / 2, b / 2, i - 1);
      hide BitOf;
      BitStep(XorNat(a, b), i);
      BitStep(a, i);
      BitStep(b, i);
    }
  }

  lemma BitStep(n: nat, i: nat)
    requires i > 0
    ensures BitOf(n, i) == BitOf(n / 2, i - 1)
  {
  }

  lemma XorNatHalves(a: nat, b: nat)
    ensures XorNat(a, b) / 2 == XorNat(a / 2, b / 2)
    ensures XorNat(a, b) % 2 == if a % 2 == b % 2 then 0 else 1
  {
    XorNatStep(a, b);
    hide XorNat;
  }

  lemma {:induction false} BitIsBit(n: nat, i: nat)
    ensures BitOf(n, i) <= 1
    decreases i
  {
    if i > 0 {
      BitIsBit(n / 2, i - 1);
    }
  }

  lemma {:induction false} XorNatSymmetric(a: nat, b: nat)
    ensures XorNat(a, b) == XorNat(b, a)
    decreases a + b
  {
    if a != 0 && b != 0 {
      XorNatSymmetric(a / 2, b / 2);
    }
  }

  function Pow2(n: nat): nat {
    if n == 0 then 1 else 2 * Pow2(n - 1)
  }

  function Xor(a: Byte, b: Byte): Byte {
    assert Pow2(8) == 256;
    XorNatBound(a, b, 8);
    XorNat(a, b)
  }

  /** Exclusive or of a block with another one; a byte without a partner stays. */
  function XorBlock(a: Bytes, b: Bytes): (c: Bytes)
    ensures |c| == |a|
  {
    seq(|a|, i requires 0 <= i < |a| => if i < |b| then Xor(a[i], b[i]) else a[i])
  }

  lemma XorBlockTwice(a: Bytes, b: Bytes)
    ensures XorBlock(XorBlock(a, b), b) == a
  {
    forall i | 0 <= i < |a| ensures XorBlock(XorBlock(a, b), b)[i] == a[i] {
      if i < |b| {
        XorNatTwice(a[i], b[i]);
      }
    }
  }

  /** Each bit of the exclusive or is set where the bits differ. */
  lemma XorBits(a: Byte, b: Byte, i: nat)
    requires i < 8
    ensures BitOf(Xor(a, b), i) == 1 <==> BitOf(a, i) != BitOf(b, i)
  {
    XorNatBit(a, b, i);
  }

  /** Bytewise, for blocks of the same length. */
  lemma XorBlockBits(a: Bytes, b: Bytes, j: nat, i: nat)
    requires |a| == |b| && j < |a| && i < 8
    ensures BitOf(XorBlock(a, b)[j], i) == 1 <==> BitOf(a[j], i) != BitOf(b[j], i)
  {
    XorBits(a[j], b[j], i);
  }

  /** A block tells different partners apart. */
  lemma XorBlockInjective(a: Bytes, b: Bytes, c: Bytes)
    requires |a| == |b| == |c| && XorBlock(a, b) == XorBlock(a, c)
    ensures b == c
  {
    forall j | 0 <= j < |a| ensures b[j] == c[j] {
      assert XorNat(a[j], b[j]) == XorBlock(a, b)[j] == XorBlock(a, c)[j] == XorNat(a[j], c[j]);
      XorNatSymmetric(a[j], b[j]);
      XorNatSymmetric(a[j], c[j]);
      XorNatTwice(b[j], a[j]);
      XorNatTwice(c[j], a[j]);
    }
  }

  // ---------- padding ----------

  /** Padding method 2 of clause 6.1.2 of ISO/IEC 9797-1: one bit 1, then zeros, to blocks of 8. */
  function PadMethod2(m: Bytes): (p: Bytes)
    ensures |p| % 8 == 0 && |p| == |m| / 8 * 8 + 8
  {
    m + [0x80] + Zeros(7 - |m| % 8)
  }

  /** Takes the padding off again: trailing zeros and the byte 0x80 before them. */
  function UnpadMethod2(p: Bytes): Bytes {
    if p == [] then []
    else if p[|p| - 1] == 0 then UnpadMethod2(p[..|p| - 1])
    else p[..|p| - 1]
  }

  lemma {:induction false} UnpadZeros(m: Bytes, n: nat)
    ensures UnpadMethod2(m + [0x80] + Zeros(n)) == m
  {
    var p := m + [0x80] + Zeros(n);
    if n == 0 {
      assert p == m + [0x80];
    } else {
      assert p[..|p| - 1] == m + [0x80] + Zeros(n - 1);
      UnpadZeros(m, n - 1);
    }
  }

  /** The message, the byte 0x80, and the fewest zeros to a block boundary. */
  lemma PadMethod2Is(m: Bytes)
    ensures var p := PadMethod2(m);
            && |p| % 8 == 0 && |m| < |p| <= |m| + 8
            && p[..|m|] == m && p[|m|] == 0x80 && forall i :: |m| < i < |p| ==> p[i] == 0
  {
  }

  lemma UnpadPad(m: Bytes)
    ensures UnpadMethod2(PadMethod2(m)) == m
  {
    UnpadZeros(m, 7 - |m| % 8);
  }
}
