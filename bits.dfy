/** Bitwise exclusive or on the low bits of non-negative integers, and its algebra. */
module Bits {

  function Pow2(k: nat): (p: nat)
    ensures p >= 1
  {
    if k == 0 then 1 else 2 * Pow2(k - 1)
  }

  /** The two widths the contract uses: UTF-16 code units and 32-bit words. */
  lemma Pow2Widths()
    ensures Pow2(16) == 0x1_0000
    ensures Pow2(32) == 0x1_0000_0000
  {
    assert Pow2(1) == 2;
    assert Pow2(2) == 4;
    assert Pow2(3) == 8;
    assert Pow2(4) == 16;
    assert Pow2(5) == 32;
    assert Pow2(6) == 64;
    assert Pow2(7) == 128;
    assert Pow2(8) == 256;
    assert Pow2(9) == 512;
    assert Pow2(10) == 1024;
    assert Pow2(11) == 2048;
    assert Pow2(12) == 4096;
    assert Pow2(13) == 8192;
    assert Pow2(14) == 16384;
    assert Pow2(15) == 32768;
    assert Pow2(16) == 65536;
    assert Pow2(17) == 131072;
    assert Pow2(18) == 262144;
    assert Pow2(19) == 524288;
    assert Pow2(20) == 1048576;
    assert Pow2(21) == 2097152;
    assert Pow2(22) == 4194304;
    assert Pow2(23) == 8388608;
    assert Pow2(24) == 16777216;
    assert Pow2(25) == 33554432;
    assert Pow2(26) == 67108864;
    assert Pow2(27) == 134217728;
    assert Pow2(28) == 268435456;
    assert Pow2(29) == 536870912;
    assert Pow2(30) == 1073741824;
    assert Pow2(31) == 2147483648;
    assert Pow2(32) == 4294967296;
  }

  /**
   * The bitwise exclusive or of two non-negative integers, built bit by bit
   * from the least significant until both operands run out of bits.
   */
  function Xor(a: nat, b: nat): nat
    decreases a + b
  {
    if a == 0 && b == 0 then 0 else (if Odd(a) != Odd(b) then 1 else 0) + 2 * Xor(a / 2, b / 2)
  }

  /** The lowest bit of x is set. */
  predicate Odd(x: nat)
  {
    x % 2 == 1
  }

  /** Operands of `width` bits give a result of `width` bits. */
  lemma {:induction false} XorBound(a: nat, b: nat, width: nat)
    requires a < Pow2(width) && b < Pow2(width)
    ensures Xor(a, b) < Pow2(width)
  {
    if width > 0 && !(a == 0 && b == 0) {
      XorBound(a / 2, b / 2, width - 1);
    }
  }

  /** XOR of two UTF-16 code units is a code unit. */
  lemma XorBelow16(a: nat, b: nat)
    requires a < 0x1_0000 && b < 0x1_0000
    ensures Xor(a, b) < 0x1_0000
  {
    Pow2Widths();
    XorBound(a, b, 16);
  }

  /** XOR of two 32-bit patterns is a 32-bit pattern. */
  lemma XorBelow32(a: nat, b: nat)
    requires a < 0x1_0000_0000 && b < 0x1_0000_0000
    ensures Xor(a, b) < 0x1_0000_0000
  {
    Pow2Widths();
    XorBound(a, b, 32);
  }

  /** The lowest bit of a XOR and the remaining bits. */
  lemma XorSplit(a: nat, b: nat)
    ensures Odd(Xor(a, b)) == (Odd(a) != Odd(b))
    ensures Xor(a, b) / 2 == Xor(a / 2, b / 2)
  {
  }

  lemma {:induction false} XorCommutes(a: nat, b: nat)
    ensures Xor(a, b) == Xor(b, a)
    decreases a + b
  {
    if !(a == 0 && b == 0) {
      XorCommutes(a / 2, b / 2);
    }
  }

  /** A value is determined by its lowest bit and the rest. */
  lemma Halves(x: nat, y: nat)
    requires Odd(x) == Odd(y) && x / 2 == y / 2
    ensures x == y
  {
  }

  lemma {:induction false} XorAssociates(a: nat, b: nat, c: nat)
    ensures Xor(Xor(a, b), c) == Xor(a, Xor(b, c))
    decreases a + b + c
  {
    if !(a == 0 && b == 0 && c == 0) {
      XorSplit(a, b);
      XorSplit(b, c);
      XorSplit(Xor(a, b), c);
      XorSplit(a, Xor(b, c));
      XorAssociates(a / 2, b / 2, c / 2);
      Halves(Xor(Xor(a, b), c), Xor(a, Xor(b, c)));
    }
  }

  lemma {:induction false} XorSelf(a: nat)
    ensures Xor(a, a) == 0
    decreases a
  {
    if a > 0 {
      XorSelf(a / 2);
    }
  }

  lemma {:induction false} XorZero(a: nat)
    ensures Xor(a, 0) == a
    decreases a
  {
    if a > 0 {
      XorZero(a / 2);
    }
  }

  /** XOR with the same operand twice gives back the first operand. */
  lemma XorCancel(a: nat, b: nat)
    ensures Xor(Xor(a, b), b) == a
  {
    XorAssociates(a, b, b);
    XorSelf(b);
    XorZero(a);
  }
}
