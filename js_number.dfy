/**
 * The parts of JavaScript's Number semantics the contract relies on: the
 * 32-bit bitwise operators (`^`, `<<`, `>>`), `Math.abs` and
 * `Number.prototype.toString(36)`, for the integral values it applies them to.
 */
module JsNumber {

  import Bits
  import opened JsText

  const TwoTo31: int := 0x8000_0000
  const TwoTo32: int := 0x1_0000_0000

  /** The range of ToInt32: what every bitwise operator returns. */
  predicate IsInt32(v: int)
  {
    -TwoTo31 <= v < TwoTo31
  }

  /** ToUint32 of an integral Number: its residue modulo 2^32. */
  function ToUint32(n: int): (u: nat)
    ensures u < TwoTo32
  {
    n % TwoTo32
  }

  /** Reads a 32-bit pattern as a two's-complement int32. */
  function FromUint32(u: nat): (v: int)
    requires u < TwoTo32
    ensures IsInt32(v)
    ensures ToUint32(v) == u
  {
    if u < TwoTo31 then u else u - TwoTo32
  }

  /** ToInt32 of an integral Number: the int32 congruent to it modulo 2^32. */
  function ToInt32(n: int): (v: int)
    ensures IsInt32(v)
  {
    FromUint32(ToUint32(n))
  }

  /** ToInt32 lands on a value congruent to its argument modulo 2^32 and keeps every int32 unchanged. */
  lemma ToInt32Congruent(n: int)
    ensures (ToInt32(n) - n) % TwoTo32 == 0
    ensures IsInt32(n) ==> ToInt32(n) == n
  {
  }

  /** `a ^ b`: the XOR of the two 32-bit patterns, read as an int32. */
  function Xor(a: int, b: int): (v: int)
    ensures IsInt32(v)
  {
    var u, w := ToUint32(a), ToUint32(b);
    Bits.XorBelow32(u, w);
    FromUint32(Bits.Xor(u, w))
  }

  /** `a << k`: ToInt32(a) shifted left by k mod 32 bits, the bits above 32 dropped. */
  function ShiftLeft(a: int, k: nat): (v: int)
    ensures IsInt32(v)
  {
    ToInt32(ToInt32(a) * Bits.Pow2(k % 32))
  }

  /** `a >> k`: the sign-propagating shift of ToInt32(a) by k mod 32 bits, floor division by 2^(k mod 32). */
  function ShiftRight(a: int, k: nat): (v: int)
    ensures IsInt32(v)
    ensures v < 0 <==> ToInt32(a) < 0
  {
    var n, p := ToInt32(a), Bits.Pow2(k % 32);
    DivisionBounds(n, p);
    n / p
  }

  /** q * p >= q for q >= 0 and p >= 1. */
  lemma {:induction false} ProductBound(q: nat, p: nat)
    requires p >= 1
    ensures q * p >= q
    decreases p
  {
    if p > 1 {
      ProductBound(q, p - 1);
      assert q * p == q * (p - 1) + q;
    }
  }

  /** Floor division by a positive divisor keeps the sign and does not grow the magnitude. */
  lemma DivisionBounds(n: int, p: nat)
    requires p >= 1
    ensures n >= 0 ==> 0 <= n / p <= n
    ensures n < 0 ==> n <= n / p < 0
  {
    var q, r := n / p, n % p;
    assert n == q * p + r;
    if q >= 0 {
      ProductBound(q, p);
    } else {
      MoreFactor(-q, p);
      MoreFactor(-q, p - 1);
      assert (-q) * p == -(q * p);
      assert (-q) * (p - 1) == -(q * p) + q;
    }
  }

  /** q * p >= p for q >= 1. */
  lemma MoreFactor(q: nat, p: nat)
    requires q >= 1
    ensures q * p >= p
  {
    if p > 0 { ProductBound(p, q); }
  }

  /** `Math.abs`. */
  function Abs(v: int): (r: nat)
    ensures r == v || r == -v
  {
    if v < 0 then -v else v
  }

  /** `^` is commutative. */
  lemma XorCommutes(a: int, b: int)
    ensures Xor(a, b) == Xor(b, a)
  {
    Bits.XorCommutes(ToUint32(a), ToUint32(b));
  }

  /** `^` with the same operand twice gives back the ToInt32 of the first. */
  lemma XorTwice(a: int, b: int)
    ensures Xor(Xor(a, b), b) == ToInt32(a)
  {
    Bits.XorCancel(ToUint32(a), ToUint32(b));
  }

  /** `^` depends on its operands only through their ToInt32. */
  lemma XorWraps(a: int, b: int)
    ensures Xor(a, b) == Xor(ToInt32(a), ToInt32(b))
  {
  }

  const Minus: CodeUnit := 45

  /** The base-36 digit for d: '0'..'9' then 'a'..'z'. */
  function Digit36(d: nat): CodeUnit
    requires d < 36
  {
    if d < 10 then 48 + d else 87 + d
  }

  predicate IsDigit36(u: CodeUnit)
  {
    48 <= u <= 57 || 97 <= u <= 122
  }

  /** The digits of n in base 36, most significant first, with no leading zero. */
  function Digits36(n: nat): (t: Text)
    ensures |t| >= 1
    ensures forall i :: 0 <= i < |t| ==> IsDigit36(t[i])
    ensures n >= 36 ==> t[0] != 48
    decreases n
  {
    if n < 36 then [Digit36(n)] else Digits36(n / 36) + [Digit36(n % 36)]
  }

  /** `v.toString(36)` for an integral v: a '-' for negatives, then the digits of |v|. */
  function ToString36(v: int): (t: Text)
    ensures |t| >= 1
    ensures forall i :: 0 <= i < |t| ==> IsDigit36(t[i]) || t[i] == Minus
    ensures v < 0 <==> t[0] == Minus
  {
    if v < 0 then [Minus] + Digits36(-v) else Digits36(v)
  }

  /** The value of a base-36 digit. */
  function DigitValue(u: CodeUnit): int
  {
    if u <= 57 then u - 48 else u - 87
  }

  /** The value of a string of base-36 digits. */
  function DigitsValue(t: Text): int
  {
    if t == [] then 0 else DigitsValue(t[..|t| - 1]) * 36 + DigitValue(t[|t| - 1])
  }

  /** Reads back what ToString36 writes: a leading '-' negates the digits' value. */
  function Parse36(t: Text): int
  {
    if |t| > 0 && t[0] == Minus then -DigitsValue(t[1..]) else DigitsValue(t)
  }

  lemma {:induction false} DigitsRoundTrip(n: nat)
    ensures DigitsValue(Digits36(n)) == n
    decreases n
  {
    var t := Digits36(n);
    if n < 36 {
      assert t[..0] == [];
    } else {
      DigitsRoundTrip(n / 36);
      assert t[..|t| - 1] == Digits36(n / 36);
    }
  }

  /** toString(36) loses nothing: parsing it back gives the Number. */
  lemma ToString36RoundTrip(v: int)
    ensures Parse36(ToString36(v)) == v
  {
    if v < 0 {
      DigitsRoundTrip(-v);
      assert ([Minus] + Digits36(-v))[1..] == Digits36(-v);
    } else {
      DigitsRoundTrip(v);
    }
  }
}
