/** JavaScript strings as the sequences of UTF-16 code units that `charCodeAt` reads. */
module JsText {

  import Bits

  const UnitLimit: nat := 0x1_0000

  /** A UTF-16 code unit: what `charCodeAt` returns and `String.fromCharCode` keeps. */
  type CodeUnit = u: int | 0 <= u < UnitLimit

  /** A JavaScript string, as its sequence of code units. */
  type Text = seq<CodeUnit>

  /**
   * `a ^ b` on two code units. JavaScript computes it on 32 bits, but both
   * operands are below 2^16, so the result is their 16-bit XOR and
   * `String.fromCharCode` keeps it unchanged.
   */
  function Xor16(a: CodeUnit, b: CodeUnit): CodeUnit
  {
    Bits.XorBelow16(a, b);
    Bits.Xor(a, b)
  }

  /** XOR with the same unit twice gives back the first. */
  lemma Xor16Cancel(a: CodeUnit, b: CodeUnit)
    ensures Xor16(Xor16(a, b), b) == a
  {
    Bits.XorCancel(a, b);
  }

  lemma Xor16Commutes(a: CodeUnit, b: CodeUnit)
    ensures Xor16(a, b) == Xor16(b, a)
  {
    Bits.XorCommutes(a, b);
  }

  lemma Xor16Zero(a: CodeUnit)
    ensures Xor16(a, 0) == a
  {
    Bits.XorZero(a);
  }
}
