/**
 * The contract's pseudo-random generator `_random` (an xorshift128+-shaped
 * step under JavaScript's 32-bit operators) and the key strings
 * `_generateKey` renders from its draws.
 */
module Rng {

  import opened JsText
  import opened JsNumber

  /** The stored pair `seed.get("data")`: `[seed[0], seed[1]]`. */
  datatype Seed = Seed(first: int, second: int)

  /** The state after one `_random` call and the Number the call returns. */
  datatype Draw = Draw(seed: Seed, value: int)

  /**
   * One `_random` step. `seed[0]` takes the old `seed[1]` as stored (not
   * wrapped to 32 bits); the new `seed[1]` comes out of the bitwise operators
   * and so is an int32; the result adds the new `seed[1]` to the unwrapped old one.
   */
  function Next(s: Seed): (d: Draw)
    ensures d.seed.first == s.second
    ensures IsInt32(d.seed.second)
    ensures d.value == d.seed.second + s.second
  {
    var x, y := s.first, s.second;
    var x1 := Xor(x, ShiftLeft(x, 23));
    var y1 := Xor(Xor(Xor(x1, y), ShiftRight(x1, 17)), ShiftRight(y, 26));
    Draw(Seed(y, y1), y1 + y)
  }

  /**
   * What the key loop needs of a generator: a step from a state to the next
   * state and a drawn Number. The contract's generator is `Next`; the
   * functions and lemmas below hold for every step.
   */
  type Generator = Seed -> Draw

  /** The state after n draws. */
  function Advance(next: Generator, s: Seed, n: nat): Seed
    decreases n
  {
    if n == 0 then s else Advance(next, next(s).seed, n - 1)
  }

  /** Draws compose: n draws after m draws are m + n draws. */
  lemma {:induction false} AdvanceAdds(next: Generator, s: Seed, m: nat, n: nat)
    ensures Advance(next, s, m + n) == Advance(next, Advance(next, s, m), n)
    decreases m
  {
    if m > 0 {
      AdvanceAdds(next, next(s).seed, m - 1, n);
    }
  }

  /** After two draws of `Next` both words of the state are int32, whatever the seed was. */
  lemma {:induction false} StateIsInt32AfterTwoDraws(s: Seed, n: nat)
    requires n >= 2
    ensures IsInt32(Advance(Next, s, n).first) && IsInt32(Advance(Next, s, n).second)
    decreases n
  {
    if n > 2 {
      StateIsInt32AfterTwoDraws(Next(s).seed, n - 1);
    } else {
      assert Advance(Next, s, n) == Next(Next(s).seed).seed;
    }
  }

  /**
   * With a seed from `init`'s range the first draw lies above 2^32: the return
   * value adds the unwrapped `seed[1]`, which a 32-bit reading would lose.
   */
  lemma FirstDrawUnwrapped(s: Seed)
    requires 10_000_000_000 <= s.second
    ensures Next(s).value > TwoTo32
    ensures Next(s).value != Next(s).seed.second + ToInt32(s.second)
  {
  }

  /** The text the key loop accumulates from k draws: their base-36 renderings, concatenated. */
  function Rendered(next: Generator, s: Seed, k: nat): (t: Text)
    ensures |t| >= k
    ensures forall i :: 0 <= i < |t| ==> IsDigit36(t[i]) || t[i] == Minus
    decreases k
  {
    if k == 0 then [] else ToString36(next(s).value) + Rendered(next, next(s).seed, k - 1)
  }

  /** Text rendered so far, the state, and how many draws it took. */
  datatype KeyDraw = KeyDraw(text: Text, seed: Seed, draws: nat)

  /**
   * The `while (result.length < length)` loop of `_generateKey`, from the text
   * `acc` and state `s`: it draws until the text is at least `length` long.
   */
  function Accumulate(next: Generator, s: Seed, acc: Text, length: int): (r: KeyDraw)
    ensures r.text == acc + Rendered(next, s, r.draws)
    ensures r.seed == Advance(next, s, r.draws)
    ensures |r.text| >= length
    ensures r.draws == 0 <==> |acc| >= length
    ensures r.draws > 0 ==> |acc + Rendered(next, s, r.draws - 1)| < length
    decreases length - |acc|
  {
    if |acc| >= length then KeyDraw(acc, s, 0)
    else
      var d := next(s);
      var r := Accumulate(next, d.seed, acc + ToString36(d.value), length);
      KeyDraw(r.text, r.seed, r.draws + 1)
  }

  /** The loop of `_generateKey` started from the empty text, in terms of the renderings alone. */
  lemma AccumulateFromEmpty(next: Generator, s: Seed, length: int)
    ensures var a := Accumulate(next, s, [], length);
      && a.text == Rendered(next, s, a.draws)
      && a.seed == Advance(next, s, a.draws)
      && |a.text| >= length
      && (a.draws == 0 <==> length <= 0)
      && (a.draws > 0 ==> |Rendered(next, s, a.draws - 1)| < length)
  {
    var a := Accumulate(next, s, [], length);
    assert [] + Rendered(next, s, a.draws) == Rendered(next, s, a.draws);
    if a.draws > 0 {
      assert [] + Rendered(next, s, a.draws - 1) == Rendered(next, s, a.draws - 1);
    }
  }

  /**
   * `_generateKey(length)`: the accumulated text cut to `length - 1` units,
   * with the state and the number of draws it took. The draws are the fewest
   * whose renderings reach `length` units.
   */
  function KeyGen(next: Generator, s: Seed, length: int): (r: KeyDraw)
    ensures |r.text| == if length >= 1 then length - 1 else 0
    ensures forall i :: 0 <= i < |r.text| ==> IsDigit36(r.text[i]) || r.text[i] == Minus
    ensures r.seed == Advance(next, s, r.draws)
    ensures length <= 0 ==> r.draws == 0
    ensures length >= 1 ==> 1 <= r.draws <= length
    ensures r.draws > 0 ==> |Rendered(next, s, r.draws - 1)| < length <= |Rendered(next, s, r.draws)|
    ensures r.text == Rendered(next, s, r.draws)[..|r.text|]
  {
    var a := Accumulate(next, s, [], length);
    AccumulateFromEmpty(next, s, length);
    // `substr(0, length - 1)`: the text is at least `length` long, so only a negative count needs clamping
    var n := if length >= 1 then length - 1 else 0;
    KeyDraw(a.text[..n], a.seed, a.draws)
  }
}
