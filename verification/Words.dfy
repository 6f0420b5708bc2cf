/** Machine words to a given base, and pairs of words. */
module Words {
  import opened Powers

  /** `x` reduced to a word: arithmetic wraps around. */
  function Wrap(base: nat, x: int): (r: nat)
    requires base > 0
    ensures r < base
  {
    x % base
  }

  function Quotient(base: nat, x: nat): nat
    requires base > 0
  {
    DivModFacts(x, base);
    x / base
  }

  /** The value of the double word `h:l`. */
  function Pair(base: nat, h: int, l: int): int {
    h * base + l
  }

  function Times(x: int, y: int): int {
    x * y
  }

  /** The signed reading of a word of `b` bits. */
  function ToSigned(b: nat, x: nat): int
    requires b >= 1
  {
    if x < Pow2(b - 1) then x else x - Pow2(b)
  }

  /** The signed values of `b` bits. */
  predicate IsSigned(b: nat, x: int)
    requires b >= 1
  {
    -(Pow2(b - 1) as int) <= x < Pow2(b - 1)
  }

  lemma PairIs(base: nat, h: int, l: int)
    ensures Pair(base, h, l) == h * base + l
  {
  }

  lemma WrapOnce(base: nat, x: int)
    requires base > 0 && -(base as int) <= x < 2 * base
    ensures Wrap(base, x) == if x < 0 then x + base else if x < base then x else x - base
  {
    var k := if x < 0 then -1 else if x < base then 0 else 1;
    DivModUnique(x, base, k, x - k * base);
  }

  /** A word splits into its quotient and remainder by a smaller base. */
  lemma SplitWord(base: nat, x: nat)
    requires base > 0
    ensures x == Quotient(base, x) * base + Wrap(base, x)
  {
    DivModFacts(x, base);
  }

  /** The high word of a double word is bounded by the double word's bound. */
  lemma PairBound(base: nat, h: int, l: int)
    requires base > 0 && 0 <= l
    ensures h * base + l < base * base ==> h < base
    ensures 0 <= h < base && l < base ==> 0 <= h * base + l < base * base
  {
    IntScaleStrictBoth(h, base, base);
    if h >= 0 {
      IntScale(0, h, base);
    }
  }

  lemma ProductBound(x: nat, y: nat, a: nat, b: nat)
    requires x < a && y < b
    ensures 0 <= x * y < a * b
  {
    IntScaleStrict(x, a, b);
    MulAtMost(x, y, b);
    assert x * y >= 0;
  }

  lemma MulAtMost(x: nat, y: nat, b: nat)
    requires y <= b
    ensures x * y <= x * b
  {
    assert x * b == x * y + x * (b - y);
    assert x * (b - y) >= 0;
  }

  lemma TimesNonNegative(x: nat, y: nat)
    ensures Times(x, y) >= 0
  {
  }

  lemma PairNonNegative(base: nat, h: nat, l: nat)
    ensures Pair(base, h, l) >= 0
  {
  }
}
