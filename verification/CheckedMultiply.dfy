/** Signed multiplication of double words that detects overflow without forming the full product
    (plugin-libc/libgcc/libgcc2.c: `__mulvDI3`), for words of any width `w`. */
module CheckedMultiply {
  import opened Powers
  import opened Words
  import opened WordDivision

  datatype Outcome = Product(value: int) | Abort

  /** The signed reading of a word, given half the number of words. */
  function Signed(half: nat, x: nat): int {
    if x < half then x else x - 2 * half
  }

  /** The source's test that a double word is the sign extension of its low word. */
  predicate IsExtended(half: nat, h: nat, l: nat) {
    h == if l >= half then 2 * half - 1 else 0
  }

  /** `h:l` are the words of the signed double word `t`. */
  predicate AreWords(half: nat, t: int, h: nat, l: nat) {
    h < 2 * half && l < 2 * half && t == Pair(2 * half, Signed(half, h), l)
  }

  /** The source's result: the exact product when it is a signed double word. */
  function Expected(half: nat, u: int, v: int): Outcome {
    if -2 * Times(half, half) <= Times(u, v) < 2 * Times(half, half) then Product(Times(u, v)) else Abort
  }

  predicate Congruent(m: nat, a: int, b: int)
    requires m > 0
  {
    Wrap(m, a) == Wrap(m, b)
  }

  lemma CongruentMinus(m: nat, a: int, b: int, c: int)
    requires m > 0 && Congruent(m, a, b)
    ensures Congruent(m, a - c, b - c)
  {
    DivModFacts(a, m);
    DivModFacts(b, m);
    var k := a / m - b / m;
    assert (a / m) * m - (b / m) * m == k * m;
    ModDrop(b - c, k, m);
  }

  lemma CongruentWrap(m: nat, a: int)
    requires m > 0
    ensures Congruent(m, Wrap(m, a), a)
  {
    DivModFacts(a, m);
    DivModUnique(Wrap(m, a), m, 0, Wrap(m, a));
  }

  /** Subtracting from the high word alone. */
  lemma HighMinus(base: nat, h: nat, l: nat, x: nat)
    requires base > 0
    ensures Times(base, base) > 0
    ensures Congruent(Times(base, base), Pair(base, Wrap(base, h - x), l), Pair(base, h, l) - Times(x, base))
  {
    hide Times, Pair;
    DivModFacts(h - x, base);
    var k := (h - x) / base;
    MultiplesOut(base, h, l, x, k);
    CongruentMultiple(Times(base, base), Pair(base, h, l) - Times(x, base), k);
  }

  lemma MultiplesOut(base: nat, h: int, l: int, x: int, k: int)
    ensures base > 0 ==> Times(base, base) > 0
    ensures Pair(base, h - x - k * base, l) == Pair(base, h, l) - Times(x, base) - Times(k, Times(base, base))
  {
    Distribute(h - x, k * base, base);
    Distribute(h, x, base);
    assert (k * base) * base == k * (base * base);
  }

  lemma Distribute(a: int, b: int, c: int)
    ensures (a - b) * c == a * c - b * c
  {
  }

  lemma CongruentMultiple(m: nat, a: int, k: int)
    requires m > 0
    ensures Congruent(m, a - Times(k, m), a)
  {
    ModDrop(a, -k, m);
    assert -k * m == -(k * m);
  }

  /** A double word congruent to a value in signed range has that value's words. */
  lemma WordsOfCongruent(half: nat, h: nat, l: nat, t: int)
    requires half > 0 && h < 2 * half && l < 2 * half && -2 * Times(half, half) <= t < 2 * Times(half, half)
    requires Times(2 * half, 2 * half) > 0 && Congruent(Times(2 * half, 2 * half), Pair(2 * half, h, l), t)
    ensures AreWords(half, t, h, l)
    ensures t >= 0 <==> h < half
  {
    var m := Times(2 * half, 2 * half);
    SquareOfDouble(half);
    PairIsWord(2 * half, h, l);
    WrapOnce(m, Pair(2 * half, h, l));
    WrapOnce(m, t);
    HalfRange(half, h, l);
  }

  lemma SquareOfDouble(half: nat)
    ensures Times(2 * half, 2 * half) == 4 * Times(half, half)
  {
    assert (2 * half) * (2 * half) == 4 * (half * half);
  }

  lemma HalfRange(half: nat, h: nat, l: nat)
    requires half > 0 && l < 2 * half
    ensures Pair(2 * half, h, l) < 2 * Times(half, half) <==> h < half
    ensures Pair(2 * half, h - 2 * half, l) == Pair(2 * half, h, l) - 4 * Times(half, half)
  {
    IntScaleStrictBoth(h, half, 2 * half);
    assert half * (2 * half) == 2 * (half * half);
    assert (h - 2 * half) * (2 * half) == h * (2 * half) - 4 * (half * half);
  }

  /** The sign-extension test finds exactly the values that fit in a word. */
  lemma ExtendedFits(half: nat, t: int, h: nat, l: nat)
    requires half > 0 && AreWords(half, t, h, l)
    ensures IsExtended(half, h, l) <==> -(half as int) <= t < half
    ensures IsExtended(half, h, l) ==> t == Signed(half, l)
    ensures t < 0 <==> h >= half
  {
    var s := Signed(half, h);
    IntScaleStrictBoth(s, 0, 2 * half);
    IntScaleStrictBoth(s, -1, 2 * half);
  }

  /** A double word with the high word `t` fits exactly when `t` fits in a word. */
  lemma HighWordFits(half: nat, t: int, l: nat)
    requires half > 0 && l < 2 * half
    ensures -(half as int) <= t < half <==> -2 * Times(half, half) <= Pair(2 * half, t, l) < 2 * Times(half, half)
  {
    var g: int := -(half as int);
    IntScaleStrictBoth(t, half, 2 * half);
    IntScaleStrictBoth(t, g, 2 * half);
    assert half * (2 * half) == 2 * (half * half);
    assert g * (2 * half) == -2 * (half * half);
  }

  /** The high part of a product of a word and a double word, exactly. */
  function HighPart(half: nat, x: int, xl: nat, y: int, yh: nat, w0h: nat): int {
    Times(xl, Signed(half, yh)) - (if x < 0 then y else 0) + w0h
  }

  lemma HighPartIsExact(half: nat, x: int, xl: nat, y: int, yh: nat, yl: nat, w0h: nat, w0l: nat)
    requires xl < 2 * half && x == Signed(half, xl) && AreWords(half, y, yh, yl)
    requires Pair(2 * half, w0h, w0l) == Times(xl, yl)
    ensures Times(x, y) == Pair(2 * half, HighPart(half, x, xl, y, yh, w0h), w0l)
  {
    var base, s := 2 * half, Signed(half, yh);
    ExpandFactor(xl, s, base, yl);
    ExpandSum(base, Times(xl, s), if x < 0 then y else 0, w0h, w0l);
    hide Pair, Times;
    DropBase(xl, base, y);
  }

  lemma ExpandFactor(x: int, s: int, base: nat, l: int)
    ensures Times(x, Pair(base, s, l)) == Pair(base, Times(x, s), 0) + Times(x, l)
  {
    assert x * (s * base + l) == x * (s * base) + x * l;
    assert x * (s * base) == x * s * base;
  }

  lemma ExpandSum(base: nat, a: int, y: int, h: int, l: int)
    ensures Pair(base, a - y + h, l) == Pair(base, a, 0) - Times(y, base) + Pair(base, h, l)
  {
    assert (a - y + h) * base == a * base - y * base + h * base;
  }

  lemma DropBase(x: int, base: nat, y: int)
    ensures Times(x - base, y) == Times(x, y) - Times(y, base)
    ensures Times(0, base) == 0
  {
    assert (x - base) * y == x * y - y * base;
  }

  lemma HighPartBound(half: nat, x: int, y: int, t: int, l: nat)
    requires half > 0 && -(half as int) <= x < half && -2 * Times(half, half) <= y < 2 * Times(half, half)
    requires l < 2 * half && Times(x, y) == Pair(2 * half, t, l)
    ensures -2 * Times(half, half) <= t < 2 * Times(half, half)
  {
    var p := half * half;
    ProductMagnitude(x, y, half, 2 * p);
    assert half * (2 * p) == p * (2 * half);
    IntScaleStrictBoth(t, p, 2 * half);
    IntScaleStrictBoth(t, -p, 2 * half);
    assert (-p) * (2 * half) == -(p * (2 * half));
    MulAtLeast(half, half, 1);
  }

  lemma ProductMagnitude(x: int, y: int, a: nat, b: nat)
    requires -(a as int) <= x <= a && -(b as int) <= y <= b
    ensures -(a * b) <= x * y <= a * b
  {
    var x', y' := if x < 0 then -x else x, if y < 0 then -y else y;
    MulAtMost2(x', a, y', b);
    assert x * y == x' * y' || x * y == -(x' * y');
  }

  /** A factor that fits in a word, times one that need not. */
  method WordTimesDouble(half: nat, xl: nat, yh: nat, yl: nat, ghost x: int, ghost y: int) returns (r: Outcome)
    requires half > 0 && xl < 2 * half && x == Signed(half, xl) && AreWords(half, y, yh, yl)
    ensures r == Expected(half, x, y)
  {
    hide Times, Pair, Wrap, Congruent;
    var base := 2 * half;
    ghost var m := Times(base, base);
    var w0h, w0l := MultiplyWords(base, xl, yl);
    var w1h, w1l := MultiplyWords(base, xl, yh);
    ghost var t := HighPart(half, x, xl, y, yh, w0h);
    HighMinus(base, w1h, w1l, xl);
    SignedTimes(half, xl, yh);
    CongruentSelf(m, Pair(base, w1h, w1l));
    if yh >= half {
      w1h := Wrap(base, w1h - xl);
    }
    assert Congruent(m, Pair(base, w1h, w1l), Times(xl, Signed(half, yh)));
    if xl >= half {
      ghost var p := Pair(base, w1h, w1l);
      w1h, w1l := SubtractPairs(base, w1h, w1l, yh, yl);
      SubtractSigned(half, y, yh, yl, p, Times(xl, Signed(half, yh)), Pair(base, w1h, w1l));
    }
    ghost var p := Pair(base, w1h, w1l);
    w1h, w1l := AddToPair(base, w1h, w1l, w0h);
    AddCongruent(m, p, t - w0h, w0h, Pair(base, w1h, w1l));
    HighPartIsExact(half, x, xl, y, yh, yl, w0h, w0l);
    SignedRange(half, y, yh, yl);
    HighPartBound(half, x, y, t, w0l);
    WordsOfCongruent(half, w1h, w1l, t);
    ExtendedFits(half, t, w1h, w1l);
    HighWordFits(half, t, w0l);
    if IsExtended(half, w1h, w1l) {
      r := Product(Pair(base, Signed(half, w1l), w0l));
    } else {
      r := Abort;
    }
  }

  lemma CongruentSelf(m: nat, a: int)
    requires m > 0
    ensures Congruent(m, a, a)
  {
  }

  lemma SignedTimes(half: nat, x: nat, yh: nat)
    ensures Times(x, Signed(half, yh)) == Times(x, yh) - (if yh >= half then Times(x, 2 * half) else 0)
  {
    assert x * (yh - 2 * half) == x * yh - x * (2 * half);
  }

  lemma SubtractSigned(half: nat, y: int, yh: nat, yl: nat, p: int, q: int, d: int)
    requires half > 0 && AreWords(half, y, yh, yl)
    requires Times(2 * half, 2 * half) > 0 && Congruent(Times(2 * half, 2 * half), p, q)
    requires d == Wrap(Times(2 * half, 2 * half), p - Pair(2 * half, yh, yl))
    ensures Congruent(Times(2 * half, 2 * half), d, q - y)
  {
    var m := Times(2 * half, 2 * half);
    SquareOfDouble(half);
    HalfRange(half, yh, yl);
    hide Times, Pair;
    CongruentWrap(m, p - Pair(2 * half, yh, yl));
    CongruentMinus(m, p, q, Pair(2 * half, yh, yl));
    ModDrop(q - y, if yh >= half then -1 else 0, m);
  }

  /** Adding a word to a double word, wrapping around. */
  method AddToPair(base: nat, h0: nat, l0: nat, x: nat) returns (h: nat, l: nat)
    requires h0 < base && l0 < base && x < base
    ensures h < base && l < base && Times(base, base) > 0
    ensures Congruent(Times(base, base), Pair(base, h, l), Pair(base, h0, l0) + x)
  {
    WrapOnce(base, l0 + x);
    l := Wrap(base, l0 + x);
    var carry := if l0 + x >= base then 1 else 0;
    WrapOnce(base, h0 + carry);
    h := Wrap(base, h0 + carry);
    hide Wrap;
    assert (h0 + 1) * base == h0 * base + base;
    MulAtLeast(base, base, 1);
    ModDrop(Pair(base, h, l), if h0 + carry == base then 1 else 0, base * base);
  }

  lemma AddCongruent(m: nat, p: int, q: int, x: int, s: int)
    requires m > 0 && Congruent(m, p, q) && Congruent(m, s, p + x)
    ensures Congruent(m, s, q + x)
  {
    CongruentMinus(m, p, q, -x);
  }

  lemma SignedRange(half: nat, y: int, yh: nat, yl: nat)
    requires half > 0 && AreWords(half, y, yh, yl)
    ensures -2 * Times(half, half) <= y < 2 * Times(half, half)
  {
    HighWordFits(half, Signed(half, yh), yl);
  }

  /** Both factors are out of a word's range and not negative. */
  method BothLarge(half: nat, uh: nat, ul: nat, vh: nat, vl: nat, ghost u: int, ghost v: int) returns (r: Outcome)
    requires half > 0 && AreWords(half, u, uh, ul) && AreWords(half, v, vh, vl) && u >= half && v >= half
    ensures r == Expected(half, u, v)
  {
    hide Times, Pair, Wrap, Congruent;
    r := Abort;
    if uh == 0 && vh == 0 {
      var h, l := MultiplyWords(2 * half, ul, vl);
      PairZero(2 * half, ul);
      PairZero(2 * half, vl);
      HalfRange(half, h, l);
      TimesNonNegative(u, v);
      if h < half {
        r := Product(Pair(2 * half, h, l));
      }
    } else {
      TooLarge(half, u, uh, ul, v, vh, vl);
    }
  }

  lemma TooLarge(half: nat, u: int, uh: nat, ul: nat, v: int, vh: nat, vl: nat)
    requires half > 0 && AreWords(half, u, uh, ul) && AreWords(half, v, vh, vl) && u >= half && v >= half
    requires uh != 0 || vh != 0
    ensures Times(u, v) >= 2 * Times(half, half)
  {
    HighWordSize(half, u, uh, ul);
    HighWordSize(half, v, vh, vl);
    if uh != 0 {
      MulAtMost2(2 * half, u, half, v);
    } else {
      MulAtMost2(half, u, 2 * half, v);
    }
    assert 2 * half * half == 2 * (half * half) && half * (2 * half) == 2 * (half * half);
  }

  /** What the high word says about the size of a value out of a word's range. */
  lemma HighWordSize(half: nat, u: int, uh: nat, ul: nat)
    requires half > 0 && AreWords(half, u, uh, ul)
    ensures u >= 0 ==> uh < half && (uh != 0 ==> u >= 2 * half) && (uh == 0 ==> u == ul)
    ensures u < 0 ==> uh >= half && (uh != 2 * half - 1 ==> u < -2 * half) && (uh == 2 * half - 1 ==> u == ul - 2 * half)
  {
    var s := Signed(half, uh);
    IntScaleStrictBoth(s, 0, 2 * half);
    IntScaleStrictBoth(s, -1, 2 * half);
    IntScaleStrictBoth(s, -2, 2 * half);
    if s >= 1 {
      IntScale(1, s, 2 * half);
    }
    if s <= -2 {
      IntScale(s, -2, 2 * half);
    }
  }

  /** One factor above a word's range and one below it. */
  method LargeBySmall(half: nat, uh: nat, ul: nat, vh: nat, vl: nat, ghost u: int, ghost v: int) returns (r: Outcome)
    requires half > 0 && AreWords(half, u, uh, ul) && AreWords(half, v, vh, vl) && u >= half && v < -(half as int)
    ensures r == Expected(half, u, v)
  {
    hide Times, Pair, Wrap, Congruent;
    r := Abort;
    var base := 2 * half;
    HighWordSize(half, u, uh, ul);
    HighWordSize(half, v, vh, vl);
    if uh == 0 && vh == base - 1 {
      var h, l := MultiplyWords(base, ul, vl);
      HighMinus(base, h, l, ul);
      h := Wrap(base, h - ul);
      DropBase(vl, base, ul);
      TimesCommutes(u, v);
      TimesCommutes(ul, vl);
      ProductOfOpposites(half, u, v);
      SquareOfDouble(half);
      NegativeWords(half, h, l, Times(u, v));
      if h >= half {
        r := Product(Pair(base, Signed(half, h), l));
      }
    } else {
      TooSmall(half, u, uh, ul, v, vh, vl);
    }
  }

  lemma TimesCommutes(x: int, y: int)
    ensures Times(x, y) == Times(y, x)
  {
  }

  lemma ProductOfOpposites(half: nat, u: int, v: int)
    requires 0 < u < 2 * half && -2 * half <= v < 0
    ensures -4 * Times(half, half) < Times(u, v) < 0
  {
    var v': nat := -v;
    MulAtMost2(u, 2 * half - 1, v', 2 * half);
    assert u * v == -(u * v');
    assert (2 * half - 1) * (2 * half) == 4 * (half * half) - 2 * half;
    MulAtLeast(u, v', 1);
  }

  /** The words of a negative product: negative as a signed double word exactly when it fits. */
  lemma NegativeWords(half: nat, h: nat, l: nat, p: int)
    requires half > 0 && h < 2 * half && l < 2 * half && -4 * Times(half, half) < p < 0
    requires Times(2 * half, 2 * half) > 0 && Congruent(Times(2 * half, 2 * half), Pair(2 * half, h, l), p)
    ensures h >= half <==> p >= -2 * Times(half, half)
    ensures h >= half ==> Pair(2 * half, Signed(half, h), l) == p
  {
    var m := Times(2 * half, 2 * half);
    SquareOfDouble(half);
    PairIsWord(2 * half, h, l);
    WrapOnce(m, Pair(2 * half, h, l));
    WrapOnce(m, p);
    HalfRange(half, h, l);
  }

  lemma TooSmall(half: nat, u: int, uh: nat, ul: nat, v: int, vh: nat, vl: nat)
    requires half > 0 && AreWords(half, u, uh, ul) && AreWords(half, v, vh, vl) && u >= half && v < -(half as int)
    requires uh != 0 || vh != 2 * half - 1
    ensures Times(u, v) < -2 * Times(half, half)
  {
    hide AreWords, Times;
    HighWordSize(half, u, uh, ul);
    HighWordSize(half, v, vh, vl);
    SmallProduct(half, u, -v);
  }

  lemma SmallProduct(half: nat, u: nat, v: nat)
    requires half > 0 && ((u >= 2 * half && v > half) || (u >= half && v > 2 * half))
    ensures Times(u, 0 - v) < -2 * Times(half, half)
  {
    if u >= 2 * half {
      MulAtMost2(2 * half, u, half + 1, v);
      assert 2 * half * (half + 1) == 2 * (half * half) + 2 * half;
    } else {
      MulAtMost2(half, u, 2 * half + 1, v);
      assert half * (2 * half + 1) == 2 * (half * half) + half;
    }
    assert u * (0 - v) == 0 - u * v;
  }

  /** Both factors are below a word's range. */
  method BothSmall(half: nat, uh: nat, ul: nat, vh: nat, vl: nat, ghost u: int, ghost v: int) returns (r: Outcome)
    requires half > 0 && AreWords(half, u, uh, ul) && AreWords(half, v, vh, vl)
    requires u < -(half as int) && v < -(half as int)
    ensures r == Expected(half, u, v)
  {
    hide Times, Pair, Wrap, Congruent;
    r := Abort;
    var base := 2 * half;
    HighWordSize(half, u, uh, ul);
    HighWordSize(half, v, vh, vl);
    // The conjunction of the two high words is all ones exactly when both are, and the disjunction of the
    // two low words is zero exactly when both are.
    if (uh == base - 1 && vh == base - 1) && (ul != 0 || vl != 0) {
      var h, l := MultiplyWords(base, ul, vl);
      HighMinus(base, h, l, ul);
      h := Wrap(base, h - ul);
      ghost var p := Pair(base, h, l);
      HighMinus(base, h, l, vl);
      h := Wrap(base, h - vl);
      NegativeProduct(half, ul, vl, p, Pair(base, h, l));
      NonNegativeWords(half, h, l, Times(u, v));
      if h < half {
        r := Product(Pair(base, h, l));
      }
    } else {
      TooNegative(half, u, uh, ul, v, vh, vl);
    }
  }

  /** Taking both low words off the high word leaves the product of the two negative factors, up to a whole
      turn. */
  lemma NegativeProduct(half: nat, ul: nat, vl: nat, p: int, r: int)
    requires half > 0 && ul < 2 * half && vl < 2 * half && (ul != 0 || vl != 0)
    requires Times(2 * half, 2 * half) > 0
    requires Congruent(Times(2 * half, 2 * half), p, Times(ul, vl) - Times(ul, 2 * half))
    requires Congruent(Times(2 * half, 2 * half), r, p - Times(vl, 2 * half))
    ensures Congruent(Times(2 * half, 2 * half), r, Times(ul - 2 * half, vl - 2 * half))
    ensures 0 <= Times(ul - 2 * half, vl - 2 * half) < 4 * Times(half, half)
  {
    hide Times, Congruent;
    var base := 2 * half;
    var m := Times(base, base);
    var q := Times(ul, vl) - Times(ul, base);
    CongruentMinus(m, p, q, Times(vl, base));
    NegativesExpanded(base, ul, vl);
    WholeTurn(m, q - Times(vl, base));
    CongruentTransitive(m, r, p - Times(vl, base), q - Times(vl, base), Times(ul - base, vl - base));
    NegativesBound(half, ul, vl);
  }

  lemma WholeTurn(m: nat, a: int)
    requires m > 0
    ensures Congruent(m, a, a + m)
  {
    ModDrop(a, 1, m);
  }

  lemma CongruentTransitive(m: nat, a: int, b: int, c: int, d: int)
    requires m > 0 && Congruent(m, a, b) && Congruent(m, b, c) && Congruent(m, c, d)
    ensures Congruent(m, a, d)
  {
  }

  lemma NegativesExpanded(base: nat, x: int, y: int)
    ensures Times(x - base, y - base) == Times(x, y) - Times(x, base) - Times(y, base) + Times(base, base)
  {
    assert (x - base) * (y - base) == x * (y - base) - base * (y - base);
    assert x * (y - base) == x * y - x * base && base * (y - base) == y * base - base * base;
  }

  lemma NegativesBound(half: nat, ul: nat, vl: nat)
    requires ul < 2 * half && vl < 2 * half && (ul != 0 || vl != 0)
    ensures 0 <= Times(ul - 2 * half, vl - 2 * half) < 4 * Times(half, half)
  {
    SquareOfDouble(half);
    BelowSquare(2 * half - ul, 2 * half - vl, 2 * half);
    hide Times;
    OppositeSigns(2 * half - ul, 2 * half - vl);
  }

  lemma OppositeSigns(x: int, y: int)
    ensures Times(0 - x, 0 - y) == Times(x, y)
  {
  }

  lemma BelowSquare(a: nat, b: nat, base: nat)
    requires a <= base && b <= base && (a < base || b < base)
    ensures 0 <= Times(a, b) < Times(base, base)
  {
    MulAtMost(a, b, base);
    if a < base {
      IntScaleStrict(a, base, base);
    } else {
      IntScaleStrict(b, base, base);
      assert a * b == b * base;
    }
  }

  lemma NonNegativeWords(half: nat, h: nat, l: nat, p: int)
    requires half > 0 && h < 2 * half && l < 2 * half && 0 <= p < 4 * Times(half, half)
    requires Times(2 * half, 2 * half) > 0 && Congruent(Times(2 * half, 2 * half), Pair(2 * half, h, l), p)
    ensures Pair(2 * half, h, l) == p
    ensures h < half <==> p < 2 * Times(half, half)
  {
    var m := Times(2 * half, 2 * half);
    SquareOfDouble(half);
    PairIsWord(2 * half, h, l);
    WrapOnce(m, Pair(2 * half, h, l));
    WrapOnce(m, p);
    HalfRange(half, h, l);
  }

  lemma TooNegative(half: nat, u: int, uh: nat, ul: nat, v: int, vh: nat, vl: nat)
    requires half > 0 && AreWords(half, u, uh, ul) && AreWords(half, v, vh, vl)
    requires u < -(half as int) && v < -(half as int)
    requires uh != 2 * half - 1 || vh != 2 * half - 1 || (ul == 0 && vl == 0)
    ensures Times(u, v) >= 2 * Times(half, half)
  {
    HighWordSize(half, u, uh, ul);
    HighWordSize(half, v, vh, vl);
    var u': nat, v': nat := -u, -v;
    assert u * v == u' * v';
    assert 2 * half * half == 2 * (half * half) && half * (2 * half) == 2 * (half * half);
    if u' >= 2 * half {
      MulAtMost2(2 * half, u', half, v');
    } else {
      MulAtMost2(half, u', 2 * half, v');
    }
  }

  /** The words of a signed double word. */
  lemma WordsOf(w: nat, u: int)
    requires w >= 1 && IsSigned(2 * w, u)
    ensures Pow2(w) == 2 * Pow2(w - 1) && Pow2(2 * w - 1) == 2 * Times(Pow2(w - 1), Pow2(w - 1))
    ensures var x := Wrap(Pow2(2 * w), u);
      AreWords(Pow2(w - 1), u, Quotient(Pow2(w), x), Wrap(Pow2(w), x))
  {
    hide Pow2, Wrap, Quotient, Times, Pair;
    HalvesOf(w);
    var half, x := Pow2(w - 1), Wrap(Pow2(2 * w), u);
    WrapOnce(Pow2(2 * w), u);
    var h, l := Quotient(2 * half, x), Wrap(2 * half, x);
    SplitPair(2 * half, x);
    WordRange(half, h, l);
    HalfRange(half, h, l);
  }

  lemma HalvesOf(w: nat)
    requires w >= 1
    ensures var half := Pow2(w - 1);
      && Pow2(w) == 2 * half
      && Pow2(2 * w - 1) == 2 * Times(half, half) && Pow2(2 * w) == 4 * Times(half, half)
  {
    hide Pow2;
    Pow2Halves(w);
    Pow2Halves(2 * w);
    Pow2Add(w, w - 1);
    assert w + (w - 1) == 2 * w - 1;
    var half := Pow2(w - 1);
    assert (2 * half) * half == 2 * (half * half);
  }

  lemma SplitPair(base: nat, x: nat)
    requires base > 0
    ensures Pair(base, Quotient(base, x), Wrap(base, x)) == x
  {
    SplitWord(base, x);
  }

  lemma WordRange(half: nat, h: nat, l: nat)
    requires half > 0 && Pair(2 * half, h, l) < 4 * Times(half, half)
    ensures h < 2 * half
  {
    IntScaleStrictBoth(h, 2 * half, 2 * half);
    SquareOfDouble(half);
  }

  /** The source's `__mulvDI3`: the exact product when it fits in a signed double word, and abort exactly
      when it does not. */
  method MultiplyChecked(w: nat, u: int, v: int) returns (r: Outcome)
    requires w >= 1 && IsSigned(2 * w, u) && IsSigned(2 * w, v)
    ensures r == if IsSigned(2 * w, u * v) then Product(u * v) else Abort
  {
    hide Pow2, Times, Pair, Wrap, Quotient;
    WordsOf(w, u);
    WordsOf(w, v);
    var base, half := Pow2(w), Pow2(w - 1);
    var uh, ul := Quotient(base, Wrap(Pow2(2 * w), u)), Wrap(base, Wrap(Pow2(2 * w), u));
    var vh, vl := Quotient(base, Wrap(Pow2(2 * w), v)), Wrap(base, Wrap(Pow2(2 * w), v));
    assert Times(u, v) == u * v by { TimesIs(u, v); }
    r := MultiplyByWords(half, uh, ul, vh, vl, u, v);
  }

  lemma TimesIs(x: int, y: int)
    ensures Times(x, y) == x * y
  {
  }

  /** The case split on which factors fit in a word. */
  method MultiplyByWords(half: nat, uh: nat, ul: nat, vh: nat, vl: nat, ghost u: int, ghost v: int) returns (r: Outcome)
    requires half > 0 && AreWords(half, u, uh, ul) && AreWords(half, v, vh, vl)
    ensures r == Expected(half, u, v)
  {
    hide Times, Pair;
    ExtendedFits(half, u, uh, ul);
    ExtendedFits(half, v, vh, vl);
    TimesCommutes(u, v);
    if IsExtended(half, uh, ul) {
      if IsExtended(half, vh, vl) {
        WordByWord(half, u, v);
        r := Product(Times(Signed(half, ul), Signed(half, vl)));
      } else {
        r := WordTimesDouble(half, ul, vh, vl, u, v);
      }
    } else if IsExtended(half, vh, vl) {
      r := WordTimesDouble(half, vl, uh, ul, v, u);
    } else if uh < half {
      if vh < half {
        r := BothLarge(half, uh, ul, vh, vl, u, v);
      } else {
        r := LargeBySmall(half, uh, ul, vh, vl, u, v);
      }
    } else {
      if vh < half {
        r := LargeBySmall(half, vh, vl, uh, ul, v, u);
      } else {
        r := BothSmall(half, uh, ul, vh, vl, u, v);
      }
    }
  }

  lemma WordByWord(half: nat, u: int, v: int)
    requires half > 0 && -(half as int) <= u < half && -(half as int) <= v < half
    ensures -2 * Times(half, half) <= Times(u, v) < 2 * Times(half, half)
  {
    ProductMagnitude(u, v, half, half);
    MulAtLeast(half, half, 1);
  }
}
