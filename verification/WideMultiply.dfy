/** The double-width mantissa products of the soft-float multiplication
    (plugin-libc/libgcc/fp-bit.c): one bit at a time, from half words, or from a wider type. */
module WideMultiply {
  import opened Powers
  import opened Words

  /** `high` and `low` are the two words, to base `base`, of the product of `x` and `y`. */
  predicate IsWideProduct(base: nat, x: nat, y: nat, high: int, low: int) {
    0 <= high < base && 0 <= low < base && Pair(base, high, low) == x * y
  }

  /** Adding two double words, with the carry read off the wrapped low word. */
  lemma AddPairs(base: nat, h: nat, l: nat, yh: nat, yl: nat)
    requires h < base && l < base && yh < base && yl < base
    requires Pair(base, h, l) + Pair(base, yh, yl) < Times(base, base)
    ensures var low := Wrap(base, l + yl);
      var high := Wrap(base, h + yh + if low < yl then 1 else 0);
      low < base && high < base && Pair(base, high, low) == Pair(base, h, l) + Pair(base, yh, yl)
  {
    WrapOnce(base, l + yl);
    var c := if Wrap(base, l + yl) < yl then 1 else 0;
    var sum := h + yh + c;
    PairSum(base, h, yh, c);
    PairBound(base, sum, l + yl - c * base);
    WrapOnce(base, sum);
  }

  lemma PairSum(base: int, a: int, b: int, c: int)
    ensures (a + b + c) * base == a * base + b * base + c * base
  {
  }

  /** Doubling a double word. */
  lemma ShiftPair(base: nat, yh: nat, yl: nat)
    requires base % 2 == 0 && yh < base && yl < base
    requires 2 * Pair(base, yh, yl) < Times(base, base)
    ensures var high := Wrap(base, yh * 2) + if yl >= base / 2 then 1 else 0;
      var low := Wrap(base, yl * 2);
      low < base && high < base && Pair(base, high, low) == 2 * Pair(base, yh, yl)
  {
    WrapOnce(base, yl * 2);
    var c := if yl >= base / 2 then 1 else 0;
    PairSum(base, yh, yh, c);
    PairSum(base, yh, yh, 0);
    PairBound(base, yh + yh + c, yl * 2 - c * base);
    WrapOnce(base, yh * 2);
  }

  /** The accumulator plus the work that remains. */
  function Remaining(acc: int, x: int, y: int): int {
    acc + x * y
  }

  /** One round of shift and add leaves accumulator plus remaining work unchanged. */
  lemma BitRound(acc: int, x: nat, y: int)
    requires y >= 0
    ensures x % 2 == 1 ==> Remaining(acc + y, x / 2, 2 * y) == Remaining(acc, x, y) >= acc + y
    ensures x % 2 == 0 ==> Remaining(acc, x / 2, 2 * y) == Remaining(acc, x, y)
  {
    var k := x / 2;
    PairSum(y, k, k, x % 2);
    assert k * (2 * y) == 2 * (k * y);
    assert k * y >= 0;
  }

  /** The addend after `bit` doublings still has room for another. */
  lemma AddendFits(n: nat, bit: nat, y0: nat)
    requires bit < n && y0 < Pow2(n)
    ensures 2 * Times(y0, Pow2(bit)) == Times(y0, Pow2(bit + 1)) < Times(Pow2(n), Pow2(n))
  {
    Pow2Monotone(bit + 1, n);
    var p, q, b := Pow2(bit), Pow2(bit + 1), Pow2(n);
    assert q == 2 * p;
    hide Pow2;
    MulAtMost(y0, q, b);
    IntScaleStrict(y0, b, b);
    DoubledFactor(y0, p);
  }

  /** The shift-and-add variant: the addend travels through two words. */
  method MultiplyBits(n: nat, x0: nat, y0: nat) returns (high: nat, low: nat)
    requires n >= 1 && x0 < Pow2(n) && y0 < Pow2(n)
    ensures IsWideProduct(Pow2(n), x0, y0, high, low)
  {
    var base := Pow2(n);
    var x: nat, ylow: nat, yhigh: nat := x0, y0, 0;
    high, low := 0, 0;
    ghost var total := Times(x0, y0);
    ProductBound(x0, y0, base, base);
    assert total == x0 * y0 && total < Times(base, base);
    StartBits(n, x0, y0);
    var bit := 0;
    hide Pow2, Pair, Wrap, Remaining, Times;
    while bit < n
      invariant bit <= n
      invariant high < base && low < base && ylow < base && yhigh < base
      invariant x < Pow2(n - bit)
      invariant Pair(base, yhigh, ylow) == Times(y0, Pow2(bit))
      invariant Remaining(Pair(base, high, low), x, Pair(base, yhigh, ylow)) == total
    {
      AddendFits(n, bit, y0);
      PairNonNegative(base, yhigh, ylow);
      BitRound(Pair(base, high, low), x, Pair(base, yhigh, ylow));
      if x % 2 == 1 {
        AddPairs(base, high, low, yhigh, ylow);
        low := Wrap(base, low + ylow);
        var carry := if low < ylow then 1 else 0;
        high := Wrap(base, high + yhigh + carry);
      }
      ShiftPair(base, yhigh, ylow);
      yhigh := Wrap(base, yhigh * 2);
      if ylow >= base / 2 {
        yhigh := yhigh + 1;
      }
      ylow := Wrap(base, ylow * 2);
      HalveBelow(x, n - bit);
      x := x / 2;
      bit := bit + 1;
    }
    NothingLeft(n, Pair(base, high, low), x, Pair(base, yhigh, ylow));
  }

  lemma StartBits(n: nat, x0: nat, y0: nat)
    requires n >= 1
    ensures Pow2(n) % 2 == 0
    ensures Pair(Pow2(n), 0, y0) == Times(y0, Pow2(0))
    ensures Remaining(Pair(Pow2(n), 0, 0), x0, Pair(Pow2(n), 0, y0)) == Times(x0, y0)
  {
  }

  lemma NothingLeft(n: nat, acc: int, x: nat, y: int)
    requires x < Pow2(n - n)
    ensures Remaining(acc, x, y) == acc
  {
  }

  lemma HalveBelow(x: nat, k: nat)
    requires k >= 1 && x < Pow2(k)
    ensures x / 2 < Pow2(k - 1)
  {
  }

  /** The half-word variant: four products and two carries. */
  method MultiplyHalves(half: nat, x: nat, y: nat) returns (high: nat, low: nat)
    requires half >= 1 && x < half * half && y < half * half
    ensures IsWideProduct(half * half, x, y, high, low)
  {
    HalfProducts(half, x, y);
    ProductBound(x, y, half * half, half * half);
    var nl, nh := Wrap(half, x), Quotient(half, x);
    var ml, mh := Wrap(half, y), Quotient(half, y);
    hide Pair, Wrap, Quotient;
    high, low := SumHalves(half, half * half, ml * nl, mh * nl, ml * nh, mh * nh, x * y);
  }

  lemma HalfProducts(half: nat, x: nat, y: nat)
    requires half >= 1 && x < half * half && y < half * half
    ensures var nl, nh, ml, mh := Wrap(half, x), Quotient(half, x), Wrap(half, y), Quotient(half, y);
      && 0 <= ml * nl < half * half && 0 <= mh * nl < half * half
      && 0 <= ml * nh < half * half && 0 <= mh * nh
      && x * y == mh * nh * (half * half) + (mh * nl + ml * nh) * half + ml * nl
  {
    SplitWord(half, x);
    SplitWord(half, y);
    hide Wrap, Quotient;
    var nl, nh, ml, mh := Wrap(half, x), Quotient(half, x), Wrap(half, y), Quotient(half, y);
    PairBound(half, nh, nl);
    PairBound(half, mh, ml);
    ProductBound(ml, nl, half, half);
    ProductBound(mh, nl, half, half);
    ProductBound(ml, nh, half, half);
    ProductBound(mh, nh, half, half);
    CrossProduct(nh, nl, mh, ml, half);
  }

  lemma CrossProduct(nh: int, nl: int, mh: int, ml: int, half: int)
    ensures (nh * half + nl) * (mh * half + ml) ==
            mh * nh * (half * half) + (mh * nl + ml * nh) * half + ml * nl
  {
    var a, b := nh * half, mh * half;
    assert (a + nl) * (b + ml) == a * b + a * ml + nl * b + nl * ml;
    SquareBase(nh, mh, half);
    assert a * ml == (ml * nh) * half;
    assert nl * b == (mh * nl) * half;
  }

  lemma SquareBase(nh: int, mh: int, half: int)
    ensures (nh * half) * (mh * half) == mh * nh * (half * half)
  {
    assert (nh * half) * (mh * half) == nh * (half * (mh * half)) == nh * (mh * (half * half));
  }

  /** Adding the four half-word products up. */
  method SumHalves(half: nat, base: nat, ppLl: nat, ppHl0: nat, ppLh: nat, ppHh: nat, ghost total: int)
    returns (res2: nat, res0: nat)
    requires half >= 1 && base == half * half
    requires ppLl < base && ppHl0 < base && ppLh < base
    requires total == ppHh * base + (ppHl0 + ppLh) * half + ppLl && total < base * base
    ensures res2 < base && res0 < base && Pair(base, res2, res0) == total
  {
    var ppHl := ppHl0;
    res2, res0 := 0, 0;
    hide Pair, Wrap, Quotient;
    var psHh := Wrap(base, ppHl + ppLh);
    WrapOnce(base, ppHl + ppLh);
    ghost var c1 := if psHh < ppHl then 1 else 0;
    if psHh < ppHl {
      res2 := res2 + half;
    }
    SplitWord(half, psHh);
    ghost var sh, sl := Quotient(half, psHh), Wrap(half, psHh);
    ShiftedHalf(half, sl);
    ppHl := Wrap(half, psHh) * half;
    res0 := Wrap(base, ppLl + ppHl);
    WrapOnce(base, ppLl + ppHl);
    ghost var c0 := if res0 < ppLl then 1 else 0;
    if res0 < ppLl {
      res2 := res2 + 1;
    }
    HalvesSum(half, base, ppLl, ppHl0, ppLh, ppHh, psHh, c1, sh, sl, res0, c0);
    var sum := res2 + Quotient(half, psHh) + ppHh;
    PairIs(base, sum, res0);
    PairBound(base, sum, res0);
    WrapOnce(base, sum);
    res2 := Wrap(base, sum);
  }

  lemma ShiftedHalf(half: nat, sl: nat)
    requires sl < half
    ensures 0 <= sl * half < half * half
  {
    IntScaleStrict(sl, half, half);
  }

  lemma HalvesSum(half: nat, base: nat, ll: nat, hl: nat, lh: nat, hh: nat, ps: nat, c1: nat, sh: int, sl: int, res0: nat, c0: nat)
    requires base == half * half && c1 <= 1
    requires hl + lh == (if c1 == 1 then base else 0) + ps && ps == sh * half + sl
    requires ll + sl * half == (if c0 == 1 then base else 0) + res0 && c0 <= 1
    ensures hh * base + (hl + lh) * half + ll == ((if c1 == 1 then half else 0) + c0 + sh + hh) * base + res0
  {
    var c := if c1 == 1 then half else 0;
    MiddleShifted(half, base, hl + lh, c, sh, sl);
    PairSum(base, c + c0, sh, hh);
    PairSum(base, c, c0, 0);
  }

  lemma MiddleShifted(half: nat, base: nat, sum: nat, c: nat, sh: int, sl: int)
    requires base == half * half
    requires sum == (if c == half then base else 0) + (sh * half + sl) && (c == 0 || c == half)
    ensures sum * half == c * base + sh * base + sl * half
  {
    assert (sh * half) * half == sh * base;
    PairSum(half, sh * half, sl, if c == half then base else 0);
    assert half * base == base * half;
  }
}
