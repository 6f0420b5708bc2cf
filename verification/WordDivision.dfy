/** Double-word unsigned division from single-word steps (plugin-libc/libgcc/libgcc2.c), for words of
    any width `w`. */
module WordDivision {
  import opened Powers
  import opened Words

  /** The result of a division with remainder. */
  predicate IsDivMod(n: int, d: int, q: int, r: int) {
    0 <= r < d && n == q * d + r
  }

  // The primitives the source takes from longlong.h, by their contracts.

  /** `udiv_qrnnd`: a double word by a word whose top bit is set; the quotient must fit in a word. */
  method DivideWords(w: nat, n1: nat, n0: nat, d: nat) returns (q: nat, r: nat)
    requires w >= 1 && n0 < Pow2(w) && n1 < d < Pow2(w) <= 2 * d
    ensures q < Pow2(w) && r < d && IsDivMod(Pair(Pow2(w), n1, n0), d, q, r)
  {
    var n := n1 * Pow2(w) + n0;
    q, r := Quotient(d, n), Wrap(d, n);
    SplitWord(d, n);
    QuotientFits(Pow2(w), n1, n0, d, q, r);
  }

  lemma QuotientFits(base: nat, n1: nat, n0: nat, d: nat, q: nat, r: nat)
    requires n0 < base && n1 < d && n1 * base + n0 == q * d + r
    ensures q < base
  {
    IntScaleStrict(n1, d, base);
    IntScaleStrictBoth(q, base, d);
    assert d * base == base * d;
  }

  /** `count_leading_zeros` of a word that is not zero. */
  method CountLeadingZeros(w: nat, x: nat) returns (k: nat)
    requires 0 < x < Pow2(w)
    ensures k < w && Times(x, Pow2(k)) < Pow2(w) <= 2 * Times(x, Pow2(k))
  {
    k := 0;
    var y := x;
    assert x * Pow2(0) == x;
    while 2 * y < Pow2(w)
      invariant k < w && y == x * Pow2(k) < Pow2(w)
      decreases Pow2(w) - y
    {
      y := 2 * y;
      DoubledFactor(x, Pow2(k));
      assert Pow2(k + 1) == 2 * Pow2(k);
      ShiftBelowWidth(w, x, k + 1);
      k := k + 1;
    }
  }

  lemma ShiftBelowWidth(w: nat, x: nat, k: nat)
    requires x > 0 && x * Pow2(k) < Pow2(w)
    ensures k < w
  {
    MulAtLeast(Pow2(k), x, 1);
    assert x * Pow2(k) == Pow2(k) * x;
    Pow2Reflects(k, w);
  }

  // Normalization.

  /** The three words of a double word shifted left by `k` bits, as the source forms them. */
  function Shifted2(w: nat, k: nat, h: nat): nat
    requires k <= w
  {
    Shr(h, w - k)
  }

  function Shifted1(w: nat, k: nat, h: nat, l: nat): nat
    requires k <= w
  {
    Wrap(Pow2(w), Times(h, Pow2(k))) + Shr(l, w - k)
  }

  function Shifted0(w: nat, k: nat, l: nat): nat {
    Wrap(Pow2(w), Times(l, Pow2(k)))
  }

  /** A word shifted left splits at the word boundary. */
  lemma ShiftWord(w: nat, k: nat, x: nat)
    requires k <= w && x < Pow2(w)
    ensures Times(x, Pow2(k)) == Pair(Pow2(w), Shr(x, w - k), Wrap(Pow2(w), Times(x, Pow2(k))))
    ensures Shr(x, w - k) < Pow2(k)
    ensures Wrap(Pow2(w), Times(x, Pow2(k))) + Pow2(k) <= Pow2(w)
    ensures Wrap(Pow2(w), Times(x, Pow2(k))) % Pow2(k) == 0
  {
    var p, c, base := Pow2(w - k), Pow2(k), Pow2(w);
    Pow2Split(k, w);
    DivModFacts(x, p);
    hide Pow2;
    SplitShift(p, c, base, x, Shr(x, w - k), Low(x, w - k));
  }

  lemma SplitShift(p: nat, c: nat, base: nat, x: nat, a: nat, b: nat)
    requires p > 0 && c > 0 && base == p * c && x < base && x == a * p + b && b < p
    ensures Times(x, c) == Pair(base, a, Wrap(base, Times(x, c)))
    ensures a < c && Wrap(base, Times(x, c)) + c <= base && Wrap(base, Times(x, c)) % c == 0
  {
    var bc := b * c;
    MulRegroup(a, p, c, b);
    IntScaleStrict(b, p, c);
    assert 0 <= bc;
    DivModUnique(Times(x, c), base, a, bc);
    DivModUnique(bc, c, b, 0);
    IntScaleStrictBoth(a, c, p);
    assert p * c == c * p;
  }

  lemma MulRegroup(a: int, p: int, c: int, b: int)
    ensures (a * p + b) * c == a * (p * c) + b * c
  {
  }

  /** Shifting a double word left by `k` bits, in three words. */
  lemma ShiftPairLeft(w: nat, k: nat, h: nat, l: nat)
    requires k <= w && h < Pow2(w) && l < Pow2(w)
    ensures Shifted2(w, k, h) < Pow2(k)
    ensures Shifted1(w, k, h, l) < Pow2(w) && Shifted0(w, k, l) < Pow2(w)
    ensures Shifted0(w, k, l) % Pow2(k) == 0
    ensures Times(Pair(Pow2(w), h, l), Pow2(k)) ==
      Pair(Pow2(w), Pair(Pow2(w), Shifted2(w, k, h), Shifted1(w, k, h, l)), Shifted0(w, k, l))
  {
    ShiftWord(w, k, h);
    ShiftWord(w, k, l);
    hide Pow2, Wrap, Shr, Times, Pair;
    ShiftedPair(Pow2(w), Pow2(k), h, l, Shifted2(w, k, h), Wrap(Pow2(w), Times(h, Pow2(k))), Shr(l, w - k), Shifted0(w, k, l));
  }

  lemma ShiftedPair(base: nat, c: nat, h: nat, l: nat, h2: nat, h1: nat, l1: nat, l0: nat)
    requires Times(h, c) == Pair(base, h2, h1) && Times(l, c) == Pair(base, l1, l0)
    ensures Times(Pair(base, h, l), c) == Pair(base, Pair(base, h2, h1 + l1), l0)
  {
    assert (h * base + l) * c == (h * c) * base + l * c;
    assert (h2 * base + h1) * base + l1 * base == (h2 * base + (h1 + l1)) * base;
  }

  /** Dividing scaled numbers scales the remainder. */
  lemma Unscale(n: nat, d: nat, c: nat, q: nat, r: nat)
    requires c > 0 && d > 0
    requires IsDivMod(Times(n, c), Times(d, c), q, r)
    ensures r % c == 0 && IsDivMod(n, d, q, r / c)
  {
    var x := n - q * d;
    assert x * c == r by {
      assert (n - q * d) * c == n * c - q * (d * c);
    }
    DivModUnique(r, c, x, 0);
    IntScale(0, x, c);
    IntScale(x, d, c);
  }

  // The normalizing division.

  /** A one-word divisor, shifted so that its top bit is set. */
  lemma NormalizedDivisor(w: nat, k: nat, d: nat)
    requires k <= w && 0 < d && Times(d, Pow2(k)) < Pow2(w)
    ensures Shifted0(w, k, d) == Times(d, Pow2(k)) && Pow2(k) <= Times(d, Pow2(k))
  {
    IntScale(1, d, Pow2(k));
    DivModUnique(Times(d, Pow2(k)), Pow2(w), 0, Times(d, Pow2(k)));
  }

  /** When the quotient has one digit, the shifted dividend has two words, the high one below the
      shifted divisor. */
  lemma OneDigit(base: nat, c: nat, n1: nat, n0: nat, d: nat, h2: nat, h1: nat, h0: nat)
    requires c > 0 && n1 < d && n0 < base && h1 < base && Times(d, c) < base
    requires Times(Pair(base, n1, n0), c) == Pair(base, Pair(base, h2, h1), h0)
    ensures h2 == 0 && h1 < Times(d, c)
  {
    var dc, x := d * c, h2 * base + h1;
    IntScaleStrict(n1, d, base);
    IntScaleStrict(n1 * base + n0, d * base, c);
    assert (d * base) * c == dc * base;
    IntScaleStrictBoth(x, dc, base);
    if h2 >= 1 {
      IntScale(1, h2, base);
    }
  }

  /** Long division by one word, one digit after the other. */
  lemma TwoDigits(base: nat, x: int, n0: int, d: int, q1: int, r1: int, q0: int, r: int)
    requires IsDivMod(x, d, q1, r1) && IsDivMod(Pair(base, r1, n0), d, q0, r)
    ensures IsDivMod(Pair(base, x, n0), d, Pair(base, q1, q0), r)
  {
    assert (q1 * d + r1) * base == (q1 * base) * d + r1 * base;
    assert (q1 * base + q0) * d == (q1 * base) * d + q0 * d;
  }

  lemma TimesOne(n: int)
    ensures Times(n, Pow2(0)) == n
  {
  }

  lemma UnscaleShift(w: nat, n: nat, d: nat, k: nat, q: nat, r: nat)
    requires d > 0 && IsDivMod(Times(n, Pow2(k)), Times(d, Pow2(k)), q, r)
    ensures IsDivMod(n, d, q, Shr(r, k))
  {
    Unscale(n, d, Pow2(k), q, r);
  }

  /** The branch for a divisor of one word above the dividend's high word. */
  method DivideOneDigit(w: nat, n1_: nat, n0_: nat, d: nat) returns (q0: nat, r: nat)
    requires w >= 1 && n0_ < Pow2(w) && n1_ < d < Pow2(w)
    ensures q0 < Pow2(w) && IsDivMod(Pair(Pow2(w), n1_, n0_), d, q0, r)
  {
    var n1, n0, d0 := n1_, n0_, d;
    hide Pow2, Pair, Wrap, Shr, Times, Shifted0, Shifted1, Shifted2, IsDivMod;
    var bm := CountLeadingZeros(w, d0);
    TimesOne(Pair(Pow2(w), n1_, n0_));
    TimesOne(d);
    if bm != 0 {
      ShiftPairLeft(w, bm, n1, n0);
      OneDigit(Pow2(w), Pow2(bm), n1, n0, d0, Shifted2(w, bm, n1), Shifted1(w, bm, n1, n0), Shifted0(w, bm, n0));
      NormalizedDivisor(w, bm, d0);
      PairZero(Pow2(w), Shifted1(w, bm, n1, n0));
      d0 := Shifted0(w, bm, d0);
      n1 := Shifted1(w, bm, n1, n0);
      n0 := Shifted0(w, bm, n0);
    }
    q0, n0 := DivideWords(w, n1, n0, d0);
    PairNonNegative(Pow2(w), n1_, n0_);
    UnscaleShift(w, Pair(Pow2(w), n1_, n0_), d, bm, q0, n0);
    r := Shr(n0, bm);
  }

  lemma PairZero(base: nat, x: nat)
    ensures Pair(base, 0, x) == x
  {
  }

  /** The branch for a divisor of one word at most the dividend's high word. */
  method DivideTwoDigits(w: nat, n1_: nat, n0_: nat, d: nat) returns (q1: nat, q0: nat, r: nat)
    requires w >= 1 && n1_ < Pow2(w) && n0_ < Pow2(w) && 0 < d <= n1_
    ensures q1 < Pow2(w) && q0 < Pow2(w)
    ensures IsDivMod(Pair(Pow2(w), n1_, n0_), d, Pair(Pow2(w), q1, q0), r)
  {
    var n1, n0, d0 := n1_, n0_, d;
    hide Pow2, Pair, Wrap, Shr, Times, Shifted0, Shifted1, Shifted2;
    var bm := CountLeadingZeros(w, d0);
    TimesOne(Pair(Pow2(w), n1_, n0_));
    TimesOne(d);
    ghost var x: int := n1;
    if bm == 0 {
      // the top bit of both words is set: the leading digit is one
      n1 := n1 - d0;
      q1 := 1;
    } else {
      ShiftPairLeft(w, bm, n1, n0);
      NormalizedDivisor(w, bm, d0);
      var n2 := Shifted2(w, bm, n1);
      x := Pair(Pow2(w), n2, Shifted1(w, bm, n1, n0));
      d0 := Shifted0(w, bm, d0);
      n1 := Shifted1(w, bm, n1, n0);
      n0 := Shifted0(w, bm, n0);
      q1, n1 := DivideWords(w, n2, n1, d0);
    }
    ghost var low := n0;
    ghost var r1 := n1;
    assert IsDivMod(x, d0, q1, r1);
    q0, n0 := DivideWords(w, n1, n0, d0);
    TwoDigits(Pow2(w), x, low, d0, q1, r1, q0, n0);
    PairNonNegative(Pow2(w), n1_, n0_);
    PairNonNegative(Pow2(w), q1, q0);
    UnscaleShift(w, Pair(Pow2(w), n1_, n0_), d, bm, Pair(Pow2(w), q1, q0), n0);
    r := Shr(n0, bm);
  }

  /** The one-word divisor without normalization, for targets whose double-by-single division takes any
      divisor. */
  method DivideByWordDirect(w: nat, n1_: nat, n0_: nat, d0: nat) returns (q1: nat, q0: nat, r: nat)
    requires w >= 1 && n1_ < Pow2(w) && n0_ < Pow2(w) && 0 < d0 < Pow2(w)
    ensures q1 < Pow2(w) && q0 < Pow2(w)
    ensures IsDivMod(Pair(Pow2(w), n1_, n0_), d0, Pair(Pow2(w), q1, q0), r)
  {
    var n1, n0 := n1_, n0_;
    hide Pow2, Pair, Wrap, Shr, Times;
    PairZero(Pow2(w), n1_);
    if d0 > n1 {
      q0, n0 := DivideWordsAny(w, n1, n0, d0);
      q1 := 0;
      PairZero(Pow2(w), q0);
    } else {
      q1, n1 := DivideWordsAny(w, 0, n1, d0);
      ghost var r1 := n1;
      q0, n0 := DivideWordsAny(w, n1, n0, d0);
      TwoDigits(Pow2(w), n1_, n0_, d0, q1, r1, q0, n0);
    }
    r := n0;
  }

  /** `udiv_qrnnd` for any divisor above the high word. */
  method DivideWordsAny(w: nat, n1: nat, n0: nat, d: nat) returns (q: nat, r: nat)
    requires n0 < Pow2(w) && n1 < d
    ensures q < Pow2(w) && r < d && IsDivMod(Pair(Pow2(w), n1, n0), d, q, r)
  {
    var n := n1 * Pow2(w) + n0;
    q, r := Quotient(d, n), Wrap(d, n);
    SplitWord(d, n);
    QuotientFits(Pow2(w), n1, n0, d, q, r);
  }

  // A divisor of two words.

  /** `sub_ddmmss`: subtraction of double words, wrapping around. */
  method SubtractPairs(base: nat, a1: nat, a0: nat, b1: nat, b0: nat) returns (h: nat, l: nat)
    requires a1 < base && a0 < base && b1 < base && b0 < base
    ensures h < base && l < base
    ensures Pair(base, h, l) == Wrap(Times(base, base), Pair(base, a1, a0) - Pair(base, b1, b0))
  {
    WrapOnce(base, a0 - b0);
    l := Wrap(base, a0 - b0);
    var borrow := if a0 < b0 then 1 else 0;
    h := if a1 - b1 - borrow < 0 then a1 - b1 - borrow + base else a1 - b1 - borrow;
    BorrowedPair(base, a1, a0, b1, b0, borrow, h, l);
  }

  lemma BorrowedPair(base: nat, a1: nat, a0: nat, b1: nat, b0: nat, borrow: int, h: nat, l: nat)
    requires base > 0 && h < base && l < base
    requires l == a0 - b0 + borrow * base && (borrow == 0 || borrow == 1)
    requires h == a1 - b1 - borrow || h == a1 - b1 - borrow + base
    ensures Times(base, base) > 0
    ensures Pair(base, h, l) == Wrap(Times(base, base), Pair(base, a1, a0) - Pair(base, b1, b0))
  {
    hide Pair, Times;
    PairIsWord(base, h, l);
    var k := if h == a1 - b1 - borrow then 0 else -1;
    BorrowedDifference(base, a1, a0, b1, b0, borrow, k);
    DivModUnique(Pair(base, a1, a0) - Pair(base, b1, b0), Times(base, base), k, Pair(base, h, l));
  }

  lemma BorrowedDifference(base: nat, a1: int, a0: int, b1: int, b0: int, borrow: int, k: int)
    ensures Pair(base, a1, a0) - Pair(base, b1, b0)
         == k * Times(base, base) + Pair(base, a1 - b1 - borrow - k * base, a0 - b0 + borrow * base)
  {
    var c := a1 - b1 - borrow;
    assert c * base == a1 * base - b1 * base - borrow * base;
    assert (c - k * base) * base == c * base - k * (base * base);
  }

  /** `umul_ppmm`: the double-word product of two words. */
  method MultiplyWords(base: nat, x: nat, y: nat) returns (h: nat, l: nat)
    requires x < base && y < base
    ensures h < base && l < base && Pair(base, h, l) == Times(x, y)
  {
    ProductBound(x, y, base, base);
    h, l := Quotient(base, x * y), Wrap(base, x * y);
    SplitWord(base, x * y);
    PairBound(base, h, l);
  }

  lemma PairOrder(base: nat, a1: nat, a0: nat, b1: nat, b0: nat)
    requires a0 < base && b0 < base
    ensures Pair(base, a1, a0) > Pair(base, b1, b0) <==> a1 > b1 || (a1 == b1 && a0 > b0)
  {
    IntScaleStrictBoth(a1, b1, base);
  }

  /** The digit estimated from the divisor's high word: the product that the estimate leaves out is at
      most the whole divisor, so the estimate is at most one too high. */
  lemma EstimateBound(w: nat, k: nat, n2: nat, n1: nat, d1: nat, d0: nat, q: nat, r1: nat)
    requires k < w && n2 < Pow2(k) && n1 < Pow2(w)
    requires d1 < Pow2(w) <= 2 * d1 && d0 < Pow2(w) && d0 % Pow2(k) == 0
    requires IsDivMod(Pair(Pow2(w), n2, n1), d1, q, r1)
    ensures Times(q, d0) <= Times(d1, Pow2(w))
  {
    NormalShift(w, k);
    hide Pow2;
    EstimateDigit(Pow2(w), Pow2(k), n2, n1, d1, q, r1);
    EstimateProduct(Pow2(w), Pow2(k), d1, d0, q);
  }

  /** A shift by `k` leaves room for two of its units in a word, exactly when `k` is the largest. */
  lemma NormalShift(w: nat, k: nat)
    requires k < w
    ensures Pow2(w) % 2 == 0 && (2 * Pow2(k) == Pow2(w) || 4 * Pow2(k) <= Pow2(w))
  {
    assert Pow2(w) == 2 * Pow2(w - 1);
    if k + 1 < w {
      Pow2Monotone(k + 1, w);
      assert Pow2(k + 1) == 2 * Pow2(k);
    }
  }

  lemma EstimateProduct(b: nat, c: nat, d1: nat, d0: nat, q: nat)
    requires c > 0 && (2 * c == b || 4 * c <= b) && q < 2 * c && b <= 2 * d1 && d0 < b && d0 % c == 0
    ensures Times(q, d0) <= Times(d1, b)
  {
    if 4 * c <= b {
      MulAtMost2(q, 2 * c, d0, b);
      IntScale(2 * c, d1, b);
    } else {
      HalfOnly(d0, c);
      MulAtMost2(q, b, d0, c);
      IntScale(c, d1, b);
      assert b * c == c * b;
    }
  }

  lemma EstimateDigit(b: nat, c: nat, n2: nat, n1: nat, d1: nat, q: nat, r1: nat)
    requires n2 < c && n1 < b <= 2 * d1 && b % 2 == 0 && b > 0
    requires IsDivMod(Pair(b, n2, n1), d1, q, r1)
    ensures q < 2 * c
  {
    var h := b / 2;
    IntScaleStrict(n2, c, b);
    MulAtMost(q, h, d1);
    IntScaleStrictBoth(q, 2 * c, h);
    assert 2 * c * h == c * b by {
      assert b == 2 * h;
    }
  }

  lemma MulAtMost2(x: nat, a: nat, y: nat, b: nat)
    requires x <= a && y <= b
    ensures x * y <= a * b
  {
    MulAtMost(x, y, b);
    if b > 0 {
      IntScale(x, a, b);
    }
  }

  lemma HalfOnly(d0: nat, c: nat)
    requires c > 0 && d0 % c == 0 && d0 < 2 * c
    ensures d0 <= c
  {
    DivModFacts(d0, c);
    IntScaleStrictBoth(d0 / c, 2, c);
    IntScaleStrictBoth(d0 / c, 1, c);
  }

  /** The remainder left by the estimated digit, before and after its correction. */
  lemma EstimateRemainder(base: nat, n2: nat, n1: nat, n0: nat, d1: nat, d0: nat, q: nat, r1: nat)
    requires n0 < base && d0 < base
    requires IsDivMod(Pair(base, n2, n1), d1, q, r1)
    requires Times(q, d0) <= Times(d1, base)
    ensures var n, d, p, m := Pair(base, Pair(base, n2, n1), n0), Pair(base, d1, d0), Pair(base, r1, n0), Times(q, d0);
      if m <= p then IsDivMod(n, d, q, p - m) else q >= 1 && IsDivMod(n, d, q - 1, p - m + d)
  {
    var d, p, m := Pair(base, d1, d0), Pair(base, r1, n0), Times(q, d0);
    IntScaleStrict(r1, d1, base);
    assert (q * d1 + r1) * base + n0 == q * d + p - m by {
      DistributeEstimate(q, d1, r1, base, n0, d0);
    }
    assert (q - 1) * d == q * d - d;
  }

  lemma DistributeEstimate(q: int, d1: int, r1: int, base: int, n0: int, d0: int)
    ensures (q * d1 + r1) * base + n0 == q * (d1 * base + d0) + (r1 * base + n0) - q * d0
  {
    assert (q * d1 + r1) * base == q * (d1 * base) + r1 * base;
    assert q * (d1 * base + d0) == q * (d1 * base) + q * d0;
  }

  /** The branch for a divisor of two words: one quotient digit. */
  method DivideByPair(w: nat, n1_: nat, n0_: nat, d1_: nat, d0_: nat) returns (q0: nat, r1: nat, r0: nat)
    requires w >= 1 && n1_ < Pow2(w) && n0_ < Pow2(w) && 0 < d1_ < Pow2(w) && d0_ < Pow2(w)
    ensures q0 < Pow2(w) && r1 < Pow2(w) && r0 < Pow2(w)
    ensures IsDivMod(Pair(Pow2(w), n1_, n0_), Pair(Pow2(w), d1_, d0_), q0, Pair(Pow2(w), r1, r0))
  {
    var n1, n0, d1, d0 := n1_, n0_, d1_, d0_;
    ghost var base := Pow2(w);
    hide Pow2;
    if d1 > n1 {
      q0, r1, r0 := 0, n1, n0;
      SmallDividend(base, n1, n0, d1, d0);
    } else {
      var bm := CountLeadingZeros(w, d1);
      if bm == 0 {
        TimesOne(d1);
        UnitDigit(base, n1, n0, d1, d0);
        if n1 > d1 || n0 >= d0 {
          q0 := 1;
          n1, n0 := SubtractPairs(Pow2(w), n1, n0, d1, d0);
        } else {
          q0 := 0;
        }
        r1, r0 := n1, n0;
      } else {
        q0, r1, r0 := DivideNormalized(w, bm, n1, n0, d1, d0);
      }
    }
  }

  lemma SmallDividend(base: nat, n1: nat, n0: nat, d1: nat, d0: nat)
    requires n1 < d1 && n0 < base
    ensures IsDivMod(Pair(base, n1, n0), Pair(base, d1, d0), 0, Pair(base, n1, n0))
  {
    IntScaleStrict(n1, d1, base);
  }

  /** With the divisor's top bit set, the quotient digit is zero or one. */
  lemma UnitDigit(base: nat, n1: nat, n0: nat, d1: nat, d0: nat)
    requires d1 <= n1 < base <= 2 * d1 && n0 < base && d0 < base
    ensures var n, d := Pair(base, n1, n0), Pair(base, d1, d0);
      if n1 > d1 || n0 >= d0 then Times(base, base) > 0 && IsDivMod(n, d, 1, Wrap(Times(base, base), n - d))
      else IsDivMod(n, d, 0, n)
  {
    hide Times, Pair, Wrap, IsDivMod;
    var n, d := Pair(base, n1, n0), Pair(base, d1, d0);
    UnitBounds(base, n1, n0, d1, d0);
    if n >= d {
      WrapOnce(Times(base, base), n - d);
      UnitQuotient(n, d, 1);
    } else {
      UnitQuotient(n, d, 0);
    }
  }

  lemma UnitBounds(base: nat, n1: nat, n0: nat, d1: nat, d0: nat)
    requires d1 <= n1 < base <= 2 * d1 && n0 < base && d0 < base
    ensures var n, d := Pair(base, n1, n0), Pair(base, d1, d0);
      && (n >= d <==> n1 > d1 || n0 >= d0)
      && 0 <= n < 2 * d && n < Times(base, base) && d >= 0
  {
    hide Times, Pair;
    PairOrder(base, d1, d0, n1, n0);
    PairOrder(base, 2 * d1, 0, n1, n0);
    TwicePair(base, d1, d0);
    PairIsWord(base, n1, n0);
  }

  lemma UnitQuotient(n: int, d: int, q: int)
    requires if q == 1 then d <= n < 2 * d else q == 0 && 0 <= n < d
    ensures IsDivMod(n, d, q, if q == 1 then n - d else n)
  {
  }

  lemma TwicePair(base: nat, d1: nat, d0: nat)
    ensures Pair(base, 2 * d1, 0) <= 2 * Pair(base, d1, d0) && Pair(base, d1, d0) >= 0
    ensures Pair(base, d1, d0) < base * base ==> base > 0
  {
    assert 2 * d1 * base == 2 * (d1 * base);
  }

  lemma ShiftedDivisor(w: nat, k: nat, d1: nat, d0: nat)
    requires k <= w && d1 < Pow2(w) && d0 < Pow2(w) && d1 > 0
    requires Times(d1, Pow2(k)) < Pow2(w) <= 2 * Times(d1, Pow2(k))
    ensures Pair(Pow2(w), Shifted1(w, k, d1, d0), Shifted0(w, k, d0)) == Times(Pair(Pow2(w), d1, d0), Pow2(k))
    ensures Pow2(k) <= Shifted1(w, k, d1, d0) < Pow2(w) <= 2 * Shifted1(w, k, d1, d0)
    ensures Shifted0(w, k, d0) < Pow2(w) && Shifted0(w, k, d0) % Pow2(k) == 0
  {
    ShiftPairLeft(w, k, d1, d0);
    ShiftWord(w, k, d1);
    NormalizedDivisor(w, k, d1);
    assert Shifted2(w, k, d1) == 0 by {
      HighWordClear(Pow2(w), Shr(d1, w - k), Wrap(Pow2(w), Times(d1, Pow2(k))));
    }
    PairZero(Pow2(w), Shifted1(w, k, d1, d0));
  }

  lemma HighWordClear(base: nat, h: nat, l: nat)
    requires Pair(base, h, l) < base
    ensures h == 0
  {
    if h >= 1 {
      IntScale(1, h, base);
    }
  }

  lemma PairIsWord(base: nat, h: nat, l: nat)
    requires h < base && l < base
    ensures 0 <= Pair(base, h, l) < Times(base, base)
  {
    PairBound(base, h, l);
  }

  /** The remainder survives the wrap-around of the two double-word subtractions. */
  lemma WrappedDifference(bb: nat, p: int, m: int, d: int, m': int, rest: int)
    requires 0 <= rest < bb
    requires (m' == m && rest == p - m) || (m' == Wrap(bb, m - d) && rest == p - m + d)
    ensures Wrap(bb, p - m') == rest
  {
    if rest == p - m' {
      DivModUnique(rest, bb, 0, rest);
    } else {
      DivModFacts(m - d, bb);
      var k := (m - d) / bb;
      DivModUnique(p - m', bb, k, rest);
    }
  }

  /** Shifting a double word right by `k` bits, as the source forms its two words. */
  lemma ShiftPairRight(w: nat, k: nat, h: nat, l: nat)
    requires 1 <= k < w && h < Pow2(w) && l < Pow2(w) && Pair(Pow2(w), h, l) >= 0
    ensures Wrap(Pow2(w), Times(h, Pow2(w - k))) + Shr(l, k) < Pow2(w) && Shr(h, k) < Pow2(w)
    ensures Pair(Pow2(w), Shr(h, k), Wrap(Pow2(w), Times(h, Pow2(w - k))) + Shr(l, k)) == Shr(Pair(Pow2(w), h, l), k)
  {
    ShiftWord(w, w - k, h);
    assert w - (w - k) == k;
    var base, c, p := Pow2(w), Pow2(k), Pow2(w - k);
    Pow2Split(k, w);
    Pow2Monotone(k, w);
    Pow2Monotone(w - k, w);
    DivModFacts(l, c);
    hide Pow2;
    IntScaleStrictBoth(l / c, p, c);
    RightPair(base, c, p, h, l);
  }

  lemma RightPair(base: nat, c: nat, p: nat, h: nat, l: nat)
    requires c > 0 && base == p * c && Pair(base, h, l) >= 0
    ensures Pair(base, h, l) / c == Times(h, p) + l / c
  {
    var hp := h * p;
    assert h * (p * c) == hp * c;
    ModDrop(l, hp, c);
  }

  /** Multiplying back, correcting the estimated digit by at most one, and forming the remainder. */
  method CorrectEstimate(base: nat, q: nat, r1: nat, n0_: nat, d1: nat, d0: nat, ghost n: int)
    returns (q0: nat, n1: nat, n0: nat)
    requires q < base && r1 < base && n0_ < base && d1 < base && d0 < base
    requires var d, p, m := Pair(base, d1, d0), Pair(base, r1, n0_), Times(q, d0);
      if m <= p then IsDivMod(n, d, q, p - m) else q >= 1 && IsDivMod(n, d, q - 1, p - m + d)
    ensures q0 < base && n1 < base && n0 < base && IsDivMod(n, Pair(base, d1, d0), q0, Pair(base, n1, n0))
  {
    q0 := q;
    hide Pair, Wrap, Times;
    var m1, m0 := MultiplyWords(base, q0, d0);
    PairOrder(base, m1, m0, r1, n0_);
    ghost var d, p, m := Pair(base, d1, d0), Pair(base, r1, n0_), Times(q, d0);
    if m1 > r1 || (m1 == r1 && m0 > n0_) {
      q0 := q0 - 1;
      m1, m0 := SubtractPairs(base, m1, m0, d1, d0);
    }
    ghost var rest := if m <= p then p - m else p - m + d;
    n1, n0 := SubtractPairs(base, r1, n0_, m1, m0);
    PairIsWord(base, d1, d0);
    WrappedDifference(Times(base, base), p, m, d, Pair(base, m1, m0), rest);
  }

  /** The general branch: shift both operands, estimate the digit from the high words, and correct it by
      at most one. */
  method DivideNormalized(w: nat, bm: nat, n1_: nat, n0_: nat, d1_: nat, d0_: nat) returns (q0: nat, r1: nat, r0: nat)
    requires 1 <= bm < w && n1_ < Pow2(w) && n0_ < Pow2(w) && 0 < d1_ < Pow2(w) && d0_ < Pow2(w)
    requires Times(d1_, Pow2(bm)) < Pow2(w) <= 2 * Times(d1_, Pow2(bm))
    ensures q0 < Pow2(w) && r1 < Pow2(w) && r0 < Pow2(w)
    ensures IsDivMod(Pair(Pow2(w), n1_, n0_), Pair(Pow2(w), d1_, d0_), q0, Pair(Pow2(w), r1, r0))
  {
    hide Pow2, Pair, Wrap, Shr, Times, Shifted0, Shifted1, Shifted2, IsDivMod;
    ShiftPairLeft(w, bm, n1_, n0_);
    ShiftedDivisor(w, bm, d1_, d0_);
    var d1 := Shifted1(w, bm, d1_, d0_);
    var d0 := Shifted0(w, bm, d0_);
    var n2 := Shifted2(w, bm, n1_);
    var n1 := Shifted1(w, bm, n1_, n0_);
    var n0 := Shifted0(w, bm, n0_);
    ghost var high := n1;
    q0, n1 := DivideWords(w, n2, n1, d1);
    EstimateBound(w, bm, n2, high, d1, d0, q0, n1);
    EstimateRemainder(Pow2(w), n2, high, n0, d1, d0, q0, n1);
    q0, n1, n0 := CorrectEstimate(Pow2(w), q0, n1, n0, d1, d0, Times(Pair(Pow2(w), n1_, n0_), Pow2(bm)));
    r0, r1 := Wrap(Pow2(w), Times(n1, Pow2(w - bm))) + Shr(n0, bm), Shr(n1, bm);
    PairNonNegative(Pow2(w), n1, n0);
    ShiftPairRight(w, bm, n1, n0);
    PairPositive(Pow2(w), d1_, d0_);
    PairNonNegative(Pow2(w), n1_, n0_);
    UnscaleShift(w, Pair(Pow2(w), n1_, n0_), Pair(Pow2(w), d1_, d0_), bm, q0, Pair(Pow2(w), n1, n0));
  }

  lemma PairPositive(base: nat, h: nat, l: nat)
    requires base > 0 && h > 0
    ensures Pair(base, h, l) > 0
  {
    IntScale(1, h, base);
  }

  // The whole function.

  /** The source's normalizing `__udivmoddi4`: quotient and remainder of every dividend by every divisor
      other than zero. `normalize` is its `UDIV_NEEDS_NORMALIZATION`. */
  method UdivModNormalizing(w: nat, normalize: bool, n1: nat, n0: nat, d1: nat, d0: nat)
    returns (q1: nat, q0: nat, r1: nat, r0: nat)
    requires w >= 1 && n1 < Pow2(w) && n0 < Pow2(w) && d1 < Pow2(w) && d0 < Pow2(w)
    requires d1 > 0 || d0 > 0
    ensures q1 < Pow2(w) && q0 < Pow2(w) && r1 < Pow2(w) && r0 < Pow2(w)
    ensures IsDivMod(Pair(Pow2(w), n1, n0), Pair(Pow2(w), d1, d0), Pair(Pow2(w), q1, q0), Pair(Pow2(w), r1, r0))
  {
    hide Pow2, Pair;
    if d1 == 0 {
      PairZero(Pow2(w), d0);
      if !normalize {
        q1, q0, r0 := DivideByWordDirect(w, n1, n0, d0);
      } else if d0 > n1 {
        q0, r0 := DivideOneDigit(w, n1, n0, d0);
        q1 := 0;
        PairZero(Pow2(w), q0);
      } else {
        q1, q0, r0 := DivideTwoDigits(w, n1, n0, d0);
      }
      r1 := 0;
      PairZero(Pow2(w), r0);
    } else {
      q0, r1, r0 := DivideByPair(w, n1, n0, d1, d0);
      q1 := 0;
      PairZero(Pow2(w), q0);
    }
  }

  /** Quotient and remainder are unique. */
  lemma DivModIsUnique(n: int, d: int, q: int, r: int, q': int, r': int)
    requires IsDivMod(n, d, q, r) && IsDivMod(n, d, q', r')
    ensures q == q' && r == r'
  {
    DivModUnique(n, d, q, r);
    DivModUnique(n, d, q', r');
  }

  // The shift-subtract division.

  /** The source's other `__udivmoddi4`, for targets without a divide instruction: the divisor is aligned
      under the dividend, and quotient bits are kept in the low bits of the shifted dividend. `b` is the
      width of its double word. */
  method UdivModShifting(b: nat, n: nat, d: nat) returns (q: nat, r: nat)
    requires n < Pow2(b) && 0 < d < Pow2(b)
    ensures q < Pow2(b) && r < Pow2(b) && IsDivMod(n, d, q, r)
  {
    hide Pow2, Wrap, Times, Shr, IsDivMod;
    q, r := 0, n;
    var y := d;
    if y <= r {
      var lz1 := CountLeadingZeros(b, d);
      var lz2 := CountLeadingZeros(b, n);
      Aligned(b, n, d, lz1, lz2);
      var k := lz1 - lz2;
      y := Wrap(Pow2(b), Times(y, Pow2(k)));
      if r >= y {
        r := r - y;
        q := Pow2(k);
      }
      ghost var q', r' := q, r;
      if k > 0 {
        HalfAligned(d, k);
        y := y / 2;
        ghost var rho, bits;
        r, rho, bits := ShiftSubtract(b, k, y, r, d);
        JoinedQuotient(n, d, k, q', r', bits, rho);
        QuotientBelow(n, d, q' + bits, rho);
        CombineBits(Pow2(b), k, q', r, rho, bits);
        q := Wrap(Pow2(b), q + r);
        r := Shr(r, k);
        q := Wrap(Pow2(b), q - Times(r, Pow2(k)));
      } else {
        AlignedDigit(n, d, q, r);
        QuotientBelow(n, d, q, r);
      }
    } else {
      UnitQuotient(n, d, 0);
    }
  }

  /** The divisor can be aligned under a larger dividend without overflow. */
  lemma Aligned(b: nat, n: nat, d: nat, lz1: nat, lz2: nat)
    requires 0 < d <= n < Pow2(b)
    requires Times(d, Pow2(lz1)) < Pow2(b) <= 2 * Times(d, Pow2(lz1))
    requires Times(n, Pow2(lz2)) < Pow2(b) <= 2 * Times(n, Pow2(lz2))
    ensures lz2 <= lz1
    ensures var y := Times(d, Pow2(lz1 - lz2)); Wrap(Pow2(b), y) == y < Pow2(b) && n < 2 * y
  {
    hide Pow2, Times, Wrap;
    TimesMonotone(d, n, Pow2(lz2));
    if lz1 < lz2 {
      ShiftGrows(d, lz1, lz2);
      assert false;
    }
    ShiftSplit(d, lz2, lz1);
    AlignedBounds(n, Times(d, Pow2(lz1 - lz2)), Pow2(lz2), Pow2(b));
    WrapOnce(Pow2(b), Times(d, Pow2(lz1 - lz2)));
  }

  lemma TimesMonotone(x: nat, y: nat, p: nat)
    requires p > 0 && x <= y
    ensures Times(x, p) <= Times(y, p)
  {
    IntScale(x, y, p);
  }

  lemma ShiftGrows(d: nat, a: nat, b: nat)
    requires a < b
    ensures 2 * Times(d, Pow2(a)) <= Times(d, Pow2(b))
  {
    Pow2Monotone(a, b);
    MulAtMost(d, 2 * Pow2(a), Pow2(b));
    DoubledFactor(d, Pow2(a));
  }

  lemma ShiftSplit(d: nat, a: nat, b: nat)
    requires a <= b
    ensures Times(d, Pow2(b)) == Times(Times(d, Pow2(b - a)), Pow2(a))
    ensures Times(d, Pow2(b - a)) >= 0
  {
    Pow2Split(a, b);
    MulRegroup3(d, Pow2(b - a), Pow2(a));
  }

  lemma AlignedBounds(n: nat, y: nat, p: nat, base: nat)
    requires p > 0 && Times(n, p) < base <= 2 * Times(y, p) && Times(y, p) < base
    ensures y < base && n < 2 * y
  {
    DoubledSides2(y, p);
    IntScaleStrictBoth(n, 2 * y, p);
    MulAtLeast(y, p, 1);
  }

  lemma MulRegroup3(a: int, b: int, c: int)
    ensures a * (b * c) == (a * b) * c
  {
  }

  lemma DoubledSides2(y: int, p: int)
    ensures 2 * y * p == 2 * (y * p)
  {
  }

  lemma HalfAligned(d: nat, k: nat)
    requires k > 0
    ensures Times(d, Pow2(k)) == 2 * Times(d, Pow2(k - 1)) && Times(d, Pow2(k)) / 2 == Times(d, Pow2(k - 1))
  {
    DoubledFactor(d, Pow2(k - 1));
  }

  lemma QuotientBelow(n: nat, d: nat, q: int, r: int)
    requires d > 0 && IsDivMod(n, d, q, r)
    ensures 0 <= q <= n && 0 <= r <= n
  {
    if q < 0 {
      IntScaleStrict(q, 0, d);
    } else {
      MulAtLeast(q, d, 1);
    }
  }

  lemma AlignedDigit(n: nat, d: nat, q: nat, r: nat)
    requires n < 2 * Times(d, Pow2(0))
    requires if n >= Times(d, Pow2(0)) then q == Pow2(0) && r == n - Times(d, Pow2(0)) else q == 0 && r == n
    ensures IsDivMod(n, d, q, r)
  {
  }

  lemma JoinedQuotient(n: nat, d: nat, k: nat, q: nat, r: nat, bits: nat, rho: nat)
    requires if n >= Times(d, Pow2(k)) then q == Pow2(k) && r == n - Times(d, Pow2(k)) else q == 0 && r == n
    requires IsDivMod(r, d, bits, rho)
    ensures IsDivMod(n, d, q + bits, rho)
  {
    assert (q + bits) * d == q * d + bits * d;
    assert d * Pow2(k) == Pow2(k) * d;
  }

  /** The final shuffle takes the quotient bits out of the dividend's low bits, whatever wraps around on
      the way. */
  lemma CombineBits(base: nat, k: nat, q: nat, r: nat, rho: nat, bits: nat)
    requires base > 0 && r == Times(rho, Pow2(k)) + bits && bits < Pow2(k) && q + bits < base
    ensures Shr(r, k) == rho
    ensures Wrap(base, Wrap(base, q + r) - Times(rho, Pow2(k))) == q + bits
  {
    DivModUnique(r, Pow2(k), rho, bits);
    hide Times, Pow2, Wrap;
    WrapTwice(base, q + r, Times(rho, Pow2(k)));
  }

  lemma WrapTwice(base: nat, x: int, t: int)
    requires base > 0 && 0 <= x - t < base
    ensures Wrap(base, Wrap(base, x) - t) == x - t
  {
    DivModFacts(x, base);
    DivModUnique(Wrap(base, x) - t, base, -(x / base), x - t);
  }

  /** The loop: `rho` is the true partial remainder above the quotient bits collected so far. */
  method ShiftSubtract(b: nat, k: nat, y: nat, r0: nat, d: nat) returns (r: nat, ghost rho: nat, ghost bits: nat)
    requires k >= 1 && d > 0 && y == Times(d, Pow2(k - 1)) && r0 < 2 * y < Pow2(b)
    ensures r < Pow2(b) && r == Times(rho, Pow2(k)) + bits && bits < Pow2(k)
    ensures IsDivMod(r0, d, bits, rho)
  {
    r, rho, bits := r0, r0, 0;
    var i := k;
    StartBits(r0, d, k);
    hide Pow2, Wrap, Times;
    while i != 0
      invariant i <= k
      invariant r < 2 * y
      invariant bits < Pow2(k - i)
      invariant r == Times(rho, Pow2(k - i)) + bits
      invariant r0 == Times(bits, Times(d, Pow2(i))) + rho && rho < Times(d, Pow2(i))
    {
      ShiftSubtractStep(d, k, i, y, r, rho, bits, r0);
      if r >= y {
        WrapOnce(Pow2(b), 2 * (r - y) + 1);
        r := Wrap(Pow2(b), 2 * (r - y) + 1);
        rho := rho - Times(d, Pow2(i - 1));
        bits := 2 * bits + 1;
      } else {
        WrapOnce(Pow2(b), 2 * r);
        r := Wrap(Pow2(b), 2 * r);
        bits := 2 * bits;
      }
      i := i - 1;
    }
    FinishBits(r0, d, bits, rho);
  }

  lemma StartBits(r0: nat, d: nat, k: nat)
    requires k >= 1 && r0 < 2 * Times(d, Pow2(k - 1))
    ensures 0 < Pow2(k - k) && r0 == Times(r0, Pow2(k - k)) + 0
    ensures r0 == Times(0, Times(d, Pow2(k))) + r0 && r0 < Times(d, Pow2(k))
  {
    HalfAligned(d, k);
  }

  lemma FinishBits(r0: nat, d: nat, bits: nat, rho: nat)
    requires r0 == Times(bits, Times(d, Pow2(0))) + rho && rho < Times(d, Pow2(0))
    ensures IsDivMod(r0, d, bits, rho)
  {
  }

  /** The quotient bits below the partial remainder never affect the comparison with the divisor. */
  lemma ShiftSubtractStep(d: nat, k: nat, i: nat, y: nat, r: nat, rho: nat, bits: nat, r0: nat)
    requires 1 <= i <= k && d > 0 && y == Times(d, Pow2(k - 1)) && bits < Pow2(k - i)
    requires r == Times(rho, Pow2(k - i)) + bits
    requires r0 == Times(bits, Times(d, Pow2(i))) + rho && rho < Times(d, Pow2(i))
    ensures r >= y <==> rho >= Times(d, Pow2(i - 1))
    ensures r >= y ==>
      var rho', bits' := rho - Times(d, Pow2(i - 1)), 2 * bits + 1;
      && bits' < Pow2(k - (i - 1)) && 2 * (r - y) + 1 == Times(rho', Pow2(k - (i - 1))) + bits'
      && r0 == Times(bits', Times(d, Pow2(i - 1))) + rho' && rho' < Times(d, Pow2(i - 1))
    ensures r < y ==>
      var bits' := 2 * bits;
      && bits' < Pow2(k - (i - 1)) && 2 * r == Times(rho, Pow2(k - (i - 1))) + bits'
      && r0 == Times(bits', Times(d, Pow2(i - 1))) + rho && rho < Times(d, Pow2(i - 1))
  {
    var p, h := Pow2(k - i), Times(d, Pow2(i - 1));
    assert Pow2(k - (i - 1)) == 2 * p;
    Pow2Add(i - 1, k - i);
    assert y == h * p by {
      MulRegroup3(d, Pow2(i - 1), p);
    }
    HalfAligned(d, i);
    hide Pow2;
    StepProducts(h, p, rho, bits);
    IntScaleStrictBoth(rho, h, p);
  }

  lemma StepProducts(h: nat, p: nat, rho: nat, bits: nat)
    ensures Times(rho - h, 2 * p) == 2 * (rho * p) - 2 * (h * p)
    ensures Times(rho, 2 * p) == 2 * (rho * p)
    ensures Times(2 * bits + 1, h) == Times(bits, 2 * h) + h
    ensures Times(2 * bits, h) == Times(bits, 2 * h)
  {
  }
}
