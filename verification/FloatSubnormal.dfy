/** Which products and quotients of finite numbers are correctly rounded, told by the operands
    (plugin-libc/libgcc/fp-bit.c). */
module FloatSubnormal {
  import opened Powers
  import opened Words
  import opened Ieee754
  import opened Rounding
  import opened SoftFloat
  import opened FloatTail
  import opened FloatMulDiv

  // Products.

  /** How many low bits of the product of two fractions do not fit below the leading one of a fraction. */
  function ProductShift(f: Format, a: Parts, b: Parts): nat {
    f.fracBits + f.guards + if a.fraction * b.fraction < 2 * Times(Implicit1(f), Implicit1(f)) then 0 else 1
  }

  /** The exponent of a product. */
  function ProductExp(f: Format, a: Parts, b: Parts): int {
    a.normalExp + b.normalExp + ProductShift(f, a, b) - (f.fracBits + f.guards)
  }

  /** Whether a subnormal product loses the bits of the fractions' product that are cut off. */
  predicate ProductLosesTail(f: Format, a: Parts, b: Parts)
    requires f.Valid()
  {
    var p, n := Times(a.fraction, b.fraction), ProductShift(f, a, b);
    TimesNonNegative(a.fraction, b.fraction);
    ProductExp(f, a, b) < f.ExpMin() && LosesTail(f, f.ExpMin() - ProductExp(f, a, b), Shr(p, n), Low(p, n) != 0)
  }

  lemma ProductKept(f: Format, a: Parts, b: Parts)
    requires f.Valid() && Unpacked(f, a) && Unpacked(f, b)
    ensures var p, n := Times(a.fraction, b.fraction), ProductShift(f, a, b);
      p >= 0 && Implicit1(f) <= Shr(p, n) < 2 * Implicit1(f)
  {
    hide Pow2;
    var i, p, n := Implicit1(f), Times(a.fraction, b.fraction), ProductShift(f, a, b);
    TimesNonNegative(a.fraction, b.fraction);
    FractionsProduct(i, a.fraction, b.fraction);
    Pow2Halves(f.fracBits + f.guards + 1);
    DivModFacts(p, Pow2(n));
    QuotientOfProduct(i, p, Pow2(n), Shr(p, n), Low(p, n));
  }

  lemma FractionsProduct(i: nat, x: nat, y: nat)
    requires i <= x < 2 * i && i <= y < 2 * i
    ensures Times(i, i) <= Times(x, y) < 4 * Times(i, i)
  {
    ProductBound(x, y, 2 * i, 2 * i);
    MulAtMost(i, i, y);
    IntScale(i, x, y);
    assert (2 * i) * (2 * i) == 4 * (i * i);
  }

  lemma QuotientOfProduct(i: nat, p: nat, d: nat, h: nat, low: nat)
    requires p == h * d + low && low < d && Times(i, i) <= p < 4 * Times(i, i)
    requires d == if p < 2 * Times(i, i) then i else 2 * i
    ensures i <= h < 2 * i
  {
    IntScaleStrictBoth(h, 2 * i, d);
    IntScaleStrictBoth(h, i, d);
    BinadeProducts(i);
    hide Times;
  }

  lemma BinadeProducts(i: nat)
    ensures i * i == Times(i, i)
    ensures i * (2 * i) == 2 * i * i == 2 * Times(i, i)
    ensures 2 * i * (2 * i) == 4 * Times(i, i)
  {
  }

  /** The product of two numbers in guard units, in its normal form. */
  lemma ProductForm(f: Format, a: Parts, b: Parts)
    requires f.Valid() && Unpacked(f, a) && Unpacked(f, b)
    ensures var p, n := Times(a.fraction, b.fraction), ProductShift(f, a, b);
      var t := Ldexp(p as real, 0 - n);
      && p >= 0 && NormalForm(f, ExactProduct(f, a, b), ProductExp(f, a, b), t)
      && Truncates(t, Shr(p, n), Low(p, n) != 0)
  {
    hide Ldexp, Pow2, Pair, Implicit1, ExactProduct, FractionValue, Unpacked, ProductShift, ProductExp, Times, Low, Shr;
    ProductKept(f, a, b);
    ProductScaled(f, a, b);
    var n := ProductShift(f, a, b);
    var p: nat := Times(a.fraction, b.fraction);
    CutNumber(p, n);
  }

  lemma CutNumber(p: nat, n: nat)
    ensures Truncates(Ldexp(p as real, 0 - n), Shr(p, n), Low(p, n) != 0)
  {
    hide Ldexp, Pow2, Truncates;
    DivModFacts(p, Pow2(n));
    CutPair(Pow2(n), n, Shr(p, n), Low(p, n));
  }

  lemma ProductScaled(f: Format, a: Parts, b: Parts)
    ensures FractionValue(f, ProductExp(f, a, b), Ldexp(Times(a.fraction, b.fraction) as real, 0 - ProductShift(f, a, b)))
         == ExactProduct(f, a, b)
  {
    hide Ldexp, Pow2, ProductShift;
    var x, y := a.fraction as real, b.fraction as real;
    var n: int := ProductShift(f, a, b);
    LdexpProduct(x, a.normalExp - f.fracBits - f.guards, y, b.normalExp - f.fracBits - f.guards);
    assert RealTimes(x, y) == Times(a.fraction, b.fraction) as real;
    LdexpAdd(Times(a.fraction, b.fraction) as real, 0 - n, ProductExp(f, a, b) - f.fracBits - f.guards);
  }

  /** What the contract of `multiply` says of two finite numbers. */
  lemma ProductTail(f: Format, a: nat, b: nat, r: nat)
    requires f.Valid() && IsProduct(f, a, b, r)
    requires IsFinite(f, a) && !IsZero(f, a) && IsFinite(f, b) && !IsZero(f, b)
    ensures TailRounded(f, Abs(RealProduct(f, a, b)), Magnitude(f, r))
  {
    hide TailRounded, Value, Magnitude, RealProduct;
  }

  /** A product of two finite numbers is correctly rounded exactly when it is not a subnormal one that loses the
      tail of its operands' fractions. */
  lemma ProductCorrect(f: Format, a: nat, b: nat, pa: Parts, pb: Parts, r: nat)
    requires f.Valid() && Encoding(f, a) && Encoding(f, b) && Decodes(f, a, pa) && Decodes(f, b, pb)
    requires IsFinite(f, a) && !IsZero(f, a) && IsFinite(f, b) && !IsZero(f, b)
    requires IsProduct(f, a, b, r)
    ensures MagnitudeRounds(f, Abs(RealProduct(f, a, b)), Magnitude(f, r)) <==> !ProductLosesTail(f, pa, pb)
  {
    hide Ldexp, Pow2, Times, MagnitudeRounds, TailRounded, NormalForm, LosesTail, RealProduct, ExactProduct, Encoding,
      IsProduct, Value, Unpacked, PartsValue, MagnitudeValue, Magnitude, ProductExp, ProductShift, Low, Shr, Truncates;
    DecodedProduct(f, a, b, pa, pb);
    ProductTail(f, a, b, r);
    ProductForm(f, pa, pb);
    var n: int := ProductShift(f, pa, pb);
    var p: nat := Times(pa.fraction, pb.fraction);
    var t := Ldexp(p as real, 0 - n);
    FloorOf(t, Shr(p, n), Low(p, n) != 0);
    ResultCorrect(f, ExactProduct(f, pa, pb), Magnitude(f, r), ProductExp(f, pa, pb), t);
  }

  /** The same told by the normal form of the exact result. */
  lemma ResultCorrect(f: Format, x: real, m: nat, e: int, t: real)
    requires f.Valid() && TailRounded(f, x, m) && NormalForm(f, x, e, t) && t >= 0.0
    ensures MagnitudeRounds(f, x, m) <==> f.ExpMin() <= e || !LosesTail(f, f.ExpMin() - e, t.Floor, t != t.Floor as real)
  {
    hide MagnitudeRounds, NormalForm, LosesTail, Misrounding;
    if f.ExpMin() <= e {
      var e', t' :| NormalForm(f, x, e', t') && t' >= 0.0 && TailPacks(f, x, e', t', m);
      NormalFormUnique(f, x, e, t, e', t');
    } else {
      SubnormalResult(f, x, m, e, t);
    }
  }

  lemma FloorOf(t: real, h: nat, more: bool)
    requires Truncates(t, h, more)
    ensures t >= 0.0 && t.Floor == h && (t != t.Floor as real <==> more)
  {
  }

  // Quotients.

  /** The dividend's fraction as it is divided: doubled when it is below the divisor's. */
  function Numerator(a: Parts, b: Parts): nat {
    if a.fraction < b.fraction then 2 * a.fraction else a.fraction
  }

  /** The exponent of a quotient. */
  function QuotientExp(a: Parts, b: Parts): int {
    a.normalExp - b.normalExp - if a.fraction < b.fraction then 1 else 0
  }

  /** Whether a subnormal quotient loses what its remainder stands for. */
  predicate QuotientLosesTail(f: Format, a: Parts, b: Parts)
    requires f.Valid() && b.fraction > 0
  {
    var n := Times(Numerator(a, b), Implicit1(f));
    TimesNonNegative(Numerator(a, b), Implicit1(f));
    QuotientExp(a, b) < f.ExpMin() && LosesTail(f, f.ExpMin() - QuotientExp(a, b), Quotient(b.fraction, n), Wrap(b.fraction, n) != 0)
  }

  /** The quotient of two numbers in guard units, in its normal form. */
  lemma QuotientForm(f: Format, a: Parts, b: Parts)
    requires f.Valid() && Unpacked(f, a) && Unpacked(f, b)
    ensures b.fraction > 0 && PartsValue(f, b) != 0.0
    ensures var n := Times(Numerator(a, b), Implicit1(f));
      var t := n as real / b.fraction as real;
      && n >= 0 && NormalForm(f, ExactQuotient(f, a, b), QuotientExp(a, b), t)
      && Truncates(t, Quotient(b.fraction, n), Wrap(b.fraction, n) != 0)
  {
    hide Ldexp, Pow2, PartsValue, FractionValue, ExactQuotient, Implicit1;
    ImplicitPositive(f);
    var d, m := b.fraction, Numerator(a, b);
    TimesNonNegative(m, Implicit1(f));
    var n: nat := Times(m, Implicit1(f));
    var t, q, r := n as real / d as real, Quotient(d, n), Wrap(d, n);
    SplitWord(d, n);
    QuotientValue(f, a, b, m, QuotientExp(a, b), t);
    WholeDivision(f, m, d, q, r);
    CutQuotient(m, d, q, 2 * r, Implicit1(f), t);
  }

  lemma WholeDivision(f: Format, m: nat, d: nat, q: nat, r: nat)
    requires Implicit1(f) > 0 && d <= m < 2 * d && r < d && Times(m, Implicit1(f)) == q * d + r
    ensures 2 * Times(m, Implicit1(f)) == 2 * Times(q, d) + 2 * r
    ensures Implicit1(f) <= q < 2 * Implicit1(f)
  {
    hide Implicit1;
    assert Times(2 * r, Pow2(0)) == 2 * r;
    FinishQuotient(f, m, d, q, 2 * r);
  }

  /** What the contract of `divide` says of two finite numbers. */
  lemma QuotientTail(f: Format, a: nat, b: nat, r: nat)
    requires f.Valid() && IsQuotient(f, a, b, r)
    requires IsFinite(f, a) && !IsZero(f, a) && IsFinite(f, b) && !IsZero(f, b)
    ensures Value(f, b) != 0.0 && TailRounded(f, Abs(RealQuotient(f, a, b)), Magnitude(f, r))
  {
    hide TailRounded, Value, Magnitude, RealQuotient;
  }

  /** A quotient of two finite numbers is correctly rounded exactly when it is not a subnormal one that loses the
      remainder of its operands' fractions. */
  lemma QuotientCorrect(f: Format, a: nat, b: nat, pa: Parts, pb: Parts, r: nat)
    requires f.Valid() && Encoding(f, a) && Encoding(f, b) && Decodes(f, a, pa) && Decodes(f, b, pb)
    requires IsFinite(f, a) && !IsZero(f, a) && IsFinite(f, b) && !IsZero(f, b)
    requires IsQuotient(f, a, b, r)
    ensures pb.fraction > 0 && Value(f, b) != 0.0
    ensures MagnitudeRounds(f, Abs(RealQuotient(f, a, b)), Magnitude(f, r)) <==> !QuotientLosesTail(f, pa, pb)
  {
    hide Ldexp, Pow2, Times, MagnitudeRounds, TailRounded, NormalForm, LosesTail, RealQuotient, ExactQuotient, Encoding,
      IsQuotient, Value, Unpacked, PartsValue, MagnitudeValue, Magnitude, Numerator, QuotientExp, Quotient, Wrap, Truncates;
    DecodedQuotient(f, a, b, pa, pb);
    QuotientTail(f, a, b, r);
    QuotientForm(f, pa, pb);
    var n: nat := Times(Numerator(pa, pb), Implicit1(f));
    var t := n as real / pb.fraction as real;
    FloorOf(t, Quotient(pb.fraction, n), Wrap(pb.fraction, n) != 0);
    ResultCorrect(f, ExactQuotient(f, pa, pb), Magnitude(f, r), QuotientExp(pa, pb), t);
  }
}
