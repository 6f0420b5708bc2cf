/** Soft-float multiplication and division (plugin-libc/libgcc/fp-bit.c). */
module FloatMulDiv {
  import opened Powers
  import opened Words
  import opened Ieee754
  import opened Rounding
  import opened SoftFloat
  import opened FloatTail
  import opened WideMultiply

  /** The three ways the source forms the double-width product. */
  datatype Multiplier = BitSerial | HalfWords | WiderType

  /** `x` is `t` guard units at exponent `e`, with the leading one in place. */
  ghost predicate NormalForm(f: Format, x: real, e: int, t: real) {
    && Implicit1(f) as real <= t < (2 * Implicit1(f)) as real
    && FractionValue(f, e, t) == x
  }

  /** Magnitude `m` is what packing makes of `t` guard units at exponent `e`, whose value is `x`, when only the
      integer part of `t` and whether more follows are known. */
  ghost predicate TailPacks(f: Format, x: real, e: int, t: real, m: nat)
    requires f.Valid() && t >= 0.0
  {
    if f.ExpMin() <= e then MagnitudeRounds(f, x, m)
    else
      var k := Misrounding(f, f.ExpMin() - e, t.Floor, t != t.Floor as real);
      m >= k && MagnitudeRounds(f, x, m - k)
  }

  /** What packing makes of the positive real `x` when the fraction was cut off below its guard bits: the
      roundTiesToEven magnitude, but for the unit a subnormal result can lose. */
  ghost predicate TailRounded(f: Format, x: real, m: nat)
    requires f.Valid()
  {
    exists e: int, t: real :: NormalForm(f, x, e, t) && t >= 0.0 && TailPacks(f, x, e, t, m)
  }

  /** The fields a multiplication or division leaves for packing. */
  ghost predicate PartsTail(f: Format, x: real, p: Parts)
    requires f.Valid()
  {
    && p.cls == Number
    && Implicit1(f) <= p.fraction <= 2 * Implicit1(f)
    && TailRounded(f, x, PackedMagnitude(f, p.normalExp, p.fraction))
  }

  /** The rounding step shared by both operations, in place on the fraction word. */
  method RoundTail(f: Format, h: nat, low: nat) returns (r: nat)
    requires f.Valid()
    ensures r == TailRound(f, h, low != 0)
  {
    r := h;
    if Low(r, f.guards) == Pow2(f.guards - 1) {
      if Shr(r, f.guards) % 2 == 1 {
        // left to the packing function, which rounds this tie up
      } else if low != 0 {
        TailGuardsClear(f, r);
        r := r + Pow2(f.guards - 1);
        r := r - Low(r, f.guards);
      }
    }
  }

  lemma TailParts(f: Format, e: int, t: real, h: nat, more: bool, p: Parts)
    requires f.Valid() && Implicit1(f) <= h < 2 * Implicit1(f) && Truncates(t, h, more)
    requires p.cls == Number && p.normalExp == e && p.fraction == TailRound(f, h, more)
    ensures PartsTail(f, FractionValue(f, e, t), p)
  {
    var x := FractionValue(f, e, t);
    TailBounds(f, h, more);
    assert NormalForm(f, x, e, t);
    assert t.Floor == h;
    hide Pow2, FractionValue, TailRound, PackedMagnitude, Misrounding, Implicit1;
    if f.ExpMin() <= e {
      TailRoundsNormal(f, e, t, h, more);
    } else {
      TailRoundsSubnormal(f, e, t, h, more);
    }
  }

  lemma TailBounds(f: Format, h: nat, more: bool)
    requires f.Valid() && Implicit1(f) <= h < 2 * Implicit1(f)
    ensures Implicit1(f) <= TailRound(f, h, more) <= 2 * Implicit1(f)
  {
    if TailRound(f, h, more) != h {
      TailGuardsClear(f, h);
      Pow2Add(f.fracBits, f.guards);
      var p, d, x := Pow2(f.fracBits), Pow2(f.guards), Shr(h, f.guards);
      DivModFacts(h, d);
      hide Pow2, Shr, Low;
      assert 2 * p * d == 2 * Implicit1(f);
      IntScaleStrictBoth(x, 2 * p, d);
      IntScaleStrictBoth(x + 1, 2 * p, d);
    }
  }

  // Multiplication.

  /** The double-width mantissa product, by any of the source's variants. */
  method MultiplyMantissas(f: Format, how: Multiplier, x: nat, y: nat) returns (high: nat, low: nat)
    requires f.Valid() && x < Pow2(f.wordBits) && y < Pow2(f.wordBits)
    requires how == HalfWords ==> f.wordBits % 2 == 0
    ensures IsWideProduct(Pow2(f.wordBits), x, y, high, low)
  {
    match how
    case BitSerial =>
      high, low := MultiplyBits(f.wordBits, x, y);
    case HalfWords =>
      Pow2Add(f.wordBits / 2, f.wordBits / 2);
      high, low := MultiplyHalves(Pow2(f.wordBits / 2), x, y);
    case WiderType =>
      var base := Pow2(f.wordBits);
      ProductBound(x, y, base, base);
      SplitWord(base, x * y);
      PairBound(base, Quotient(base, x * y), Wrap(base, x * y));
      high, low := Quotient(base, x * y), Wrap(base, x * y);
  }

  /** The first loop: a high word beyond the second binade is shifted right. The low word only moves when a one bit
      is shifted into it, and so still tells whether anything follows. No product reaches this loop's body. */
  method ShiftBack(f: Format, e0: int, high0: nat, low0: nat) returns (e: int, high: nat, low: nat)
    requires f.Valid() && high0 < Pow2(f.wordBits) && low0 < Pow2(f.wordBits)
    ensures high < 2 * Implicit1(f) && low < Pow2(f.wordBits) && e >= e0 && high == high0 / Pow2(e - e0)
    ensures if high0 < 2 * Implicit1(f) then e == e0 && low == low0 else high >= Implicit1(f)
    ensures low != 0 <==> low0 != 0 || high0 % Pow2(e - e0) != 0
  {
    hide Pow2;
    e, high, low := e0, high0, low0;
    Pow2Halves(f.wordBits);
    assert Pow2(0) == 1 by { Pow2Zero(); }
    while high >= 2 * Implicit1(f)
      invariant low < Pow2(f.wordBits) && e >= e0 && high == high0 / Pow2(e - e0)
      invariant if e == e0 then low == low0 else high >= Implicit1(f)
      invariant e > e0 ==> high0 >= 2 * Implicit1(f)
      invariant low != 0 <==> low0 != 0 || high0 % Pow2(e - e0) != 0
      decreases high
    {
      Pow2Halves(e - e0 + 1);
      NextBit(high0, Pow2(e - e0));
      e := e + 1;
      if high % 2 == 1 {
        low := low / 2 + Pow2(f.wordBits - 1);
      }
      high := high / 2;
    }
  }

  lemma NextBit(x: nat, p: nat)
    requires p > 0
    ensures x / (2 * p) == x / p / 2
    ensures x % (2 * p) == 0 <==> x / p % 2 == 0 && x % p == 0
  {
    DivDiv(x, p, 2);
    DivModFacts(x, p);
    assert p * 2 == 2 * p;
  }

  lemma Pow2Zero()
    ensures Pow2(0) == 1
  {
  }

  /** The second loop: shifting left until the leading one is in place. */
  method ShiftForward(f: Format, e0: int, high0: nat, low0: nat) returns (e: int, high: nat, low: nat)
    requires f.Valid()
    requires high0 < 2 * Implicit1(f) && low0 < Pow2(f.wordBits)
    requires Pair(Pow2(f.wordBits), high0, low0) > 0
    ensures Implicit1(f) <= high < 2 * Implicit1(f) && low < Pow2(f.wordBits)
    ensures Ldexp(Pair(Pow2(f.wordBits), high, low) as real, e) == Ldexp(Pair(Pow2(f.wordBits), high0, low0) as real, e0)
    ensures high0 >= Implicit1(f) ==> e == e0 && high == high0 && low == low0
  {
    hide Pow2, Ldexp, Pair, Wrap, Implicit1;
    e, high, low := e0, high0, low0;
    var base := Pow2(f.wordBits);
    Pow2Halves(f.wordBits);
    FractionFits(f);
    while high < Implicit1(f)
      invariant high < 2 * Implicit1(f) && low < base
      invariant Pair(base, high, low) > 0
      invariant Ldexp(Pair(base, high, low) as real, e) == Ldexp(Pair(base, high0, low0) as real, e0)
      invariant high0 >= Implicit1(f) ==> e == e0 && high == high0 && low == low0
      decreases Pair(base, Implicit1(f), 0) - Pair(base, high, low)
    {
      ShiftOut(base, Implicit1(f), high, low);
      LdexpStep(Pair(base, high, low) as real, e - 1);
      e := e - 1;
      high := high * 2;
      if low >= base / 2 {
        high := high + 1;
      }
      low := Wrap(base, low * 2);
    }
  }

  /** The double word shifted until the leading one is in place; only the integer part is kept, with the low word
      telling whether anything follows. */
  method NormalizeProduct(f: Format, e0: int, high0: nat, low0: nat) returns (e: int, high: nat, low: nat)
    requires f.Valid()
    requires high0 < Pow2(f.wordBits) && low0 < Pow2(f.wordBits)
    requires Pair(Pow2(f.wordBits), high0, low0) > 0
    ensures Implicit1(f) <= high < 2 * Implicit1(f) && low < Pow2(f.wordBits)
    ensures if high0 < 2 * Implicit1(f)
      then Ldexp(Pair(Pow2(f.wordBits), high, low) as real, e) == Ldexp(Pair(Pow2(f.wordBits), high0, low0) as real, e0)
      else e > e0 && high == high0 / Pow2(e - e0) && (low != 0 <==> low0 != 0 || high0 % Pow2(e - e0) != 0)
  {
    hide Pow2, Ldexp, Implicit1;
    Pow2Zero();
    FractionFits(f);
    e, high, low := ShiftBack(f, e0, high0, low0);
    if high0 >= 2 * Implicit1(f) {
      PairHigh(Pow2(f.wordBits), high, low);
    }
    hide Pair;
    e, high, low := ShiftForward(f, e, high, low);
  }

  lemma PairHigh(base: nat, high: nat, low: nat)
    requires base > 0 && high > 0
    ensures Pair(base, high, low) > 0
  {
    MulAtLeast(base, high, 1);
  }

  lemma ShiftOut(base: nat, bound: nat, high: nat, low: nat)
    requires base > 0 && base % 2 == 0 && high < bound && low < base
    ensures var h := high * 2 + if low >= base / 2 then 1 else 0;
      Pair(base, h, Wrap(base, low * 2)) == 2 * Pair(base, high, low)
    ensures Pair(base, high, low) < Pair(base, bound, 0)
  {
    WrapOnce(base, low * 2);
    var c := if low >= base / 2 then 1 else 0;
    PairSum(base, high, high, c);
    IntScaleStrict(high, bound, base);
  }

  /** The double word cut at its word boundary. */
  lemma CutPair(base: nat, n: nat, high: nat, low: nat)
    requires base == Pow2(n) && low < base
    ensures Truncates(Ldexp(Pair(base, high, low) as real, 0 - n), high, low != 0)
  {
    var w := Pair(base, high, low);
    var t := Ldexp(w as real, 0 - n);
    LdexpInverse(w as real, 0 - n);
    LdexpAdd(w as real, 0 - n, n);
    LdexpNat(high, n);
    LdexpNat(high + 1, n);
    LdexpOrder(t, high as real, n);
    LdexpOrder(t, (high + 1) as real, n);
    assert (high + 1) * base == high * base + base;
  }

  /** The product of two fractions fills at most the double word below the second binade. */
  lemma MantissaProduct(f: Format, fa: nat, fb: nat, high: int, low: int)
    requires f.Valid() && Implicit1(f) <= fa < 2 * Implicit1(f) && Implicit1(f) <= fb < 2 * Implicit1(f)
    requires IsWideProduct(Pow2(f.wordBits), fa, fb, high, low)
    ensures 0 <= high < 2 * Implicit1(f) && 0 <= low < Pow2(f.wordBits)
    ensures Pair(Pow2(f.wordBits), high, low) == fa * fb > 0
  {
    var i, base := Implicit1(f), Pow2(f.wordBits);
    FractionFits(f);
    hide Pow2, Implicit1;
    ProductBound(fa, fb, 2 * i, 2 * i);
    IntScale(2 * i, base, 2 * i);
    assert 2 * i * base == base * (2 * i);
    IntScaleStrictBoth(high, 2 * i, base);
    IntScale(1, fa, fb);
  }

  /** The exact magnitude of the product of two numbers. */
  function ExactProduct(f: Format, a: Parts, b: Parts): real {
    RealTimes(PartsValue(f, a), PartsValue(f, b))
  }

  lemma ProductValue(f: Format, a: Parts, b: Parts, e: int, w: int)
    requires Ldexp(w as real, e) ==
      Ldexp((a.fraction * b.fraction) as real, a.normalExp + b.normalExp + f.wordBits - (f.fracBits + f.guards))
    ensures FractionValue(f, e, Ldexp(w as real, 0 - f.wordBits)) == ExactProduct(f, a, b)
  {
    var fa, fb, ea, eb := a.fraction, b.fraction, a.normalExp, b.normalExp;
    var k, n := f.fracBits + f.guards, f.wordBits;
    LdexpProduct(fa as real, ea - k, fb as real, eb - k);
    assert RealTimes(fa as real, fb as real) == (fa * fb) as real;
    LdexpAdd(w as real, 0 - n, e - k);
    LdexpAdd(w as real, e, 0 - n - k);
    LdexpAdd((fa * fb) as real, ea + eb + n - k, 0 - n - k);
  }

  /** The part of the source's `_fpmul_parts` that multiplies two numbers. */
  method MultiplyNumbers(f: Format, how: Multiplier, a: FpNumber, b: FpNumber, tmp: FpNumber)
    requires f.Valid() && tmp != a && tmp != b
    requires a.sign <= 1 && b.sign <= 1
    requires how == HalfWords ==> f.wordBits % 2 == 0
    requires Unpacked(f, a.View()) && Unpacked(f, b.View())
    modifies tmp
    ensures tmp.sign == if a.sign != b.sign then 1 else 0
    ensures PartsTail(f, ExactProduct(f, a.View(), b.View()), tmp.View())
  {
    hide Pow2, Ldexp, Pair, FractionValue, IsWideProduct, Truncates, TailRound, PartsTail, ExactProduct;
    FractionFits(f);
    ghost var pa, pb := a.View(), b.View();
    var high, low := MultiplyMantissas(f, how, a.fraction, b.fraction);
    MantissaProduct(f, a.fraction, b.fraction, high, low);
    var e := a.normalExp + b.normalExp + f.wordBits - (f.fracBits + f.guards);
    var sign := if a.sign != b.sign then 1 else 0;
    var fraction: nat;
    e, high, low := NormalizeProduct(f, e, high, low);
    fraction := RoundTail(f, high, low);
    ProductValue(f, pa, pb, e, Pair(Pow2(f.wordBits), high, low));
    CutPair(Pow2(f.wordBits), f.wordBits, high, low);
    tmp.normalExp := e;
    tmp.sign := sign;
    tmp.fraction := fraction;
    tmp.cls := Number;
    TailParts(f, e, Ldexp(Pair(Pow2(f.wordBits), high, low) as real, 0 - f.wordBits), high, low != 0, tmp.View());
    assert a.View() == pa && b.View() == pb;
  }

  /** The fields that `_fpmul_parts` returns for fields `a` and `b`. */
  ghost predicate PartsMultiply(f: Format, a: Parts, b: Parts, r: Parts)
    requires f.Valid()
  {
    var sign := if a.sign != b.sign then 1 else 0;
    if a.cls.SNan? || a.cls.QNan? then r == a.(sign := sign)
    else if b.cls.SNan? || b.cls.QNan? then r == b.(sign := sign)
    else if a.cls.Infinite? then r == if b.cls.Zero? then MakeNan() else a.(sign := sign)
    else if b.cls.Infinite? then r == if a.cls.Zero? then MakeNan() else b.(sign := sign)
    else if a.cls.Zero? then r == a.(sign := sign)
    else if b.cls.Zero? then r == b.(sign := sign)
    else r.sign == sign && PartsTail(f, ExactProduct(f, a, b), r)
  }

  /** The source's `_fpmul_parts`: special operands are returned with their sign overwritten. */
  method MultiplyParts(f: Format, how: Multiplier, a: FpNumber, b: FpNumber, tmp: FpNumber) returns (res: FpNumber)
    requires f.Valid() && tmp != a && tmp != b && a != b
    requires a.sign <= 1 && b.sign <= 1
    requires how == HalfWords ==> f.wordBits % 2 == 0
    requires a.cls == Number ==> Unpacked(f, a.View())
    requires b.cls == Number ==> Unpacked(f, b.View())
    modifies a`sign, b`sign, tmp
    ensures PartsMultiply(f, old(a.View()), old(b.View()), res.View())
  {
    hide Unpacked, PartsTail, ExactProduct;
    ghost var pa, pb := a.View(), b.View();
    if a.IsNan() {
      a.sign := if a.sign != b.sign then 1 else 0;
      return a;
    }
    if b.IsNan() {
      b.sign := if a.sign != b.sign then 1 else 0;
      return b;
    }
    if a.cls == Infinite {
      if b.cls == Zero {
        res := new FpNumber();
        res.normalExp := 0;
        return;
      }
      a.sign := if a.sign != b.sign then 1 else 0;
      return a;
    }
    if b.cls == Infinite {
      if a.cls == Zero {
        res := new FpNumber();
        res.normalExp := 0;
        return;
      }
      b.sign := if a.sign != b.sign then 1 else 0;
      return b;
    }
    if a.cls == Zero {
      a.sign := if a.sign != b.sign then 1 else 0;
      return a;
    }
    if b.cls == Zero {
      b.sign := if a.sign != b.sign then 1 else 0;
      return b;
    }
    MultiplyNumbers(f, how, a, b, tmp);
    assert a.View() == pa && b.View() == pb;
    return tmp;
  }

  /** The sign of a product or quotient. */
  function SignOf(f: Format, a: nat, b: nat): nat {
    if SignBit(f, a) != SignBit(f, b) then 1 else 0
  }

  /** `r` is the finite result with the exact magnitude `x` and the given sign. */
  ghost predicate IsTailResult(f: Format, sign: nat, x: real, r: nat)
    requires f.Valid()
  {
    Encoding(f, r) && SignBit(f, r) == sign && TailRounded(f, x, Magnitude(f, r))
  }

  /** The exact product of two finite encodings. */
  function RealProduct(f: Format, a: nat, b: nat): real
    requires f.Valid()
  {
    RealTimes(Value(f, a), Value(f, b))
  }

  /** The product of two encodings. A NaN operand propagates, quieted, with the sign of a product; zero
      times infinity is the default NaN. */
  ghost predicate IsProduct(f: Format, a: nat, b: nat, r: nat)
    requires f.Valid()
  {
    var sign := SignOf(f, a, b);
    if IsNaN(f, a) then r == Encode(f, sign, QuietNan(f, Payload(f, a)))
    else if IsNaN(f, b) then r == Encode(f, sign, QuietNan(f, Payload(f, b)))
    else if (IsInfinite(f, a) && IsZero(f, b)) || (IsZero(f, a) && IsInfinite(f, b)) then r == Encode(f, 0, QuietNan(f, 0))
    else if IsInfinite(f, a) || IsInfinite(f, b) then r == Encode(f, sign, f.Infinity())
    else if IsZero(f, a) || IsZero(f, b) then r == Encode(f, sign, 0)
    else IsTailResult(f, sign, Abs(RealProduct(f, a, b)), r)
  }

  lemma DecodedProduct(f: Format, a: nat, b: nat, pa: Parts, pb: Parts)
    requires f.Valid() && Encoding(f, a) && Encoding(f, b)
    requires Decodes(f, a, pa) && Decodes(f, b, pb)
    requires IsFinite(f, a) && !IsZero(f, a) && IsFinite(f, b) && !IsZero(f, b)
    ensures ExactProduct(f, pa, pb) == Abs(RealProduct(f, a, b))
  {
    ZeroValue(f, Magnitude(f, a));
    ZeroValue(f, Magnitude(f, b));
    var x, y := PartsValue(f, pa), PartsValue(f, pb);
    var signA, signB := SignBit(f, a), SignBit(f, b);
    assert Value(f, a) == if signA == 1 then -x else x;
    assert Value(f, b) == if signB == 1 then -y else y;
    assert x >= 0.0 && y >= 0.0;
    hide Value, MagnitudeValue, PartsValue, Decodes, SignBit, RealTimes;
    AbsProduct(signA, x, signB, y);
  }

  lemma AbsProduct(signA: nat, x: real, signB: nat, y: real)
    requires x >= 0.0 && y >= 0.0
    ensures Abs(RealTimes(if signA == 1 then -x else x, if signB == 1 then -y else y)) == RealTimes(x, y)
  {
    assert x * y >= 0.0;
    assert (-x) * y == -(x * y) && x * (-y) == -(x * y) && (-x) * (-y) == x * y;
  }

  /** What packing needs of the fields of a product or quotient. */
  ghost predicate Packable(f: Format, p: Parts) {
    p.sign <= 1 && (p.cls == Number ==> p.fraction == 0 || Implicit1(f) <= p.fraction <= 2 * Implicit1(f))
  }

  lemma ProductFields(f: Format, a: Parts, b: Parts, r: Parts)
    requires f.Valid() && PartsMultiply(f, a, b, r)
    requires a.cls == Number ==> Unpacked(f, a)
    requires b.cls == Number ==> Unpacked(f, b)
    ensures Packable(f, r)
  {
    hide Unpacked, ExactProduct, TailRounded;
  }

  /** What the fields returned by `_fpmul_parts` pack to. */
  lemma PackedProduct(f: Format, a: nat, b: nat, pa: Parts, pb: Parts, p: Parts, r: nat)
    requires f.Valid() && Encoding(f, a) && Encoding(f, b)
    requires Decodes(f, a, pa) && Decodes(f, b, pb)
    requires PartsMultiply(f, pa, pb, p) && p.sign <= 1
    requires PartsMagnitude(f, p) < Pow2(f.fracBits + f.expBits)
    requires r == Encode(f, p.sign, PartsMagnitude(f, p))
    ensures IsProduct(f, a, b, r)
  {
    hide Pow2, PackedMagnitude, MagnitudeValue, PartsValue, Magnitude, Encode, SignBit, TailRounded, ExactProduct, RealProduct;
    EncodingSplit(f, a);
    EncodingSplit(f, b);
    EncodeFields(f, p.sign, PartsMagnitude(f, p));
    DefaultNan(f);
    if IsNaN(f, a) {
      PayloadShifted(f, a, pa.fraction);
      assert IsProduct(f, a, b, r);
    } else if IsNaN(f, b) {
      PayloadShifted(f, b, pb.fraction);
      assert IsProduct(f, a, b, r);
    } else if IsFinite(f, a) && IsFinite(f, b) && !IsZero(f, a) && !IsZero(f, b) {
      DecodedProduct(f, a, b, pa, pb);
      ImplicitPositive(f);
      assert IsProduct(f, a, b, r);
    } else {
      assert IsProduct(f, a, b, r);
    }
  }

  /** A result in the normal range is correctly rounded. */
  lemma NormalRange(f: Format, x: real, m: nat)
    requires f.Valid() && TailRounded(f, x, m)
    requires Ldexp(1.0, f.ExpMin()) <= x
    ensures MagnitudeRounds(f, x, m)
  {
    var e, t :| NormalForm(f, x, e, t) && t >= 0.0 && TailPacks(f, x, e, t, m);
    if e < f.ExpMin() {
      var k := f.fracBits + f.guards;
      LdexpOrder(t, (2 * Implicit1(f)) as real, e - k);
      LdexpNat(2, k);
      LdexpAdd(2.0, k, e - k);
      LdexpStep(1.0, e);
      LdexpGrows(1.0, e + 1, f.ExpMin());
      assert false;
    }
  }

  lemma SignedResult(f: Format, v: real, sign: nat, r: nat)
    requires f.Valid() && v != 0.0 && sign == (if v < 0.0 then 1 else 0)
    requires IsTailResult(f, sign, Abs(v), r)
    requires Ldexp(1.0, f.ExpMin()) <= Abs(v)
    ensures Rounds(f, v, r)
  {
    NormalRange(f, Abs(v), Magnitude(f, r));
  }

  lemma SignOfValue(f: Format, a: nat)
    requires f.Valid() && Encoding(f, a) && !IsZero(f, a)
    ensures Value(f, a) != 0.0 && (Value(f, a) < 0.0 <==> SignBit(f, a) == 1) && SignBit(f, a) <= 1
  {
    ZeroValue(f, Magnitude(f, a));
    EncodingSplit(f, a);
  }

  lemma ProductSign(f: Format, a: nat, b: nat)
    requires f.Valid() && Encoding(f, a) && Encoding(f, b) && !IsZero(f, a) && !IsZero(f, b)
    ensures RealProduct(f, a, b) != 0.0
    ensures SignOf(f, a, b) == if RealProduct(f, a, b) < 0.0 then 1 else 0
  {
    hide Value, MagnitudeValue, SignBit, RealTimes;
    SignOfValue(f, a);
    SignOfValue(f, b);
    SignOfProduct(Value(f, a), Value(f, b));
  }

  lemma SignOfProduct(x: real, y: real)
    requires x != 0.0 && y != 0.0
    ensures RealTimes(x, y) != 0.0
    ensures RealTimes(x, y) < 0.0 <==> ((x < 0.0) != (y < 0.0))
  {
    if x < 0.0 {
      assert (-x) * y == -(x * y);
    }
    if y < 0.0 {
      assert x * (-y) == -(x * y);
    }
    if x < 0.0 && y < 0.0 {
      assert (-x) * (-y) == x * y;
    }
  }

  /** The source's `multiply`. */
  method Multiply(f: Format, how: Multiplier, argA: nat, argB: nat) returns (r: nat)
    requires f.Valid() && Encoding(f, argA) && Encoding(f, argB)
    requires how == HalfWords ==> f.wordBits % 2 == 0
    ensures IsProduct(f, argA, argB, r)
    ensures IsFinite(f, argA) && IsFinite(f, argB) && Ldexp(1.0, f.ExpMin()) <= Abs(RealProduct(f, argA, argB)) ==>
      Rounds(f, RealProduct(f, argA, argB), r)
  {
    var a := new FpNumber();
    var b := new FpNumber();
    var tmp := new FpNumber();
    hide IsProduct, PartsMultiply, PartsMagnitude, Encode, Pow2, Unpacked, Encoding, Decodes, Implicit1, Value, Ldexp, Rounds;
    Unpack(f, argA, a);
    Unpack(f, argB, b);
    ghost var pa, pb := a.View(), b.View();
    DecodedFields(f, argA, pa);
    DecodedFields(f, argB, pb);
    var res := MultiplyParts(f, how, a, b, tmp);
    ProductFields(f, pa, pb, res.View());
    r := Pack(f, res);
    PackedProduct(f, argA, argB, pa, pb, res.View(), r);
    ProductInRange(f, argA, argB, r);
  }

  lemma ProductInRange(f: Format, a: nat, b: nat, r: nat)
    requires f.Valid() && Encoding(f, a) && Encoding(f, b) && IsProduct(f, a, b, r)
    ensures IsFinite(f, a) && IsFinite(f, b) && Ldexp(1.0, f.ExpMin()) <= Abs(RealProduct(f, a, b)) ==>
      Rounds(f, RealProduct(f, a, b), r)
  {
    hide Pow2, Ldexp, MagnitudeValue, Magnitude, SignBit, Encode, IsTailResult, Rounds, Value;
    if IsFinite(f, a) && IsFinite(f, b) && Ldexp(1.0, f.ExpMin()) <= Abs(RealProduct(f, a, b)) {
      LdexpPositive(f.ExpMin());
      ZeroFactor(f, a, b);
      ProductSign(f, a, b);
      SignedResult(f, RealProduct(f, a, b), SignOf(f, a, b), r);
    }
  }

  lemma ZeroFactor(f: Format, a: nat, b: nat)
    requires f.Valid()
    ensures IsZero(f, a) || IsZero(f, b) ==> RealProduct(f, a, b) == 0.0
  {
    ZeroValue(f, Magnitude(f, a));
    ZeroValue(f, Magnitude(f, b));
  }

  lemma LdexpPositive(e: int)
    ensures Ldexp(1.0, e) > 0.0
  {
    LdexpZero(e);
    LdexpOrder(0.0, 1.0, e);
  }

  // Division.

  /** The quotient-bit loop: `bit` walks down from the leading one, the numerator doubles. */
  method DivideMantissas(f: Format, numerator0: nat, denominator: nat) returns (quotient: nat, numerator: nat)
    requires f.Valid() && Implicit1(f) <= denominator < 2 * Implicit1(f)
    requires denominator <= numerator0 < 2 * denominator
    ensures Implicit1(f) <= quotient < 2 * Implicit1(f)
    ensures numerator < 2 * denominator
    ensures 2 * Times(numerator0, Implicit1(f)) == 2 * Times(quotient, denominator) + numerator
  {
    var bit := Implicit1(f);
    quotient, numerator := 0, numerator0;
    FractionFits(f);
    ghost var k: nat := f.fracBits + f.guards + 1;
    ghost var total := 2 * Times(numerator0, Implicit1(f));
    StartQuotient(f, numerator0, denominator);
    assert Pow2(k - 1) == Implicit1(f);
    hide Pow2, Times, Low, Implicit1;
    while bit != 0
      invariant bit == if k > 0 then Pow2(k - 1) else 0
      invariant k <= f.fracBits + f.guards + 1
      invariant numerator < 2 * denominator
      invariant Low(quotient, k) == 0
      invariant total == 2 * Times(quotient, denominator) + Times(numerator, Pow2(k))
      decreases k
    {
      QuotientBit(quotient, numerator, denominator, k);
      if numerator >= denominator {
        quotient := quotient + bit;
        numerator := numerator - denominator;
      }
      bit := bit / 2;
      WordFits(f, numerator * 2);
      numerator := Word(f, numerator * 2);
      k := k - 1;
    }
    FinishQuotient(f, numerator0, denominator, quotient, numerator);
  }

  lemma StartQuotient(f: Format, numerator0: nat, denominator: nat)
    ensures Low(0, f.fracBits + f.guards + 1) == 0
    ensures 2 * Times(numerator0, Implicit1(f)) ==
      2 * Times(0, denominator) + Times(numerator0, Pow2(f.fracBits + f.guards + 1))
  {
    DivModUnique(0, Pow2(f.fracBits + f.guards + 1), 0, 0);
    DoubledFactor(numerator0, Implicit1(f));
  }

  /** One round: the quotient bit is free, and quotient and remainder still rebuild the numerator. */
  lemma QuotientBit(quotient: nat, numerator: nat, denominator: nat, k: nat)
    requires k > 0 && Low(quotient, k) == 0
    ensures Pow2(k - 1) > 0 && Pow2(k - 1) / 2 == if k > 1 then Pow2(k - 2) else 0
    ensures Low(quotient, k - 1) == 0 && Low(quotient + Pow2(k - 1), k - 1) == 0
    ensures Times(numerator, Pow2(k)) == Times(numerator * 2, Pow2(k - 1))
    ensures numerator >= denominator ==>
      2 * Times(quotient, denominator) + Times(numerator, Pow2(k)) ==
      2 * Times(quotient + Pow2(k - 1), denominator) + Times((numerator - denominator) * 2, Pow2(k - 1))
  {
    var p := Pow2(k - 1);
    assert Pow2(k) == 2 * p;
    DivModFacts(quotient, 2 * p);
    var c := quotient / (2 * p);
    assert quotient == (2 * c) * p by {
      assert c * (2 * p) == (2 * c) * p;
    }
    assert (2 * c + 1) * p == (2 * c) * p + p;
    DivModUnique(quotient, p, 2 * c, 0);
    DivModUnique(quotient + p, p, 2 * c + 1, 0);
    DoubledFactor(numerator, p);
    BitMoved(quotient, numerator, denominator, p);
  }

  lemma BitMoved(q: int, n: int, d: int, p: int)
    ensures 2 * Times(q, d) + Times(n * 2, p) == 2 * Times(q + p, d) + Times((n - d) * 2, p)
  {
    assert (q + p) * d == q * d + p * d;
    assert ((n - d) * 2) * p == (n * 2) * p - 2 * (d * p);
    assert d * p == p * d;
  }

  lemma FinishQuotient(f: Format, n: nat, d: nat, q: nat, r: nat)
    requires Implicit1(f) > 0 && d <= n < 2 * d && r < 2 * d
    requires 2 * Times(n, Implicit1(f)) == 2 * Times(q, d) + Times(r, Pow2(0))
    ensures 2 * Times(n, Implicit1(f)) == 2 * Times(q, d) + r
    ensures Implicit1(f) <= q < 2 * Implicit1(f)
  {
    var i := Implicit1(f);
    assert Pow2(0) == 1;
    hide Pow2, Implicit1;
    IntScale(d, n, i);
    IntScaleStrict(n, 2 * d, i);
    IntScaleStrictBoth(q, i, d);
    IntScaleStrictBoth(q, 2 * i, d);
    DoubledSides(d, i);
  }

  lemma DoubledSides(d: int, i: int)
    ensures d * i == i * d && 2 * d * i == 2 * (i * d) == 2 * i * d
  {
  }

  /** The exact magnitude of the quotient of two numbers. */
  function ExactQuotient(f: Format, a: Parts, b: Parts): real
    requires PartsValue(f, b) != 0.0
  {
    PartsValue(f, a) / PartsValue(f, b)
  }

  lemma PartsPositive(f: Format, p: Parts)
    requires f.Valid() && Unpacked(f, p)
    ensures PartsValue(f, p) > 0.0
  {
    LdexpZero(p.normalExp - f.fracBits - f.guards);
    LdexpOrder(0.0, p.fraction as real, p.normalExp - f.fracBits - f.guards);
  }

  /** The integer quotient and remainder as a truncated real quotient. */
  lemma CutQuotient(n: nat, d: nat, q: nat, r: nat, i: nat, t: real)
    requires d > 0 && r < 2 * d
    requires 2 * Times(n, i) == 2 * Times(q, d) + r
    requires t == (n * i) as real / d as real
    ensures Truncates(t, q, r != 0)
  {
    var ni, qd := n * i, q * d;
    DivTimes(ni, d);
    assert RealTimes(q as real, d as real) == qd as real;
    assert (q + 1) * d == qd + d;
    assert RealTimes((q + 1) as real, d as real) == (qd + d) as real;
    TimesOrder(q as real, t, d as real);
    TimesOrder(t, (q + 1) as real, d as real);
    hide Times, RealTimes;
  }

  lemma TimesOrder(a: real, b: real, p: real)
    requires p > 0.0
    ensures a < b <==> RealTimes(a, p) < RealTimes(b, p)
    ensures a == b <==> RealTimes(a, p) == RealTimes(b, p)
  {
    RealScale(a, b, p);
  }

  /** The quotient in guard units at exponent `e` is the exact quotient of the two numbers. */
  lemma QuotientValue(f: Format, a: Parts, b: Parts, n: nat, e: int, t: real)
    requires f.Valid() && Unpacked(f, b)
    requires (n == a.fraction && e == a.normalExp - b.normalExp) || (n == 2 * a.fraction && e == a.normalExp - b.normalExp - 1)
    requires t == (n * Implicit1(f)) as real / b.fraction as real
    ensures PartsValue(f, b) != 0.0 && FractionValue(f, e, t) == ExactQuotient(f, a, b)
  {
    PartsPositive(f, b);
    var k, d := f.fracBits + f.guards, b.fraction as real;
    assert RealTimes(t, d) == (n * Implicit1(f)) as real by {
      DivTimes(n * Implicit1(f), b.fraction);
    }
    hide RealTimes, Ldexp, Pow2;
    LdexpProduct(t, e - k, d, b.normalExp - k);
    LdexpNat(n, k);
    LdexpAdd(n as real, k, e - k + (b.normalExp - k));
    if n != a.fraction {
      LdexpStep(a.fraction as real, e + b.normalExp - k);
      assert n as real == 2.0 * (a.fraction as real);
    }
    assert RealTimes(FractionValue(f, e, t), PartsValue(f, b)) == PartsValue(f, a);
    QuotientUnique(FractionValue(f, e, t), PartsValue(f, b), PartsValue(f, a));
  }

  lemma DivTimes(x: int, d: int)
    requires d != 0
    ensures RealTimes(x as real / d as real, d as real) == x as real
  {
  }

  lemma QuotientUnique(x: real, y: real, z: real)
    requires y != 0.0 && RealTimes(x, y) == z
    ensures x == z / y
  {
  }

  /** The part of the source's `_fpdiv_parts` that divides two numbers, in place on the dividend. */
  method DivideNumbers(f: Format, a: FpNumber, b: FpNumber)
    requires f.Valid() && a != b
    requires Unpacked(f, a.View()) && Unpacked(f, b.View())
    modifies a`normalExp, a`fraction
    ensures PartsValue(f, b.View()) != 0.0
    ensures PartsTail(f, ExactQuotient(f, old(a.View()), b.View()), a.View())
  {
    ghost var pa, pb := a.View(), b.View();
    a.normalExp := a.normalExp - b.normalExp;
    var numerator, denominator := a.fraction, b.fraction;
    hide Pow2, Ldexp, FractionValue, Truncates, TailRound, PartsTail, ExactQuotient, PartsValue;
    FractionFits(f);
    if numerator < denominator {
      WordFits(f, numerator * 2);
      numerator := Word(f, numerator * 2);
      a.normalExp := a.normalExp - 1;
    }
    ghost var n := numerator;
    ghost var t := (n * Implicit1(f)) as real / denominator as real;
    var quotient;
    quotient, numerator := DivideMantissas(f, numerator, denominator);
    CutQuotient(n, denominator, quotient, numerator, Implicit1(f), t);
    QuotientValue(f, pa, pb, n, a.normalExp, t);
    a.fraction := RoundTail(f, quotient, numerator);
    TailParts(f, a.normalExp, t, quotient, numerator != 0, a.View());
    assert b.View() == pb;
  }

  /** The fields that `_fpdiv_parts` returns for fields `a` and `b`. */
  ghost predicate PartsDivide(f: Format, a: Parts, b: Parts, r: Parts)
    requires f.Valid()
  {
    var sign := if a.sign != b.sign then 1 else 0;
    if a.cls.SNan? || a.cls.QNan? then r == a
    else if b.cls.SNan? || b.cls.QNan? then r == b
    else if a.cls.Infinite? || a.cls.Zero? then r == if a.cls == b.cls then MakeNan() else a.(sign := sign)
    else if b.cls.Infinite? then r == a.(sign := sign, fraction := 0, normalExp := 0)
    else if b.cls.Zero? then r == a.(sign := sign, cls := Infinite)
    else r.sign == sign && PartsValue(f, b) != 0.0 && PartsTail(f, ExactQuotient(f, a, b), r)
  }

  /** The source's `_fpdiv_parts`: the result overwrites the dividend. */
  method DivideParts(f: Format, a: FpNumber, b: FpNumber) returns (res: FpNumber)
    requires f.Valid() && a != b
    requires a.sign <= 1 && b.sign <= 1
    requires a.cls == Number ==> Unpacked(f, a.View())
    requires b.cls == Number ==> Unpacked(f, b.View())
    modifies a
    ensures PartsDivide(f, old(a.View()), old(b.View()), res.View())
  {
    hide PartsTail, ExactQuotient, PartsValue;
    if a.IsNan() {
      return a;
    }
    if b.IsNan() {
      return b;
    }
    ghost var pa, pb := a.View(), b.View();
    a.sign := if a.sign != b.sign then 1 else 0;
    if a.cls == Infinite || a.cls == Zero {
      if a.cls == b.cls {
        res := new FpNumber();
        res.normalExp := 0;
        return;
      }
      return a;
    }
    if b.cls == Infinite {
      a.fraction := 0;
      a.normalExp := 0;
      return a;
    }
    if b.cls == Zero {
      a.cls := Infinite;
      return a;
    }
    assert Unpacked(f, a.View()) by {
      assert a.View() == pa.(sign := a.sign);
    }
    DivideNumbers(f, a, b);
    SignIgnored(f, pa, pb, a.sign);
    return a;
  }

  lemma SignIgnored(f: Format, a: Parts, b: Parts, sign: nat)
    requires PartsValue(f, b) != 0.0
    ensures ExactQuotient(f, a.(sign := sign), b) == ExactQuotient(f, a, b)
  {
  }

  /** The exact quotient of two encodings. */
  function RealQuotient(f: Format, a: nat, b: nat): real
    requires f.Valid() && Value(f, b) != 0.0
  {
    Value(f, a) / Value(f, b)
  }

  /** The quotient of two encodings. A NaN operand propagates, quieted; zero by zero and infinity by
      infinity are the default NaN. */
  ghost predicate IsQuotient(f: Format, a: nat, b: nat, r: nat)
    requires f.Valid()
  {
    var sign := SignOf(f, a, b);
    if IsNaN(f, a) then r == Quieted(f, a)
    else if IsNaN(f, b) then r == Quieted(f, b)
    else if (IsInfinite(f, a) && IsInfinite(f, b)) || (IsZero(f, a) && IsZero(f, b)) then r == Encode(f, 0, QuietNan(f, 0))
    else if IsInfinite(f, a) || IsZero(f, b) then r == Encode(f, sign, f.Infinity())
    else if IsZero(f, a) || IsInfinite(f, b) then r == Encode(f, sign, 0)
    else Value(f, b) != 0.0 && IsTailResult(f, sign, Abs(RealQuotient(f, a, b)), r)
  }

  lemma DecodedQuotient(f: Format, a: nat, b: nat, pa: Parts, pb: Parts)
    requires f.Valid() && Encoding(f, a) && Encoding(f, b)
    requires Decodes(f, a, pa) && Decodes(f, b, pb)
    requires IsFinite(f, a) && !IsZero(f, a) && IsFinite(f, b) && !IsZero(f, b)
    ensures Value(f, b) != 0.0 && PartsValue(f, pb) != 0.0
    ensures ExactQuotient(f, pa, pb) == Abs(RealQuotient(f, a, b))
  {
    ZeroValue(f, Magnitude(f, a));
    ZeroValue(f, Magnitude(f, b));
    var x, y := PartsValue(f, pa), PartsValue(f, pb);
    var signA, signB := SignBit(f, a), SignBit(f, b);
    assert Value(f, a) == if signA == 1 then -x else x;
    assert Value(f, b) == if signB == 1 then -y else y;
    assert x >= 0.0 && y > 0.0;
    hide Value, MagnitudeValue, PartsValue, Decodes, SignBit;
    AbsQuotient(signA, x, signB, y);
  }

  lemma AbsQuotient(signA: nat, x: real, signB: nat, y: real)
    requires x >= 0.0 && y > 0.0
    ensures Abs((if signA == 1 then -x else x) / (if signB == 1 then -y else y)) == x / y
  {
    var q := x / y;
    QuotientSign(x, y);
    assert (-x) / y == -q && x / (-y) == -q && (-x) / (-y) == q;
  }

  lemma QuotientSign(x: real, y: real)
    requires x >= 0.0 && y > 0.0
    ensures x / y >= 0.0
  {
  }

  lemma QuotientFields(f: Format, a: Parts, b: Parts, r: Parts)
    requires f.Valid() && PartsDivide(f, a, b, r) && a.sign <= 1 && b.sign <= 1
    requires a.cls == Number ==> Unpacked(f, a)
    requires b.cls == Number ==> Unpacked(f, b)
    ensures Packable(f, r)
  {
    hide Unpacked, ExactQuotient, TailRounded;
  }

  /** What the fields returned by `_fpdiv_parts` pack to. */
  lemma PackedQuotient(f: Format, a: nat, b: nat, pa: Parts, pb: Parts, p: Parts, r: nat)
    requires f.Valid() && Encoding(f, a) && Encoding(f, b)
    requires Decodes(f, a, pa) && Decodes(f, b, pb)
    requires PartsDivide(f, pa, pb, p) && p.sign <= 1
    requires PartsMagnitude(f, p) < Pow2(f.fracBits + f.expBits)
    requires r == Encode(f, p.sign, PartsMagnitude(f, p))
    ensures IsQuotient(f, a, b, r)
  {
    hide Pow2, PackedMagnitude, MagnitudeValue, PartsValue, Magnitude, Encode, SignBit, TailRounded, ExactQuotient, RealQuotient;
    EncodingSplit(f, a);
    EncodingSplit(f, b);
    EncodeFields(f, p.sign, PartsMagnitude(f, p));
    DefaultNan(f);
    if IsNaN(f, a) {
      PackUndoesUnpack(f, a, pa);
      assert IsQuotient(f, a, b, r);
    } else if IsNaN(f, b) {
      PackUndoesUnpack(f, b, pb);
      assert IsQuotient(f, a, b, r);
    } else if IsFinite(f, a) && IsFinite(f, b) && !IsZero(f, a) && !IsZero(f, b) {
      DecodedQuotient(f, a, b, pa, pb);
      ImplicitPositive(f);
      assert IsQuotient(f, a, b, r);
    } else {
      assert IsQuotient(f, a, b, r);
    }
  }

  lemma SignOfQuotient(x: real, y: real)
    requires x != 0.0 && y != 0.0
    ensures x / y != 0.0
    ensures x / y < 0.0 <==> ((x < 0.0) != (y < 0.0))
  {
    var q := x / y;
    assert RealTimes(q, y) == x;
    if q != 0.0 {
      SignOfProduct(q, y);
    }
  }

  lemma QuotientInRange(f: Format, a: nat, b: nat, r: nat)
    requires f.Valid() && Encoding(f, a) && Encoding(f, b) && IsQuotient(f, a, b, r)
    ensures IsFinite(f, a) && IsFinite(f, b) && !IsZero(f, b) ==>
      Value(f, b) != 0.0 && (Ldexp(1.0, f.ExpMin()) <= Abs(RealQuotient(f, a, b)) ==> Rounds(f, RealQuotient(f, a, b), r))
  {
    hide Pow2, Ldexp, MagnitudeValue, Magnitude, SignBit, Encode, IsTailResult, Rounds, Value;
    if IsFinite(f, a) && IsFinite(f, b) && !IsZero(f, b) {
      SignOfValue(f, b);
      LdexpPositive(f.ExpMin());
      if IsZero(f, a) {
        ZeroQuotient(f, a, b);
      } else {
        SignOfValue(f, a);
        SignOfQuotient(Value(f, a), Value(f, b));
        if Ldexp(1.0, f.ExpMin()) <= Abs(RealQuotient(f, a, b)) {
          SignedResult(f, RealQuotient(f, a, b), SignOf(f, a, b), r);
        }
      }
    }
  }

  lemma ZeroQuotient(f: Format, a: nat, b: nat)
    requires f.Valid() && IsZero(f, a) && Value(f, b) != 0.0
    ensures RealQuotient(f, a, b) == 0.0
  {
    ZeroValue(f, Magnitude(f, a));
    assert Value(f, a) == 0.0;
  }

  /** The source's `divide`. */
  method Divide(f: Format, argA: nat, argB: nat) returns (r: nat)
    requires f.Valid() && Encoding(f, argA) && Encoding(f, argB)
    ensures IsQuotient(f, argA, argB, r)
    ensures IsFinite(f, argA) && IsFinite(f, argB) && !IsZero(f, argB) ==>
      Value(f, argB) != 0.0 &&
      (Ldexp(1.0, f.ExpMin()) <= Abs(RealQuotient(f, argA, argB)) ==> Rounds(f, RealQuotient(f, argA, argB), r))
  {
    var a := new FpNumber();
    var b := new FpNumber();
    hide IsQuotient, PartsDivide, PartsMagnitude, Encode, Pow2, Unpacked, Encoding, Decodes, Implicit1, Value, Ldexp, Rounds;
    Unpack(f, argA, a);
    Unpack(f, argB, b);
    ghost var pa, pb := a.View(), b.View();
    DecodedFields(f, argA, pa);
    DecodedFields(f, argB, pb);
    var res := DivideParts(f, a, b);
    QuotientFields(f, pa, pb, res.View());
    r := Pack(f, res);
    PackedQuotient(f, argA, argB, pa, pb, res.View(), r);
    QuotientInRange(f, argA, argB, r);
  }

  // Subnormal results.

  lemma NormalFormUnique(f: Format, x: real, e: int, t: real, e': int, t': real)
    requires NormalForm(f, x, e, t) && NormalForm(f, x, e', t')
    ensures e == e' && t == t'
  {
    if e < e' {
      NormalFormsApart(f, e, t, e', t');
    } else if e' < e {
      NormalFormsApart(f, e', t', e, t);
    } else {
      LdexpOrder(t, t', e - f.fracBits - f.guards);
    }
  }

  lemma NormalFormsApart(f: Format, e: int, t: real, e': int, t': real)
    requires e < e' && t < (2 * Implicit1(f)) as real && Implicit1(f) as real <= t'
    ensures FractionValue(f, e, t) < FractionValue(f, e', t')
  {
    var k, i := f.fracBits + f.guards, Implicit1(f) as real;
    LdexpOrder(t, 2.0 * i, e - k);
    LdexpStep(i, e - k);
    LdexpGrows(i, e + 1 - k, e' - k);
    LdexpOrder(i, t', e' - k);
  }

  /** A subnormal product or quotient is off by what a lost tail costs, so it is correctly rounded exactly when
      none is lost. */
  lemma SubnormalResult(f: Format, x: real, m: nat, e: int, t: real)
    requires f.Valid() && TailRounded(f, x, m) && NormalForm(f, x, e, t) && t >= 0.0 && e < f.ExpMin()
    ensures var k := Misrounding(f, f.ExpMin() - e, t.Floor, t != t.Floor as real);
      m >= k && MagnitudeRounds(f, x, m - k)
    ensures MagnitudeRounds(f, x, m) <==> !LosesTail(f, f.ExpMin() - e, t.Floor, t != t.Floor as real)
  {
    var e', t' :| NormalForm(f, x, e', t') && t' >= 0.0 && TailPacks(f, x, e', t', m);
    var k := Misrounding(f, f.ExpMin() - e, t.Floor, t != t.Floor as real);
    assert k == 0 <==> !LosesTail(f, f.ExpMin() - e, t.Floor, t != t.Floor as real);
    hide LosesTail, MagnitudeRounds, FractionValue, Misrounding;
    NormalFormUnique(f, x, e, t, e', t');
    if MagnitudeRounds(f, x, m) {
      RoundingIsUnique(f, x, m, m - k);
    }
  }
}
