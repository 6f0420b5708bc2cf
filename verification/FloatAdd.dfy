/** Soft-float addition and subtraction (plugin-libc/libgcc/fp-bit.c). */
module FloatAdd {
  import opened Powers
  import opened Ieee754
  import opened Rounding
  import opened SoftFloat

  function SignedValue(f: Format, p: Parts): real {
    if p.sign == 1 then -PartsValue(f, p) else PartsValue(f, p)
  }

  function Signed(sign: nat, x: int): int {
    if sign == 1 then -x else x
  }

  function SignedReal(sign: nat, x: real): real {
    if sign == 1 then -x else x
  }

  // Alignment.

  /** `r` stands for `t` with the leading one in place and clear guard bits. */
  ghost predicate AlignedExactly(f: Format, t: real, r: nat) {
    && t == r as real
    && Implicit1(f) <= r < 2 * Implicit1(f)
    && r % Pow2(f.guards) == 0
  }

  /** `r` stands for `t` shifted right with a sticky bit; it is small unless nothing was lost. */
  ghost predicate AlignedSticky(f: Format, t: real, r: nat) {
    && 0.0 < t
    && OddRound(t, r)
    && r < 2 * Implicit1(f)
    && (t != r as real ==> 2 * r <= Implicit1(f))
  }

  /** `r` was dropped because `t` is below half a guard bit. */
  ghost predicate AlignedAway(t: real, r: nat) {
    r == 0 && 0.0 < t <= 0.5
  }

  /** Two fractions brought to exponent `e`: one is exact, the other carries a sticky bit or has
      vanished next to a normal number. */
  ghost predicate AlignedPair(f: Format, e: int, ta: real, a: nat, tb: real, b: nat)
    requires f.Valid()
  {
    || (AlignedExactly(f, ta, a) && (AlignedSticky(f, tb, b) || (AlignedAway(tb, b) && f.ExpMin() <= e)))
    || (AlignedExactly(f, tb, b) && (AlignedSticky(f, ta, a) || (AlignedAway(ta, a) && f.ExpMin() <= e)))
  }

  /** The magnitude of `p` in guard units at exponent `e`. */
  function UnitsAt(p: Parts, e: int): real {
    Ldexp(p.fraction as real, p.normalExp - e)
  }

  lemma UnitsKeepValue(f: Format, p: Parts, e: int)
    ensures FractionValue(f, e, UnitsAt(p, e)) == PartsValue(f, p)
  {
    LdexpAdd(p.fraction as real, p.normalExp - e, e - f.fracBits - f.guards);
  }

  lemma ShiftKeepsMultiples(r: nat, s: nat, g: nat)
    requires s <= g && r % Pow2(g) == 0
    ensures StickyShift(r, s) as real == Ldexp(r as real, 0 - s)
  {
    var c := r / Pow2(g) * Pow2(g - s);
    DivModFacts(r, Pow2(g));
    Pow2Split(s, g);
    assert r == c * Pow2(s) by {
      MulAssocInt(r / Pow2(g), Pow2(g - s), Pow2(s));
    }
    DivModUnique(r, Pow2(s), c, 0);
    LdexpNat(c, s);
    LdexpAdd(c as real, s, 0 - s);
  }

  lemma MulAssocInt(a: int, b: int, c: int)
    ensures (a * b) * c == a * (b * c)
  {
  }

  lemma StickyQuarter(r: nat, s: nat, b: nat)
    requires 2 <= s && r < 4 * b
    ensures StickyShift(r, s) <= b
  {
    var d := Pow2(s);
    DivModFacts(r, d);
    assert d == 2 * Pow2(s - 1) == 4 * Pow2(s - 2);
    var q := r / d;
    var qd := q * d;
    hide Pow2;
    if q >= b {
      IntScale(b, q, d);
      MulAtLeast(b, d, 4);
    }
  }

  lemma StickyAligned(f: Format, p: Parts, s: nat)
    requires f.Valid() && Unpacked(f, p)
    ensures AlignedSticky(f, Ldexp(p.fraction as real, 0 - s), StickyShift(p.fraction, s))
  {
    var r, i := p.fraction, Implicit1(f);
    LdexpZero(0 - s);
    LdexpOrder(0.0, r as real, 0 - s);
    StickyShiftIsOdd(r as real, r, s);
    Pow2Eight(f.fracBits + f.guards);
    hide Pow2, Ldexp;
    if s <= f.guards {
      ShiftKeepsMultiples(r, s, f.guards);
    } else {
      StickyQuarter(r, s, i / 2);
    }
    StickyAtMost(r, s);
  }

  lemma StickyAtMost(r: nat, s: nat)
    requires r > 0
    ensures StickyShift(r, s) <= r
  {
    var d := Pow2(s);
    DivModFacts(r, d);
    MulAtLeast(r / d, d, 1);
    var q := r / d;
    var qd := q * d;
    hide Pow2;
    if d >= 2 {
      MulAtLeast(q, d, 2);
    }
  }

  lemma FarAligned(f: Format, p: Parts, s: nat)
    requires f.Valid() && Unpacked(f, p) && s >= f.wordBits
    ensures AlignedAway(Ldexp(p.fraction as real, 0 - s), 0)
  {
    var r := p.fraction;
    LdexpZero(0 - s);
    LdexpOrder(0.0, r as real, 0 - s);
    FractionFits(f);
    Pow2Monotone(f.wordBits, s);
    LdexpNat(1, s);
    LdexpAdd(1.0, s, 0 - s);
    LdexpOrder(r as real, Pow2(s) as real / 2.0, 0 - s);
    LdexpStep(Pow2(s) as real / 2.0, 0 - s);
  }

  /** The source's alignment of two unpacked numbers to the larger exponent. */
  method Align(f: Format, a: FpNumber, b: FpNumber) returns (e: int, af: nat, bf: nat)
    requires f.Valid() && Unpacked(f, a.View()) && Unpacked(f, b.View())
    ensures e == (if a.normalExp >= b.normalExp then a.normalExp else b.normalExp)
    ensures AlignedPair(f, e, UnitsAt(a.View(), e), af, UnitsAt(b.View(), e), bf)
  {
    var aExp, bExp := a.normalExp, b.normalExp;
    af, bf := a.fraction, b.fraction;
    var diff := aExp - bExp;
    var sdiff := diff;
    if diff < 0 {
      diff := -diff;
    }
    hide Pow2, StickyShift, OddRound, AlignedSticky;
    if diff < f.wordBits {
      StickyAligned(f, a.View(), diff);
      StickyAligned(f, b.View(), diff);
      if sdiff > 0 {
        bExp := bExp + diff;
        bf := StickyShift(bf, diff);
      } else if sdiff < 0 {
        aExp := aExp + diff;
        af := StickyShift(af, diff);
      } else {
        assert StickyShift(bf, 0) == bf by {
          StickyShiftZero(bf);
        }
      }
    } else {
      FarAligned(f, a.View(), diff);
      FarAligned(f, b.View(), diff);
      if aExp > bExp {
        bExp := aExp;
        bf := 0;
      } else {
        aExp := bExp;
        af := 0;
      }
    }
    e := aExp;
  }

  lemma StickyShiftZero(r: nat)
    ensures StickyShift(r, 0) == r
  {
  }

  // The signed sum of two aligned fractions.

  /** `s` guard units stand for the exact sum `t`: rounded to odd, exact where the sum cancels by more
      than one bit; or `t` is within half a guard unit of an operand with clear guard bits. */
  ghost predicate SumApproximates(f: Format, e: int, t: real, s: int)
    requires f.Valid()
  {
    var m := if s < 0 then -s else s;
    || (OddRound(t, s) && (t == s as real || Implicit1(f) <= 2 * m))
    || (&& f.ExpMin() <= e && -0.5 <= t - s as real <= 0.5
        && Implicit1(f) <= m < 2 * Implicit1(f) && m % Pow2(f.guards) == 0)
  }

  lemma AlignedSum(f: Format, e: int, signA: nat, ta: real, a: nat, signB: nat, tb: real, b: nat)
    requires f.Valid() && signA <= 1 && signB <= 1
    requires AlignedPair(f, e, ta, a, tb, b)
    ensures SumApproximates(f, e, SignedReal(signA, ta) + SignedReal(signB, tb), Signed(signA, a) + Signed(signB, b))
    ensures signA == signB ==> Implicit1(f) <= a + b < 4 * Implicit1(f)
    ensures signA != signB ==> -2 * Implicit1(f) < a - b < 2 * Implicit1(f)
  {
    hide SumApproximates, AlignedSticky, AlignedAway, AlignedExactly, OddRound, Pow2;
    if AlignedExactly(f, ta, a) && (AlignedSticky(f, tb, b) || (AlignedAway(tb, b) && f.ExpMin() <= e)) {
      ExactPlusAligned(f, e, signA, ta, a, signB, tb, b);
    } else {
      ExactPlusAligned(f, e, signB, tb, b, signA, ta, a);
    }
  }

  lemma ExactPlusAligned(f: Format, e: int, signX: nat, tx: real, x: nat, signY: nat, ty: real, y: nat)
    requires f.Valid() && signX <= 1 && signY <= 1
    requires AlignedExactly(f, tx, x)
    requires AlignedSticky(f, ty, y) || (AlignedAway(ty, y) && f.ExpMin() <= e)
    ensures SumApproximates(f, e, SignedReal(signX, tx) + SignedReal(signY, ty), Signed(signX, x) + Signed(signY, y))
    ensures signX == signY ==> Implicit1(f) <= x + y < 4 * Implicit1(f)
    ensures signX != signY ==> -2 * Implicit1(f) < x - y < 2 * Implicit1(f)
  {
    Pow2Eight(f.guards);
    EvenMultipleOf(x, Pow2(f.guards));
    hide Pow2, Implicit1, OddRound;
    var t, s := SignedReal(signX, tx) + SignedReal(signY, ty), Signed(signX, x) + Signed(signY, y);
    if AlignedSticky(f, ty, y) {
      OddSum(signX, tx, x, signY, ty, y);
    }
  }

  lemma OddSum(signX: nat, tx: real, x: nat, signY: nat, ty: real, y: nat)
    requires tx == x as real && x % 2 == 0 && OddRound(ty, y)
    ensures OddRound(SignedReal(signX, tx) + SignedReal(signY, ty), Signed(signX, x) + Signed(signY, y))
    ensures ty == y as real ==>
      SignedReal(signX, tx) + SignedReal(signY, ty) == (Signed(signX, x) + Signed(signY, y)) as real
  {
    var a, b := Signed(signX, x), Signed(signY, y);
    assert a % 2 == 0;
    if ty != y as real {
      assert b % 2 == 1;
      assert (a + b) % 2 == 1;
    }
  }

  lemma EvenMultipleOf(a: nat, d: nat)
    requires d > 0 && d % 2 == 0 && a % d == 0
    ensures a % 2 == 0
  {
    DivModFacts(a, d);
    EvenMultiple(a / d, d);
  }

  // Renormalizing the sum.

  /** Fraction `r` at exponent `e` packs to the rounding of `t` of its units. */
  ghost predicate ReadyToPack(f: Format, e: int, r: nat, t: real)
    requires f.Valid()
  {
    && Implicit1(f) <= r < 2 * Implicit1(f)
    && (SameQuad(t, r) || (f.ExpMin() <= e && r % Pow2(f.guards) == 0 && -0.5 <= t - r as real <= 0.5))
  }

  lemma ReadyRounds(f: Format, e: int, r: nat, t: real)
    requires f.Valid() && ReadyToPack(f, e, r, t)
    ensures MagnitudeRounds(f, FractionValue(f, e, t), PackedMagnitude(f, e, r))
  {
    hide Pow2, PackedMagnitude, FractionValue, SameQuad;
    if SameQuad(t, r) {
      PackedRounds(f, e, r, t);
    } else {
      PackedRoundsNear(f, e, r, t);
    }
  }

  /** The renormalizing loop after a subtraction: shift left until the leading one is in place. */
  method ShiftUp(f: Format, e0: int, m: nat, ghost t: real) returns (e: int, r: nat)
    requires f.Valid() && 0 < m < 2 * Implicit1(f) && 0.0 <= t
    requires SumApproximates(f, e0, t, m)
    ensures ReadyToPack(f, e, r, Ldexp(t, e0 - e))
  {
    e, r := e0, m;
    FractionFits(f);
    hide Pow2, FractionValue, OddRound, SameQuad;
    while r < Implicit1(f)
      invariant 0 < r < 2 * Implicit1(f)
      invariant t == m as real ==> Ldexp(t, e0 - e) == r as real
      invariant t != m as real ==> (e == e0 && r == m) || (e == e0 - 1 && r == 2 * m && Implicit1(f) <= r)
      decreases Implicit1(f) - r
    {
      if t == m as real {
        LdexpStep(t, e0 - e);
      }
      WordFits(f, 2 * r);
      r := Word(f, 2 * r);
      e := e - 1;
    }
    ShiftedUp(f, e0, m, t, e, r);
  }

  lemma ShiftedUp(f: Format, e0: int, m: nat, t: real, e: int, r: nat)
    requires f.Valid() && SumApproximates(f, e0, t, m)
    requires Implicit1(f) <= r < 2 * Implicit1(f)
    requires t == m as real ==> Ldexp(t, e0 - e) == r as real
    requires t != m as real ==> (e == e0 && r == m) || (e == e0 - 1 && r == 2 * m)
    ensures ReadyToPack(f, e, r, Ldexp(t, e0 - e))
  {
    if t != m as real {
      assert Ldexp(t, 1) == 2.0 * t;
      hide Pow2, Ldexp;
      if OddRound(t, m) {
        OddIsSameQuad(t, m);
        DoubledOddIsSameQuad(t, m);
      }
    }
  }

  /** A sum that carried is shifted right once, keeping the lost bit sticky; any other sum of two
      fractions is ready as it is. */
  lemma Carried(f: Format, e: int, m: nat, t: real)
    requires f.Valid() && Implicit1(f) <= m < 4 * Implicit1(f)
    requires SumApproximates(f, e, t, m)
    ensures if m >= 2 * Implicit1(f) then ReadyToPack(f, e + 1, StickyShift(m, 1), Ldexp(t, -1))
            else ReadyToPack(f, e, m, t)
  {
    if m >= 2 * Implicit1(f) {
      StickyShiftIsOdd(t, m, 1);
      OddIsSameQuad(Ldexp(t, -1), StickyShift(m, 1));
      HalfBetween(m, Implicit1(f));
    } else if OddRound(t, m) {
      OddIsSameQuad(t, m);
    }
  }

  lemma HalfBetween(m: nat, i: nat)
    requires 2 * i <= m < 4 * i
    ensures i <= StickyShift(m, 1) < 2 * i
  {
    assert Pow2(1) == 2;
  }

  // Addition of two numbers.

  /** `p` rounds the real number `x`. */
  ghost predicate PartsRound(f: Format, x: real, p: Parts)
    requires f.Valid()
  {
    && p.cls == Number && p.sign <= 1
    && (p.fraction == 0 || Implicit1(f) <= p.fraction <= 2 * Implicit1(f))
    && (if x == 0.0 then p.fraction == 0 && p.sign == 0
        else && p.fraction != 0
             && p.sign == (if x < 0.0 then 1 else 0)
             && MagnitudeRounds(f, Abs(x), PackedMagnitude(f, p.normalExp, p.fraction)))
  }

  /** The source's addition or subtraction of aligned fractions, with the renormalization that
      follows it; `t` is the exact signed sum in the same units. */
  method Combine(f: Format, e: int, signA: nat, af: int, signB: nat, bf: int, ghost t: real)
    returns (sign: nat, normalExp: int, fraction: nat)
    requires f.Valid() && signA <= 1 && signB <= 1
    requires SumApproximates(f, e, t, Signed(signA, af) + Signed(signB, bf))
    requires signA == signB ==> Implicit1(f) <= af + bf < 4 * Implicit1(f)
    requires signA != signB ==> -2 * Implicit1(f) < af - bf < 2 * Implicit1(f)
    ensures sign == if t < 0.0 then 1 else 0
    ensures t == 0.0 ==> fraction == 0
    ensures t != 0.0 ==> ReadyToPack(f, normalExp, fraction, Ldexp(Abs(t), e - normalExp))
  {
    ghost var s := Signed(signA, af) + Signed(signB, bf);
    SignedSum(f, e, t, s);
    hide Pow2, Implicit1, SumApproximates, FractionValue, ReadyToPack, StickyShift, Ldexp;
    if signA != signB {
      var tfraction: int := if signA == 1 then -af + bf else af - bf;
      if tfraction >= 0 {
        sign := 0;
        normalExp := e;
        fraction := tfraction;
      } else {
        sign := 1;
        normalExp := e;
        fraction := -tfraction;
      }
      if fraction != 0 {
        normalExp, fraction := ShiftUp(f, e, fraction, Abs(t));
        ReadyBounds(f, normalExp, fraction, Ldexp(Abs(t), e - normalExp));
      } else {
        assert Implicit1(f) > 0 by { ImplicitPositive(f); }
      }
    } else {
      sign := signA;
      normalExp := e;
      fraction := af + bf;
      assert Ldexp(Abs(t), 0) == Abs(t) by { LdexpZeroExp(Abs(t)); }
      Carried(f, e, fraction, Abs(t));
    }
    if fraction >= 2 * Implicit1(f) {
      fraction := StickyShift(fraction, 1);
      normalExp := normalExp + 1;
    }
  }

  lemma LdexpZeroExp(t: real)
    ensures Ldexp(t, 0) == t
  {
  }

  /** The part of the source's `_fpadd_parts` that adds two numbers. */
  method AddNumbers(f: Format, a: FpNumber, b: FpNumber, tmp: FpNumber)
    requires f.Valid() && tmp != a && tmp != b
    requires a.sign <= 1 && b.sign <= 1
    requires Unpacked(f, a.View()) && Unpacked(f, b.View())
    modifies tmp
    ensures PartsRound(f, SignedValue(f, a.View()) + SignedValue(f, b.View()), tmp.View())
  {
    hide Pow2, FractionValue, SignedValue, Unpacked, PackedMagnitude, MagnitudeRounds;
    var e, af, bf := Align(f, a, b);
    ghost var pa, pb := a.View(), b.View();
    ghost var t := SignedReal(a.sign, UnitsAt(pa, e)) + SignedReal(b.sign, UnitsAt(pb, e));
    AlignedSum(f, e, a.sign, UnitsAt(pa, e), af, b.sign, UnitsAt(pb, e), bf);
    SumValue(f, e, pa, pb);
    tmp.sign, tmp.normalExp, tmp.fraction := Combine(f, e, a.sign, af, b.sign, bf, t);
    tmp.cls := Number;
    hide ReadyToPack, UnitsAt;
    FractionValueSign(f, e, t);
    if t != 0.0 {
      SumRounds(f, e, t, tmp.normalExp, tmp.fraction);
    }
  }

  lemma FractionValueSign(f: Format, e: int, t: real)
    ensures FractionValue(f, e, t) < 0.0 <==> t < 0.0
    ensures FractionValue(f, e, t) == 0.0 <==> t == 0.0
  {
    AbsLdexp(t, e - f.fracBits - f.guards);
  }

  /** The sum of two numbers in units of exponent `e`. */
  lemma SumValue(f: Format, e: int, pa: Parts, pb: Parts)
    ensures SignedValue(f, pa) + SignedValue(f, pb)
      == FractionValue(f, e, SignedReal(pa.sign, UnitsAt(pa, e)) + SignedReal(pb.sign, UnitsAt(pb, e)))
  {
    UnitsKeepValue(f, pa, e);
    UnitsKeepValue(f, pb, e);
    var ta, tb, k := UnitsAt(pa, e), UnitsAt(pb, e), e - f.fracBits - f.guards;
    SignedLdexp(pa.sign, ta, k);
    SignedLdexp(pb.sign, tb, k);
    LdexpSum(SignedReal(pa.sign, ta), SignedReal(pb.sign, tb), k);
  }

  lemma SignedLdexp(sign: nat, t: real, k: int)
    ensures Ldexp(SignedReal(sign, t), k) == SignedReal(sign, Ldexp(t, k))
  {
    LdexpSum(0.0, t, k);
    LdexpZero(k);
  }

  lemma AbsLdexp(t: real, k: int)
    ensures Ldexp(Abs(t), k) == Abs(Ldexp(t, k))
    ensures t < 0.0 <==> Ldexp(t, k) < 0.0
    ensures t == 0.0 <==> Ldexp(t, k) == 0.0
  {
    LdexpDistance(t, 0.0, k);
    LdexpZero(k);
    LdexpOrder(t, 0.0, k);
  }

  /** The sign and the size of an approximated sum. */
  lemma SignedSum(f: Format, e: int, t: real, s: int)
    requires f.Valid() && SumApproximates(f, e, t, s)
    ensures SumApproximates(f, e, Abs(t), if s < 0 then -s else s)
    ensures s < 0 <==> t < 0.0
    ensures s == 0 <==> t == 0.0
  {
  }

  lemma ReadyBounds(f: Format, e: int, r: nat, t: real)
    requires f.Valid() && ReadyToPack(f, e, r, t)
    ensures Implicit1(f) <= r < 2 * Implicit1(f) && Implicit1(f) > 0
  {
  }

  lemma SumRounds(f: Format, e: int, t: real, e': int, r: nat)
    requires f.Valid() && ReadyToPack(f, e', r, Ldexp(Abs(t), e - e'))
    ensures MagnitudeRounds(f, Abs(FractionValue(f, e, t)), PackedMagnitude(f, e', r))
    ensures 0 < Implicit1(f) <= r < 2 * Implicit1(f)
  {
    ReadyRounds(f, e', r, Ldexp(Abs(t), e - e'));
    LdexpAdd(Abs(t), e - e', e' - f.fracBits - f.guards);
    AbsLdexp(t, e - f.fracBits - f.guards);
  }

  // The operations.

  /** The fields that `_fpadd_parts` returns for fields `a` and `b`. */
  ghost predicate PartsAdd(f: Format, a: Parts, b: Parts, r: Parts)
    requires f.Valid()
  {
    if a.cls.SNan? || a.cls.QNan? then r == a
    else if b.cls.SNan? || b.cls.QNan? then r == b
    else if a.cls.Infinite? then r == if b.cls.Infinite? && a.sign != b.sign then MakeNan() else a
    else if b.cls.Infinite? then r == b
    else if b.cls.Zero? then r == if a.cls.Zero? then a.(sign := if a.sign == 1 && b.sign == 1 then 1 else 0) else a
    else if a.cls.Zero? then r == b
    else PartsRound(f, SignedValue(f, a) + SignedValue(f, b), r)
  }

  /** The source's `_fpadd_parts`: the result is one of the operands, a fresh NaN, or `tmp`. */
  method AddParts(f: Format, a: FpNumber, b: FpNumber, tmp: FpNumber) returns (res: FpNumber)
    requires f.Valid() && tmp != a && tmp != b
    requires a.sign <= 1 && b.sign <= 1
    requires a.cls == Number ==> Unpacked(f, a.View())
    requires b.cls == Number ==> Unpacked(f, b.View())
    modifies tmp
    ensures PartsAdd(f, a.View(), b.View(), res.View())
  {
    hide PartsRound, SignedValue, Unpacked;
    if a.IsNan() {
      return a;
    }
    if b.IsNan() {
      return b;
    }
    if a.cls == Infinite {
      if b.cls == Infinite && a.sign != b.sign {
        res := new FpNumber();
        res.normalExp := 0;
        return;
      }
      return a;
    }
    if b.cls == Infinite {
      return b;
    }
    if b.cls == Zero {
      if a.cls == Zero {
        tmp.cls, tmp.sign, tmp.normalExp, tmp.fraction := a.cls, a.sign, a.normalExp, a.fraction;
        tmp.sign := if a.sign == 1 && b.sign == 1 then 1 else 0;
        return tmp;
      }
      return a;
    }
    if a.cls == Zero {
      return b;
    }
    AddNumbers(f, a, b, tmp);
    return tmp;
  }

  /** The IEEE 754 sum of two encodings: exact real arithmetic rounded once, ties to even; exact zeros
      are positive unless both operands are negative zeros; an invalid sum of infinities is the
      default NaN; a NaN operand propagates, quieted. */
  ghost predicate IsSum(f: Format, a: nat, b: nat, r: nat)
    requires f.Valid()
  {
    if IsNaN(f, a) then r == Quieted(f, a)
    else if IsNaN(f, b) then r == Quieted(f, b)
    else if IsInfinite(f, a) then
      r == if IsInfinite(f, b) && SignBit(f, a) != SignBit(f, b) then Encode(f, 0, QuietNan(f, 0)) else a
    else if IsInfinite(f, b) then r == b
    else if Value(f, a) + Value(f, b) != 0.0 then Rounds(f, Value(f, a) + Value(f, b), r)
    else r == Encode(f, if IsZero(f, a) && IsZero(f, b) && SignBit(f, a) == 1 && SignBit(f, b) == 1 then 1 else 0, 0)
  }

  lemma DecodedValue(f: Format, bits: nat, p: Parts)
    requires f.Valid() && Encoding(f, bits) && Decodes(f, bits, p)
    requires IsFinite(f, bits) && !IsZero(f, bits)
    ensures SignedValue(f, p) == Value(f, bits) != 0.0
  {
    ZeroValue(f, Magnitude(f, bits));
  }

  /** What the fields returned by `_fpadd_parts` pack to. */
  lemma PackedSum(f: Format, a: nat, b: nat, pa: Parts, pb: Parts, p: Parts, r: nat)
    requires f.Valid() && Encoding(f, a) && Encoding(f, b)
    requires Decodes(f, a, pa) && Decodes(f, b, pb)
    requires PartsAdd(f, pa, pb, p)
    requires PartsMagnitude(f, p) < Pow2(f.fracBits + f.expBits)
    requires r == Encode(f, p.sign, PartsMagnitude(f, p)) && p.sign <= 1
    ensures IsSum(f, a, b, r)
  {
    hide Pow2, PackedMagnitude, MagnitudeValue, PartsValue, Magnitude, Encode, SignBit, Quieted, MagnitudeRounds;
    PackUndoesUnpack(f, a, pa);
    PackUndoesUnpack(f, b, pb);
    EncodingSplit(f, a);
    EncodingSplit(f, b);
    EncodeFields(f, p.sign, PartsMagnitude(f, p));
    if IsFinite(f, a) && IsFinite(f, b) {
      if IsZero(f, a) || IsZero(f, b) {
        SumWithZero(f, a, b);
        SumWithZero(f, b, a);
      } else {
        DecodedValue(f, a, pa);
        DecodedValue(f, b, pb);
      }
    } else {
      DefaultNan(f);
    }
  }

  lemma SumWithZero(f: Format, z: nat, b: nat)
    requires f.Valid() && Encoding(f, b) && IsFinite(f, b)
    ensures IsZero(f, z) ==> Value(f, z) + Value(f, b) == Value(f, b) == Value(f, b) + Value(f, z)
    ensures Value(f, b) == 0.0 <==> IsZero(f, b)
    ensures !IsZero(f, b) ==> Rounds(f, Value(f, b), b)
  {
    ZeroValue(f, Magnitude(f, z));
    ZeroValue(f, Magnitude(f, b));
    EncodingSplit(f, b);
    if !IsZero(f, b) {
      OwnRounding(f, Magnitude(f, b));
    }
  }

  /** A finite magnitude is the rounding of its own value. */
  lemma OwnRounding(f: Format, m: nat)
    requires f.Valid() && m < f.Infinity()
    ensures MagnitudeRounds(f, MagnitudeValue(f, m), m)
  {
    FiniteBelowThreshold(f, m);
    hide MagnitudeValue, OverflowThreshold;
    forall c: nat | c < f.Infinity() && c != m
      ensures Abs(MagnitudeValue(f, m) - MagnitudeValue(f, m)) < Abs(MagnitudeValue(f, c) - MagnitudeValue(f, m))
    {
      if c < m {
        MagnitudeStrictlyMonotone(f, c, m);
      } else {
        MagnitudeStrictlyMonotone(f, m, c);
      }
    }
  }

  /** The encoding with the sign bit flipped. */
  function Negated(f: Format, bits: nat): nat {
    Encode(f, 1 - SignBit(f, bits), Magnitude(f, bits))
  }

  lemma NegatedFields(f: Format, bits: nat)
    requires f.Valid() && Encoding(f, bits)
    ensures Encoding(f, Negated(f, bits))
    ensures SignBit(f, Negated(f, bits)) == 1 - SignBit(f, bits)
    ensures Magnitude(f, Negated(f, bits)) == Magnitude(f, bits)
    ensures Value(f, Negated(f, bits)) == -Value(f, bits)
  {
    EncodingSplit(f, bits);
    DivModFacts(bits, Pow2(f.fracBits + f.expBits));
    EncodeFields(f, 1 - SignBit(f, bits), Magnitude(f, bits));
  }

  /** The fields a sum is packed from. */
  lemma SumFields(f: Format, a: Parts, b: Parts, r: Parts)
    requires f.Valid() && PartsAdd(f, a, b, r)
    requires a.sign <= 1 && b.sign <= 1
    requires a.cls == Number ==> Unpacked(f, a)
    requires b.cls == Number ==> Unpacked(f, b)
    ensures r.sign <= 1
    ensures r.cls == Number ==> r.fraction == 0 || Implicit1(f) <= r.fraction <= 2 * Implicit1(f)
  {
    hide Pow2, Implicit1, SignedValue, MagnitudeRounds;
  }

  /** The source's `add`. */
  method Add(f: Format, argA: nat, argB: nat) returns (r: nat)
    requires f.Valid() && Encoding(f, argA) && Encoding(f, argB)
    ensures IsSum(f, argA, argB, r)
  {
    var a := new FpNumber();
    var b := new FpNumber();
    var tmp := new FpNumber();
    hide IsSum, PartsAdd, PartsMagnitude, Encode, Pow2, Unpacked, Encoding, Decodes, Implicit1;
    Unpack(f, argA, a);
    Unpack(f, argB, b);
    ghost var pa, pb := a.View(), b.View();
    DecodedFields(f, argA, pa);
    DecodedFields(f, argB, pb);
    var res := AddParts(f, a, b, tmp);
    SumFields(f, pa, pb, res.View());
    r := Pack(f, res);
    PackedSum(f, argA, argB, pa, pb, res.View(), r);
  }

  /** The source's `sub`: the sign of the second operand is flipped after unpacking. */
  method Sub(f: Format, argA: nat, argB: nat) returns (r: nat)
    requires f.Valid() && Encoding(f, argA) && Encoding(f, argB)
    ensures IsSum(f, argA, Negated(f, argB), r)
    ensures IsFinite(f, argA) && IsFinite(f, argB) && Value(f, argA) != Value(f, argB) ==>
      Rounds(f, Value(f, argA) - Value(f, argB), r)
  {
    var a := new FpNumber();
    var b := new FpNumber();
    var tmp := new FpNumber();
    hide IsSum, PartsAdd, PartsMagnitude, Encode, Pow2, Unpacked, Encoding, Decodes, Implicit1;
    Unpack(f, argA, a);
    Unpack(f, argB, b);
    ghost var pa, pb := a.View(), b.View();
    DecodedFields(f, argA, pa);
    DecodedFields(f, argB, pb);
    b.sign := if b.sign == 0 then 1 else 0;
    ghost var nb := b.View();
    NegatedDecodes(f, argB, pb, nb);
    DecodedFields(f, Negated(f, argB), nb);
    var res := AddParts(f, a, b, tmp);
    SumFields(f, pa, nb, res.View());
    r := Pack(f, res);
    PackedSum(f, argA, Negated(f, argB), pa, nb, res.View(), r);
    DifferenceRounds(f, argA, argB, r);
  }

  lemma NegatedDecodes(f: Format, bits: nat, p: Parts, n: Parts)
    requires f.Valid() && Encoding(f, bits) && Decodes(f, bits, p)
    requires n == p.(sign := if p.sign == 0 then 1 else 0)
    ensures Encoding(f, Negated(f, bits)) && Decodes(f, Negated(f, bits), n)
  {
    NegatedFields(f, bits);
    EncodingSplit(f, bits);
  }

  lemma DifferenceRounds(f: Format, a: nat, b: nat, r: nat)
    requires f.Valid() && Encoding(f, b) && IsSum(f, a, Negated(f, b), r)
    ensures IsFinite(f, a) && IsFinite(f, b) && Value(f, a) != Value(f, b) ==> Rounds(f, Value(f, a) - Value(f, b), r)
  {
    NegatedFields(f, b);
  }
}
