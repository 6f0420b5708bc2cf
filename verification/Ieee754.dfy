/** Binary interchange formats and their rounding (IEEE 754-2008, sections 3.4 and 4.3.1), stated
    over the reals and independently of the soft-float code that is proved against them. */
module Ieee754 {
  import opened Powers

  /** A format together with the soft-float layout chosen for it: the number of guard bits kept
      below the fraction and the width of the word that carries an unpacked fraction. */
  datatype Format = Format(fracBits: nat, guards: nat, expBits: nat, wordBits: nat) {
    predicate Valid() {
      && 2 <= fracBits && 3 <= guards && 2 <= expBits
      && fracBits + guards + 2 <= wordBits
      && fracBits + expBits + 1 <= wordBits
    }

    function Bias(): int
      requires Valid()
    {
      Pow2(expBits - 1) - 1
    }

    /** The all-ones exponent field. */
    function ExpMax(): nat {
      Pow2(expBits) - 1
    }

    /** The exponent of the smallest normal number. */
    function ExpMin(): int
      requires Valid()
    {
      1 - Bias()
    }

    /** The exponent of the unit in the last place of a subnormal number. */
    function UnitExp(): int
      requires Valid()
    {
      ExpMin() - fracBits
    }

    /** The magnitude (an encoding without its sign bit) of infinity. */
    function Infinity(): nat {
      ExpMax() * Pow2(fracBits)
    }
  }

  const SINGLE := Format(23, 7, 8, 32)
  const DOUBLE := Format(52, 8, 11, 64)
  const QUAD := Format(112, 10, 15, 128)

  // The parts of an encoding.

  function SignBit(f: Format, bits: nat): nat {
    bits / Pow2(f.fracBits + f.expBits) % 2
  }

  function Magnitude(f: Format, bits: nat): nat {
    bits % Pow2(f.fracBits + f.expBits)
  }

  predicate IsNaN(f: Format, bits: nat) {
    Magnitude(f, bits) > f.Infinity()
  }

  predicate IsInfinite(f: Format, bits: nat) {
    Magnitude(f, bits) == f.Infinity()
  }

  predicate IsFinite(f: Format, bits: nat) {
    Magnitude(f, bits) < f.Infinity()
  }

  predicate IsZero(f: Format, bits: nat) {
    Magnitude(f, bits) == 0
  }

  /** The encoding with the given sign and magnitude. */
  function Encode(f: Format, sign: nat, m: nat): nat {
    sign * Pow2(f.fracBits + f.expBits) + m
  }

  // The real number an encoding stands for.

  /** The significand of a magnitude, with the leading one of a normal number in place. */
  function Significand(f: Format, m: nat): nat {
    if m / Pow2(f.fracBits) == 0 then m % Pow2(f.fracBits)
    else Pow2(f.fracBits) + m % Pow2(f.fracBits)
  }

  /** How far the unit in the last place of a magnitude lies above the subnormal one. */
  function Scale(f: Format, m: nat): int {
    if m / Pow2(f.fracBits) == 0 then 0 else m / Pow2(f.fracBits) - 1
  }

  function MagnitudeValue(f: Format, m: nat): real
    requires f.Valid()
  {
    Ldexp(Significand(f, m) as real, Scale(f, m) + f.UnitExp())
  }

  function Value(f: Format, bits: nat): real
    requires f.Valid()
  {
    if SignBit(f, bits) == 1 then -MagnitudeValue(f, Magnitude(f, bits))
    else MagnitudeValue(f, Magnitude(f, bits))
  }

  /** The least magnitude that roundTiesToEven carries to infinity. */
  function OverflowThreshold(f: Format): real
    requires f.Valid()
  {
    Ldexp(2.0 - Ldexp(1.0, -1 - f.fracBits), f.Bias())
  }

  /** Magnitude `m` is the roundTiesToEven result for the non-negative real `x`: infinity from the
      overflow threshold on, and otherwise the nearest finite magnitude, an even one where two are
      equally near. */
  ghost predicate MagnitudeRounds(f: Format, x: real, m: nat)
    requires f.Valid()
  {
    if x >= OverflowThreshold(f) then
      m == f.Infinity()
    else
      && m < f.Infinity()
      && forall c: nat | c < f.Infinity() ::
        && Abs(MagnitudeValue(f, m) - x) <= Abs(MagnitudeValue(f, c) - x)
        && (c != m && Abs(MagnitudeValue(f, m) - x) == Abs(MagnitudeValue(f, c) - x) ==> m % 2 == 0)
  }

  /** `bits` is the non-zero real `x` rounded to nearest, ties to even. */
  ghost predicate Rounds(f: Format, x: real, bits: nat)
    requires f.Valid()
  {
    && bits < 2 * Pow2(f.fracBits + f.expBits)
    && SignBit(f, bits) == (if x < 0.0 then 1 else 0)
    && MagnitudeRounds(f, Abs(x), Magnitude(f, bits))
  }

  // Rounding on the integer grid.

  /** Integer `q` is the real `y` rounded to nearest, ties to even. */
  ghost predicate NearestEven(y: real, q: int) {
    && -1.0 <= 2.0 * (y - q as real) <= 1.0
    && (2.0 * (y - q as real) == -1.0 || 2.0 * (y - q as real) == 1.0 ==> q % 2 == 0)
  }

  /** The significand and scale of the magnitude with exponent field `e` and fraction `q`. */
  lemma MagnitudeFields(f: Format, e: nat, q: nat)
    requires q < Pow2(f.fracBits)
    ensures var m := e * Pow2(f.fracBits) + q;
      && Significand(f, m) == (if e == 0 then q else Pow2(f.fracBits) + q)
      && Scale(f, m) == (if e == 0 then 0 else e - 1)
  {
    DivModUnique(e * Pow2(f.fracBits) + q, Pow2(f.fracBits), e, q);
  }

  lemma MagnitudeCoordinates(f: Format, m: nat)
    ensures m == Scale(f, m) * Pow2(f.fracBits) + Significand(f, m)
    ensures Significand(f, m) < 2 * Pow2(f.fracBits)
    ensures Scale(f, m) >= 0 && (Scale(f, m) == 0 || Pow2(f.fracBits) <= Significand(f, m))
  {
    var p := Pow2(f.fracBits);
    DivModFacts(m, p);
    Distribute(m / p - 1, 1, p);
  }

  lemma Distribute(e: int, k: int, p: int)
    ensures (e + k) * p == e * p + k * p
  {
  }

  /** Magnitudes count significands: `q` units at scale `e` are encoded as `e * 2^fracBits + q`,
      also where `q` is just past the binade. */
  lemma MagnitudeOf(f: Format, e: nat, q: nat)
    requires f.Valid()
    requires q <= 2 * Pow2(f.fracBits)
    requires e == 0 || Pow2(f.fracBits) <= q
    ensures MagnitudeValue(f, e * Pow2(f.fracBits) + q) == Ldexp(q as real, e + f.UnitExp())
  {
    var p, u := Pow2(f.fracBits), f.UnitExp();
    if q < p {
      MagnitudeFields(f, 0, q);
    } else if q < 2 * p {
      Distribute(e, 1, p);
      MagnitudeFields(f, e + 1, q - p);
    } else {
      Distribute(e, 2, p);
      MagnitudeFields(f, e + 2, 0);
      LdexpStep(p as real, e + u);
      assert 2.0 * (p as real) == q as real;
    }
  }

  /** The next magnitude is one unit in the last place up. */
  lemma MagnitudeStep(f: Format, m: nat)
    requires f.Valid()
    ensures MagnitudeValue(f, m + 1) == MagnitudeValue(f, m) + Ldexp(1.0, Scale(f, m) + f.UnitExp())
  {
    var e, q := Scale(f, m), Significand(f, m);
    MagnitudeCoordinates(f, m);
    MagnitudeOf(f, e, q + 1);
    LdexpSum(q as real, 1.0, e + f.UnitExp());
    assert (q + 1) as real == q as real + 1.0;
  }

  lemma {:induction false} MagnitudeStrictlyMonotone(f: Format, a: nat, b: nat)
    requires f.Valid() && a < b
    ensures MagnitudeValue(f, a) < MagnitudeValue(f, b)
    decreases b
  {
    hide Scale, Significand, MagnitudeValue;
    MagnitudeStep(f, b - 1);
    var s := Scale(f, b - 1) + f.UnitExp();
    LdexpOrder(0.0, 1.0, s);
    LdexpZero(s);
    if a < b - 1 {
      MagnitudeStrictlyMonotone(f, a, b - 1);
    }
  }

  /** The magnitude just above `q` units at scale `e`, in those units. */
  lemma MagnitudeAbove(f: Format, e: nat, q: nat, c: nat)
    requires f.Valid()
    requires q <= 2 * Pow2(f.fracBits)
    requires e == 0 || Pow2(f.fracBits) <= q
    requires e * Pow2(f.fracBits) + q < c
    ensures Ldexp(q as real + 1.0, e + f.UnitExp()) <= MagnitudeValue(f, c)
  {
    var p, u, m := Pow2(f.fracBits), f.UnitExp(), e * Pow2(f.fracBits) + q;
    if m + 1 < c {
      MagnitudeStrictlyMonotone(f, m + 1, c);
    }
    if q < 2 * p {
      MagnitudeOf(f, e, q + 1);
      assert (q + 1) as real == q as real + 1.0;
    } else {
      Distribute(e, 1, p);
      assert m + 1 == (e + 1) * p + (p + 1);
      MagnitudeOf(f, e + 1, p + 1);
      LdexpStep((p + 1) as real, e + u);
      assert 2.0 * ((p + 1) as real) == q as real + 2.0;
      LdexpOrder(q as real + 1.0, q as real + 2.0, e + u);
    }
  }

  /** The magnitude just below `q` units at scale `e`: one unit down, or half a unit where `q` is the
      first significand of its binade. */
  lemma MagnitudeBelow(f: Format, e: nat, q: nat, c: nat)
    requires f.Valid()
    requires q <= 2 * Pow2(f.fracBits)
    requires e == 0 || Pow2(f.fracBits) <= q
    requires c < e * Pow2(f.fracBits) + q
    ensures MagnitudeValue(f, c) <=
      Ldexp(if e > 0 && q == Pow2(f.fracBits) then q as real - 0.5 else q as real - 1.0, e + f.UnitExp())
  {
    var p, u, m := Pow2(f.fracBits), f.UnitExp(), e * Pow2(f.fracBits) + q;
    if c < m - 1 {
      MagnitudeStrictlyMonotone(f, c, m - 1);
    }
    if e > 0 && q == p {
      Distribute(e - 1, 1, p);
      assert m - 1 == (e - 1) * p + (2 * p - 1);
      MagnitudeOf(f, e - 1, 2 * p - 1);
      LdexpStep(p as real - 0.5, e - 1 + u);
      assert 2.0 * (p as real - 0.5) == (2 * p - 1) as real;
    } else {
      MagnitudeOf(f, e, q - 1);
      assert (q - 1) as real == q as real - 1.0;
    }
  }

  /** The overflow threshold is half a unit short of the end of the last finite binade. */
  lemma OverflowThresholdUnits(f: Format)
    requires f.Valid()
    ensures OverflowThreshold(f) ==
      Ldexp((2 * Pow2(f.fracBits)) as real - 0.5, f.ExpMax() - 2 + f.UnitExp())
  {
    var n: int := f.fracBits;
    assert Pow2(f.expBits) == 2 * Pow2(f.expBits - 1);
    assert f.ExpMax() - 2 + f.UnitExp() == f.Bias() - n;
    var t := 2.0 - Ldexp(1.0, -1 - n);
    LdexpSum(2.0, Ldexp(1.0, -1 - n), n);
    LdexpNat(2, n);
    LdexpAdd(1.0, -1 - n, n);
    assert Ldexp(1.0, -1) == 0.5;
    assert Ldexp(t, n) == (2 * Pow2(n)) as real - 0.5;
    LdexpAdd(t, n, f.Bias() - n);
  }

  lemma RoundsAgainst(f: Format, e: nat, y: real, q: nat, c: nat)
    requires f.Valid()
    requires NearestEven(y, q)
    requires q <= 2 * Pow2(f.fracBits)
    requires e == 0 || (Pow2(f.fracBits) <= q && (4 * Pow2(f.fracBits) - 1) as real <= 4.0 * y)
    ensures var x, m := Ldexp(y, e + f.UnitExp()), e * Pow2(f.fracBits) + q;
      && Abs(MagnitudeValue(f, m) - x) <= Abs(MagnitudeValue(f, c) - x)
      && (c != m && Abs(MagnitudeValue(f, m) - x) == Abs(MagnitudeValue(f, c) - x) ==> q % 2 == 0)
  {
    var p, s, m := Pow2(f.fracBits), e + f.UnitExp(), e * Pow2(f.fracBits) + q;
    assert p == 2 * Pow2(f.fracBits - 1);
    if c != m {
      var v := Ldexp(MagnitudeValue(f, c), -s);
      hide Pow2, Ldexp, MagnitudeValue;
      MagnitudeOf(f, e, q);
      LdexpInverse(MagnitudeValue(f, c), s);
      LdexpDistance(q as real, y, s);
      LdexpDistance(v, y, s);
      LdexpOrder(Abs(q as real - y), Abs(v - y), s);
      if m < c {
        MagnitudeAbove(f, e, q, c);
        LdexpOrder(v, q as real + 1.0, s);
      } else {
        MagnitudeBelow(f, e, q, c);
        LdexpOrder(v, if e > 0 && q == p then q as real - 0.5 else q as real - 1.0, s);
      }
      NearestAgainst(y, q, v, m < c, e > 0 && q == p);
    }
  }

  /** The nearest-even integer beats every real a unit away, and half a unit away below when `y`
      lies at most a quarter below. */
  lemma NearestAgainst(y: real, q: int, v: real, above: bool, half: bool)
    requires NearestEven(y, q)
    requires half ==> q as real - 0.25 <= y && q % 2 == 0
    requires if above then q as real + 1.0 <= v
             else if half then v <= q as real - 0.5 else v <= q as real - 1.0
    ensures Abs(q as real - y) <= Abs(v - y)
    ensures Abs(q as real - y) == Abs(v - y) ==> q % 2 == 0
  {
  }

  /** The overflow threshold in units of a binade. */
  lemma OverflowInBinade(f: Format, e: nat, y: real)
    requires f.Valid()
    requires y < (2 * Pow2(f.fracBits)) as real
    requires e <= f.ExpMax() - 2
    ensures Ldexp(y, e + f.UnitExp()) >= OverflowThreshold(f) <==>
      e == f.ExpMax() - 2 && y >= (2 * Pow2(f.fracBits)) as real - 0.5
  {
    var p, u, top := Pow2(f.fracBits), f.UnitExp(), f.ExpMax() - 2;
    OverflowThresholdUnits(f);
    if e == top {
      LdexpOrder(y, (2 * p) as real - 0.5, top + u);
    } else {
      LdexpOrder(y, (2 * p) as real, e + u);
      LdexpStep(p as real, e + u);
      assert 2.0 * (p as real) == (2 * p) as real;
      LdexpGrows(p as real, e + 1 + u, top + u);
      LdexpOrder(p as real, (2 * p) as real - 0.5, top + u);
    }
  }

  lemma InfinityInBinade(p: nat, top: int, e: nat, q: nat)
    requires p > 0 && q <= 2 * p && e <= top
    ensures e * p + q <= (top + 2) * p
    ensures e * p + q == (top + 2) * p <==> e == top && q == 2 * p
  {
    Distribute(top, 2, p);
    if e < top {
      IntScaleStrict(e, top, p);
    }
  }

  /** Rounding on the integer grid of a binade is rounding in the format: if `q` is the nearest-even
      integer to `y`, then `e * 2^fracBits + q` is the roundTiesToEven magnitude of `y` units at
      scale `e`. The grid may be used a quarter of a unit below its binade. */
  lemma GridRounds(f: Format, e: nat, y: real, q: int)
    requires f.Valid()
    requires NearestEven(y, q)
    requires 0.0 <= y < (2 * Pow2(f.fracBits)) as real
    requires e == 0 || (4 * Pow2(f.fracBits) - 1) as real <= 4.0 * y
    requires e <= f.ExpMax() - 2
    ensures 0 <= q <= 2 * Pow2(f.fracBits)
    ensures MagnitudeRounds(f, Ldexp(y, e + f.UnitExp()), e * Pow2(f.fracBits) + q)
  {
    var p, x := Pow2(f.fracBits), Ldexp(y, e + f.UnitExp());
    var m := e * p + q;
    assert p == 2 * Pow2(f.fracBits - 1);
    GridBounds(p, y, q);
    ParityOfMagnitude(e, p, q);
    OverflowInBinade(f, e, y);
    InfinityInBinade(p, f.ExpMax() - 2, e, q);
    hide Pow2, Ldexp, MagnitudeValue, OverflowThreshold, NearestEven;
    GridRoundsFinite(f, e, y, q);
  }

  lemma GridBounds(p: nat, y: real, q: int)
    requires NearestEven(y, q) && p % 2 == 0 && 0.0 <= y < (2 * p) as real
    ensures 0 <= q <= 2 * p
    ensures (4 * p - 1) as real <= 4.0 * y ==> p <= q
    ensures q == 2 * p <==> y >= (2 * p) as real - 0.5
  {
  }

  lemma GridRoundsFinite(f: Format, e: nat, y: real, q: nat)
    requires f.Valid()
    requires NearestEven(y, q)
    requires q <= 2 * Pow2(f.fracBits)
    requires e == 0 || (Pow2(f.fracBits) <= q && (4 * Pow2(f.fracBits) - 1) as real <= 4.0 * y)
    requires (e * Pow2(f.fracBits) + q) % 2 == q % 2
    requires e * Pow2(f.fracBits) + q <= f.Infinity()
    requires Ldexp(y, e + f.UnitExp()) >= OverflowThreshold(f) <==> e * Pow2(f.fracBits) + q == f.Infinity()
    ensures MagnitudeRounds(f, Ldexp(y, e + f.UnitExp()), e * Pow2(f.fracBits) + q)
  {
    var m, x := e * Pow2(f.fracBits) + q, Ldexp(y, e + f.UnitExp());
    hide Pow2, Ldexp, MagnitudeValue, OverflowThreshold, NearestEven;
    if x < OverflowThreshold(f) {
      forall c: nat | c < f.Infinity()
        ensures Abs(MagnitudeValue(f, m) - x) <= Abs(MagnitudeValue(f, c) - x)
        ensures c != m && Abs(MagnitudeValue(f, m) - x) == Abs(MagnitudeValue(f, c) - x) ==> m % 2 == 0
      {
        RoundsAgainst(f, e, y, q, c);
      }
    }
  }

  lemma ParityOfMagnitude(e: int, p: int, q: int)
    requires p % 2 == 0
    ensures (e * p + q) % 2 == q % 2
  {
    assert e * p == 2 * (e * (p / 2));
  }

  lemma RoundsBeats(f: Format, x: real, m: nat, c: nat)
    requires f.Valid()
    requires MagnitudeRounds(f, x, m) && x < OverflowThreshold(f) && c < f.Infinity()
    ensures Abs(MagnitudeValue(f, m) - x) <= Abs(MagnitudeValue(f, c) - x)
    ensures c != m && Abs(MagnitudeValue(f, m) - x) == Abs(MagnitudeValue(f, c) - x) ==> m % 2 == 0
  {
  }

  lemma BetweenIsCloser(f: Format, x: real, a: nat, b: nat)
    requires f.Valid() && a + 1 < b
    requires Abs(MagnitudeValue(f, a) - x) == Abs(MagnitudeValue(f, b) - x)
    ensures Abs(MagnitudeValue(f, a + 1) - x) < Abs(MagnitudeValue(f, a) - x)
  {
    MagnitudeStrictlyMonotone(f, a, a + 1);
    MagnitudeStrictlyMonotone(f, a + 1, b);
  }

  /** At most one magnitude is the rounding of a real. */
  lemma RoundingIsUnique(f: Format, x: real, m: nat, m': nat)
    requires f.Valid()
    requires MagnitudeRounds(f, x, m) && MagnitudeRounds(f, x, m')
    ensures m == m'
  {
    if x < OverflowThreshold(f) && m != m' {
      var a, b := if m < m' then m else m', if m < m' then m' else m;
      RoundsBeats(f, x, a, b);
      RoundsBeats(f, x, b, a);
      BetweenIsCloser(f, x, a, b);
      assert false;
    }
  }

  /** A finite magnitude is the rounding of its own value. */
  lemma ExactRounds(f: Format, x: real, m: nat)
    requires f.Valid()
    requires MagnitudeRounds(f, x, m)
    ensures forall c: nat | c < f.Infinity() && MagnitudeValue(f, c) == x :: m == c
  {
    forall c: nat | c < f.Infinity() && MagnitudeValue(f, c) == x
      ensures m == c
    {
      if x < OverflowThreshold(f) {
        if c < m {
          MagnitudeStrictlyMonotone(f, c, m);
        } else if m < c {
          MagnitudeStrictlyMonotone(f, m, c);
        }
      } else {
        FiniteBelowThreshold(f, c);
        assert false;
      }
    }
  }

  lemma FiniteBelowThreshold(f: Format, c: nat)
    requires f.Valid() && c < f.Infinity()
    ensures MagnitudeValue(f, c) < OverflowThreshold(f)
  {
    var p, top := Pow2(f.fracBits), f.ExpMax() - 2;
    OverflowThresholdUnits(f);
    Distribute(top, 2, p);
    MagnitudeOf(f, top, 2 * p - 1);
    if c < top * p + 2 * p - 1 {
      MagnitudeStrictlyMonotone(f, c, top * p + 2 * p - 1);
    }
    LdexpOrder((2 * p - 1) as real, (2 * p) as real - 0.5, top + f.UnitExp());
  }
}
