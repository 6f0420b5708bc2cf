/** Rounding of fractions that carry guard bits: the integer arithmetic shared by every soft-float
    operation, and the sticky right shift that lets an inexact fraction be rounded later. */
module Rounding {
  import opened Powers
  import opened Ieee754

  /** `r / d` rounded to the nearest integer, ties to even. */
  function RoundDiv(r: nat, d: nat): nat
    requires d > 0
  {
    if 2 * (r % d) > d || (2 * (r % d) == d && r / d % 2 == 1) then r / d + 1 else r / d
  }

  /** `q` is the nearest-even integer to `t / d`. */
  ghost predicate NearestUnits(t: real, d: int, q: int) {
    WithinHalf(t, q * d, d, q % 2 == 0)
  }

  /** `t` is within half of `d` of `c`, strictly unless `tie` is allowed. */
  ghost predicate WithinHalf(t: real, c: int, d: int, tie: bool) {
    && -(d as real) <= 2.0 * (t - c as real) <= d as real
    && (2.0 * (t - c as real) == d as real || 2.0 * (t - c as real) == -(d as real) ==> tie)
  }

  lemma RoundDivNearest(r: nat, d: nat)
    requires d > 0
    ensures NearestUnits(r as real, d, RoundDiv(r, d))
  {
    DivModFacts(r, d);
    var q := r / d;
    assert (q + 1) * d == q * d + d;
  }

  lemma NearestUnitsScaled(t: real, k: nat, q: int)
    requires NearestUnits(t, Pow2(k), q)
    ensures NearestEven(Ldexp(t, 0 - k), q)
  {
    hide Ldexp, Pow2;
    var y, d := Ldexp(t, 0 - k), Pow2(k);
    LdexpInverse(t, k);
    HalfUnits(2 * q + 1, k);
    HalfUnits(2 * q - 1, k);
    LdexpOrder(y, (2 * q + 1) as real / 2.0, k);
    LdexpOrder(y, (2 * q - 1) as real / 2.0, k);
    OddHalves(q, d);
  }

  lemma OddHalves(q: int, d: int)
    ensures (2 * q + 1) * d == 2 * (q * d) + d
    ensures (2 * q - 1) * d == 2 * (q * d) - d
  {
  }

  lemma HalfUnits(h: int, k: nat)
    ensures Ldexp(h as real / 2.0, k) == (h * Pow2(k)) as real / 2.0
  {
    LdexpNat(h, k);
    LdexpStep(h as real / 2.0, k);
  }

  // Sticky bits.

  /** `a` shifted right by `s` bits, with the lowest bit set if any one bit was lost. */
  function StickyShift(a: nat, s: nat): nat {
    var q := a / Pow2(s);
    if a % Pow2(s) != 0 && q % 2 == 0 then q + 1 else q
  }

  /** `r` and `t` compare alike with every multiple of four: they are equal, or lie strictly between
      the same two multiples. */
  ghost predicate SameQuad(t: real, r: int) {
    || t == r as real
    || (r % 4 != 0 && (r / 4 * 4) as real < t < (r / 4 * 4 + 4) as real)
  }

  /** `r` is `t` rounded to odd: exact, or the odd neighbour. */
  ghost predicate OddRound(t: real, r: int) {
    t == r as real || (r % 2 == 1 && -1.0 < t - r as real < 1.0)
  }

  lemma OddIsSameQuad(t: real, r: int)
    requires OddRound(t, r)
    ensures SameQuad(t, r)
  {
  }

  /** An odd rounding survives a left shift by one bit well enough to be rounded again. */
  lemma DoubledOddIsSameQuad(t: real, r: int)
    requires OddRound(t, r)
    ensures SameQuad(2.0 * t, 2 * r)
  {
    if t != r as real {
      assert 2 * r % 4 == 2;
    }
  }

  /** The sticky right shift is rounding to odd, also of a value already rounded to odd. */
  lemma StickyShiftIsOdd(t: real, r: nat, s: nat)
    requires OddRound(t, r)
    requires t == r as real || s >= 1
    ensures OddRound(Ldexp(t, 0 - s), StickyShift(r, s))
  {
    var d, y, q, z := Pow2(s), Ldexp(t, 0 - s), r / Pow2(s), StickyShift(r, s);
    DivModFacts(r, d);
    if t != r as real {
      OddMod(q, r, s);
    }
    LdexpInverse(t, s);
    LdexpNat(q, s);
    LdexpNat(q + 1, s);
    LdexpOrder(y, q as real, s);
    LdexpOrder(y, (q + 1) as real, s);
    hide Ldexp, Pow2;
    assert (q + 1) * d == q * d + d;
    BetweenIsOdd(t, r, y, q, q * d, d, z);
  }

  lemma BetweenIsOdd(t: real, r: int, y: real, q: int, qd: int, d: int, z: int)
    requires OddRound(t, r) && qd <= r < qd + d
    requires y < q as real <==> t < qd as real
    requires y == q as real <==> t == qd as real
    requires y < (q + 1) as real <==> t < (qd + d) as real
    requires t != r as real ==> r != qd
    requires z == if r != qd && q % 2 == 0 then q + 1 else q
    ensures OddRound(y, z)
  {
  }

  lemma OddMod(q: nat, r: nat, s: nat)
    requires s >= 1 && r % 2 == 1 && q == r / Pow2(s)
    ensures r % Pow2(s) != 0
  {
    var d := Pow2(s);
    DivModFacts(r, d);
    var h := Pow2(s - 1);
    assert q * d == 2 * (q * h);
  }

  /** Values that compare alike with the multiples of four round alike at every granularity whose
      half way points are multiples of four. */
  lemma SameQuadRounds(t: real, r: int, d: int, q: int)
    requires d > 0 && d % 8 == 0
    requires SameQuad(t, r)
    requires NearestUnits(r as real, d, q)
    ensures NearestUnits(t, d, q)
  {
    MultipleOfEight(q, d);
    hide WithinHalf, SameQuad;
    SameQuadWithinHalf(t, r, q * d, d, q % 2 == 0);
  }

  lemma SameQuadWithinHalf(t: real, r: int, c: int, d: int, tie: bool)
    requires c % 8 == 0 && d % 8 == 0
    requires SameQuad(t, r) && WithinHalf(r as real, c, d, tie)
    ensures WithinHalf(t, c, d, tie)
  {
    var h := d / 2;
    HalfMultiples(c, d);
    HalfWindow(r as real, c, h, tie);
    HalfWindow(t, c, h, tie);
    hide WithinHalf, SameQuad;
    SameQuadCompares(t, r, c + h);
    SameQuadCompares(t, r, c - h);
  }

  lemma HalfMultiples(c: int, d: int)
    requires c % 8 == 0 && d % 8 == 0
    ensures d == 2 * (d / 2) && (c + d / 2) % 4 == 0 && (c - d / 2) % 4 == 0
  {
    var j, k := c / 8, d / 8;
    assert c == 8 * j && d == 8 * k;
    DivModUnique(d, 2, 4 * k, 0);
    DivModUnique(c + 4 * k, 4, 2 * j + k, 0);
    DivModUnique(c - 4 * k, 4, 2 * j - k, 0);
  }

  lemma HalfWindow(y: real, c: int, h: int, tie: bool)
    ensures WithinHalf(y, c, 2 * h, tie) <==>
      (c - h) as real <= y <= (c + h) as real && (y == (c + h) as real || y == (c - h) as real ==> tie)
  {
  }

  lemma SameQuadCompares(t: real, r: int, c: int)
    requires SameQuad(t, r) && c % 4 == 0
    ensures r < c <==> t < c as real
    ensures r == c <==> t == c as real
  {
    assert r / 4 < c / 4 || c / 4 <= r / 4;
  }

  lemma MultipleOfEight(q: int, d: int)
    requires d % 8 == 0
    ensures q * d % 8 == 0
  {
    assert q * d == 8 * (q * (d / 8));
  }

  lemma Pow2Eight(k: nat)
    requires k >= 3
    ensures Pow2(k) % 8 == 0
  {
    var p := Pow2(k - 3);
    assert Pow2(k - 1) == 2 * Pow2(k - 2) == 4 * p;
    assert Pow2(k) == 8 * p;
    hide Pow2;
    DivModUnique(8 * p, 8, p, 0);
  }

  /** Rounding away `k` guard bits after a sticky shift by `s` is one rounding of the whole. */
  lemma RoundAfterSticky(r: nat, s: nat, k: nat)
    requires k >= 3
    ensures RoundDiv(StickyShift(r, s), Pow2(k)) == RoundDiv(r, Pow2(k + s))
  {
    Pow2Add(k, s);
    Pow2Eight(k);
    hide Pow2, RoundDiv;
    RoundStickyQuotient(r, Pow2(s), Pow2(k));
  }

  lemma RoundStickyQuotient(r: nat, c: nat, d: nat)
    requires c > 0 && d > 0 && d % 8 == 0
    ensures c * d > 0
    ensures RoundDiv(if r % c != 0 && r / c % 2 == 0 then r / c + 1 else r / c, d) == RoundDiv(r, d * c)
  {
    SetLowBit(r / c, d, r % c != 0);
    DivDiv(r, c, d);
    assert c * d == d * c;
    DivModFacts(r, c);
    CompareHalf(r / c % d, c, r % c, d, (r / c % d) * c + r % c, c * d);
  }

  /** Setting the lowest bit only touches the bits that are rounded away. */
  lemma SetLowBit(a: nat, d: nat, set_: bool)
    requires d > 0 && d % 2 == 0
    ensures var z := if set_ && a % 2 == 0 then a + 1 else a;
      && z / d == a / d
      && z % d == (if set_ && a % d % 2 == 0 then a % d + 1 else a % d)
  {
    var q, w := a / d, a % d;
    DivModFacts(a, d);
    EvenMultiple(q, d);
    var qd := q * d;
    assert a == qd + w;
    assert w % 2 == a % 2;
    if a % 2 == 0 {
      DivModUnique(a + 1, d, q, w + 1);
    }
  }

  lemma EvenMultiple(q: int, d: int)
    requires d % 2 == 0
    ensures q * d % 2 == 0
  {
    assert q * d == 2 * (q * (d / 2));
  }

  lemma CompareHalf(w: nat, c: nat, b: nat, d: nat, x: int, cd: int)
    requires b < c && d % 4 == 0
    requires x == w * c + b && cd == c * d
    ensures var w' := if b != 0 && w % 2 == 0 then w + 1 else w;
      && (2 * x > cd <==> 2 * w' > d)
      && (2 * x == cd <==> 2 * w' == d)
  {
    var h := d / 2;
    var wc, hc := w * c, h * c;
    IntScaleStrictBoth(w, h, c);
    assert cd == 2 * hc by {
      assert d == 2 * h;
    }
    CompareProducts(w, h, c, b, wc, hc);
  }

  lemma CompareProducts(w: nat, h: nat, c: nat, b: nat, wc: int, hc: int)
    requires b < c && h % 2 == 0
    requires (w < h ==> wc + c <= hc) && (h < w ==> hc + c <= wc) && (w == h ==> wc == hc)
    ensures var w' := if b != 0 && w % 2 == 0 then w + 1 else w;
      && (wc + b > hc <==> w' > h)
      && (wc + b == hc <==> w' == h)
  {
  }

  // Packing a fraction with guard bits: `t` units of weight 2^(e - fracBits - guards).

  /** The magnitude that stands for fraction `r`, leading one in place, at exponent `e`. */
  function PackedMagnitude(f: Format, e: int, r: nat): nat
    requires f.Valid()
  {
    if e > f.Bias() then f.Infinity()
    else if e >= f.ExpMin() then (e - f.ExpMin()) * Pow2(f.fracBits) + RoundDiv(r, Pow2(f.guards))
    else RoundDiv(r, Pow2(f.guards + (f.ExpMin() - e)))
  }

  /** The units of an unpacked fraction. */
  function FractionValue(f: Format, e: int, t: real): real {
    Ldexp(t, e - f.fracBits - f.guards)
  }

  /** `t` has its leading one in place, or falls short of it by less than half a unit in the last
      place of the result. */
  ghost predicate Normalized(f: Format, t: real)
    requires f.Valid()
  {
    && (Pow2(f.fracBits + f.guards) - Pow2(f.guards - 2)) as real <= t
    && t < (2 * Pow2(f.fracBits + f.guards)) as real
  }

  /** Dropping the guard bits of a normalized fraction. */
  lemma GuardsDropped(f: Format, t: real) returns (y: real)
    requires f.Valid() && Normalized(f, t)
    ensures y == Ldexp(t, 0 - f.guards)
    ensures (4 * Pow2(f.fracBits) - 1) as real <= 4.0 * y
    ensures y < (2 * Pow2(f.fracBits)) as real
  {
    var n, g: int := f.fracBits, f.guards;
    var p := Pow2(n);
    y := Ldexp(t, 0 - g);
    LdexpInverse(t, g);
    Pow2Add(n, g);
    LdexpNat(2 * p, g);
    QuarterUnit(4 * p - 1, g);
    assert Pow2(g) == 4 * Pow2(g - 2);
    LdexpOrder(y, (2 * p) as real, g);
    LdexpOrder(y, (4 * p - 1) as real / 4.0, g);
    hide Pow2, Ldexp;
    QuarterProduct(p, Pow2(g), Pow2(g - 2), Pow2(n + g));
  }

  lemma QuarterProduct(p: int, g: int, g': int, pg: int)
    requires g == 4 * g' && pg == p * g
    ensures (4 * p - 1) * g' == pg - g'
    ensures 2 * p * g == 2 * pg
  {
  }

  lemma PackedNormal(f: Format, b: nat, t: real, q: nat)
    requires f.Valid() && b + f.ExpMin() <= f.Bias()
    requires Normalized(f, t)
    requires NearestUnits(t, Pow2(f.guards), q)
    ensures MagnitudeRounds(f, FractionValue(f, b + f.ExpMin(), t), b * Pow2(f.fracBits) + q)
  {
    var g: int := f.guards;
    NearestUnitsScaled(t, g, q);
    LdexpAdd(t, 0 - g, b + f.UnitExp());
    assert Pow2(f.expBits) == 2 * Pow2(f.expBits - 1);
    hide Pow2, Ldexp, NearestEven;
    var y := GuardsDropped(f, t);
    GridRounds(f, b, y, q);
  }

  lemma QuarterUnit(h: int, g: nat)
    requires g >= 2
    ensures Ldexp(h as real / 4.0, g) == (h * Pow2(g - 2)) as real
  {
    LdexpStep(h as real / 4.0, g - 1);
    LdexpStep(h as real / 2.0, g - 2);
    LdexpNat(h, g - 2);
  }

  lemma PackedSubnormal(f: Format, e: int, t: real, q: nat)
    requires f.Valid() && e < f.ExpMin()
    requires 0.0 <= t < (2 * Pow2(f.fracBits + f.guards)) as real
    requires NearestUnits(t, Pow2(f.guards + (f.ExpMin() - e)), q)
    ensures MagnitudeRounds(f, FractionValue(f, e, t), q)
  {
    var n, k := f.fracBits, f.guards + (f.ExpMin() - e);
    NearestUnitsScaled(t, k, q);
    LdexpAdd(t, 0 - k, f.UnitExp());
    Pow2Monotone(2, f.expBits);
    assert Pow2(2) == 4;
    Pow2Monotone(n + f.guards, n + k);
    SubnormalUnits(n, k, t);
    hide Pow2, Ldexp, NearestEven;
    GridRounds(f, 0, Ldexp(t, 0 - k), q);
  }

  lemma SubnormalUnits(n: nat, k: nat, t: real)
    requires 0.0 <= t < (2 * Pow2(n + k)) as real
    ensures 0.0 <= Ldexp(t, 0 - k) < (2 * Pow2(n)) as real
  {
    var y := Ldexp(t, 0 - k);
    LdexpInverse(t, k);
    LdexpZero(k);
    LdexpOrder(0.0, y, k);
    Pow2Add(n, k);
    LdexpNat(2 * Pow2(n), k);
    LdexpOrder(y, (2 * Pow2(n)) as real, k);
    hide Pow2, Ldexp;
    assert 2 * Pow2(n) * Pow2(k) == 2 * Pow2(n + k);
  }

  lemma PackedOverflow(f: Format, e: int, t: real)
    requires f.Valid() && e > f.Bias()
    requires Normalized(f, t)
    ensures MagnitudeRounds(f, FractionValue(f, e, t), f.Infinity())
  {
    hide Pow2, Ldexp;
    var n, g, b: int := f.fracBits, f.guards, f.Bias();
    var h := (2 * Pow2(n)) as real - 0.5;
    OverflowThresholdUnits(f);
    Pow2Halves(f.expBits);
    // the threshold in guard units of the first overflowing binade
    QuarterUnit(4 * Pow2(n) - 1, g);
    Pow2Add(n, g);
    Pow2Halves(g);
    LdexpStep(h / 2.0, b - n);
    assert h / 2.0 == (4 * Pow2(n) - 1) as real / 4.0;
    LdexpAdd(h / 2.0, g, b + 1 - n - g);
    Pow2Monotone(g - 2, n + g);
    QuarterProduct(Pow2(n), Pow2(g), Pow2(g - 2), Pow2(n + g));
    var low := (Pow2(n + g) - Pow2(g - 2)) as real;
    LdexpOrder(low, t, b + 1 - n - g);
    LdexpGrows(t, b + 1 - n - g, e - n - g);
  }

  /** Packing a fraction that compares like `t` with every half way point rounds `t` once. */
  lemma PackedRounds(f: Format, e: int, r: nat, t: real)
    requires f.Valid()
    requires Pow2(f.fracBits + f.guards) <= r < 2 * Pow2(f.fracBits + f.guards)
    requires SameQuad(t, r)
    ensures MagnitudeRounds(f, FractionValue(f, e, t), PackedMagnitude(f, e, r))
  {
    Pow2Eight(f.fracBits + f.guards);
    assert Normalized(f, t);
    Pow2Monotone(f.guards - 2, f.fracBits + f.guards);
    if e > f.Bias() {
      PackedOverflow(f, e, t);
    } else if e >= f.ExpMin() {
      Pow2Eight(f.guards);
      RoundDivNearest(r, Pow2(f.guards));
      hide Pow2, RoundDiv, NearestUnits, SameQuad;
      SameQuadRounds(t, r, Pow2(f.guards), RoundDiv(r, Pow2(f.guards)));
      PackedNormal(f, e - f.ExpMin(), t, RoundDiv(r, Pow2(f.guards)));
    } else {
      var k := f.guards + (f.ExpMin() - e);
      Pow2Eight(k);
      RoundDivNearest(r, Pow2(k));
      hide Pow2, RoundDiv, NearestUnits, SameQuad;
      SameQuadRounds(t, r, Pow2(k), RoundDiv(r, Pow2(k)));
      PackedSubnormal(f, e, t, RoundDiv(r, Pow2(k)));
    }
  }

  /** Packing a fraction whose guard bits are clear ignores a difference of half a guard unit. */
  lemma PackedRoundsNear(f: Format, e: int, r: nat, t: real)
    requires f.Valid() && e >= f.ExpMin()
    requires Pow2(f.fracBits + f.guards) <= r < 2 * Pow2(f.fracBits + f.guards)
    requires r % Pow2(f.guards) == 0
    requires -0.5 <= t - r as real <= 0.5
    ensures MagnitudeRounds(f, FractionValue(f, e, t), PackedMagnitude(f, e, r))
  {
    NearIsNormalized(f, r, t);
    if e > f.Bias() {
      PackedOverflow(f, e, t);
    } else {
      NearMultiple(r, Pow2(f.guards), t);
      hide Pow2, RoundDiv, NearestUnits, Normalized;
      PackedNormal(f, e - f.ExpMin(), t, RoundDiv(r, Pow2(f.guards)));
    }
  }

  lemma NearMultiple(r: nat, d: nat, t: real)
    requires d >= 2 && r % d == 0
    requires -0.5 <= t - r as real <= 0.5
    ensures NearestUnits(t, d, RoundDiv(r, d))
  {
    DivModFacts(r, d);
    assert RoundDiv(r, d) == r / d;
    hide RoundDiv;
    assert r / d * d == r;
  }

  lemma NearIsNormalized(f: Format, r: nat, t: real)
    requires f.Valid()
    requires Pow2(f.fracBits + f.guards) <= r < 2 * Pow2(f.fracBits + f.guards)
    requires r % Pow2(f.guards) == 0
    requires -0.5 <= t - r as real <= 0.5
    ensures Pow2(f.guards) >= 2 && Normalized(f, t)
  {
    Pow2Add(f.fracBits, f.guards);
    Pow2Monotone(1, f.guards - 2);
    Pow2Monotone(1, f.guards);
    var p, d := Pow2(f.fracBits), Pow2(f.guards);
    assert Pow2(1) == 2;
    hide Pow2;
    assert 2 * p * d == 2 * Pow2(f.fracBits + f.guards);
    MultipleBelow(r, 2 * p, d);
  }

  lemma MultipleBelow(r: nat, p: nat, d: nat)
    requires d > 0 && r % d == 0 && r < p * d
    ensures r + d <= p * d
  {
    DivModFacts(r, d);
    IntScale(r / d, p, d);
    IntScaleStrict(r / d, p, d);
  }
}
