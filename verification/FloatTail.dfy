/** The rounding step that multiplication and division take before packing, because the bits below
    the guard bits do not reach `pack_d` (plugin-libc/libgcc/fp-bit.c). */
module FloatTail {
  import opened Powers
  import opened Ieee754
  import opened Rounding
  import opened SoftFloat

  /** The fraction handed to `pack_d`: a tie of the guard bits above an even fraction is settled here
      when more bits follow; `more` says that they do. */
  function TailRound(f: Format, h: nat, more: bool): nat
    requires f.Valid()
  {
    if Low(h, f.guards) == Pow2(f.guards - 1) && Shr(h, f.guards) % 2 == 0 && more then
      h + Pow2(f.guards - 1)
    else h
  }

  /** `h` is the integer part of `t`, and `more` tells whether anything follows it. */
  ghost predicate Truncates(t: real, h: nat, more: bool) {
    h as real <= t < h as real + 1.0 && (more <==> t != h as real)
  }

  /** Clearing the guard bits after the rounding step changes nothing: they are already clear. */
  lemma TailGuardsClear(f: Format, h: nat)
    requires f.Valid() && Low(h, f.guards) == Pow2(f.guards - 1)
    ensures h + Pow2(f.guards - 1) == (Shr(h, f.guards) + 1) * Pow2(f.guards)
    ensures Low(h + Pow2(f.guards - 1), f.guards) == 0
  {
    var d, q := Pow2(f.guards), h / Pow2(f.guards);
    DivModFacts(h, d);
    assert d == 2 * Pow2(f.guards - 1);
    assert (q + 1) * d == q * d + d;
    DivModUnique(h + Pow2(f.guards - 1), d, q + 1, 0);
  }

  // The normal range.

  lemma TailNearest(f: Format, t: real, h: nat, more: bool)
    requires f.Valid() && Truncates(t, h, more)
    ensures NearestUnits(t, Pow2(f.guards), RoundDiv(TailRound(f, h, more), Pow2(f.guards)))
  {
    var d, c := Pow2(f.guards), Pow2(f.guards - 1);
    assert d == 2 * c;
    DivModFacts(h, d);
    var q, w := h / d, h % d;
    if w == c && q % 2 == 0 && more {
      TailGuardsClear(f, h);
      DivModUnique(h + c, d, q + 1, 0);
    }
    hide Pow2;
    var qd := q * d;
    assert (q + 1) * d == qd + d;
  }

  /** In the normal range the product or quotient is rounded exactly once. */
  lemma TailRoundsNormal(f: Format, e: int, t: real, h: nat, more: bool)
    requires f.Valid() && f.ExpMin() <= e
    requires Implicit1(f) <= h < 2 * Implicit1(f)
    requires Truncates(t, h, more)
    ensures MagnitudeRounds(f, FractionValue(f, e, t), PackedMagnitude(f, e, TailRound(f, h, more)))
  {
    assert Normalized(f, t);
    if e > f.Bias() {
      PackedOverflow(f, e, t);
    } else {
      TailNearest(f, t, h, more);
      hide Pow2, RoundDiv, NearestUnits, TailRound, Normalized;
      PackedNormal(f, e - f.ExpMin(), t, RoundDiv(TailRound(f, h, more), Pow2(f.guards)));
    }
  }

  // Below the normal range.

  /** The subnormal results that come out wrong: the bits below the guard bits decide a tie that
      `pack_d` sees as exact, or they were already rounded up to one. `s` is how far the exponent lies
      below the normal range. */
  predicate LosesTail(f: Format, s: nat, h: nat, more: bool)
    requires f.Valid() && s >= 1
  {
    && more
    && (|| Low(h, f.guards + s + 1) == Pow2(f.guards + s - 1)
        || (s == 1 && Low(h, f.guards + 2) == Pow2(f.guards + 1) + Pow2(f.guards - 1)))
  }

  /** How far above the correct magnitude the packed one comes out: too low by one where a tie is taken to be
      exact, too high by one where the fraction was rounded up to a tie before. */
  function Misrounding(f: Format, s: nat, h: nat, more: bool): int
    requires f.Valid() && s >= 1
  {
    if !LosesTail(f, s, h, more) then 0 else if TailRound(f, h, more) == h then -1 else 1
  }

  /** Halves of an interval: the quotient and remainder by twice the divisor. */
  lemma DoubleDivisor(h: nat, d: nat)
    requires d > 0
    ensures h % (2 * d) == (h / d % 2) * d + h % d
  {
    DivDiv(h, d, 2);
    assert d * 2 == 2 * d;
  }

  /** The fraction's tie at distance `s` below the normal range, read off its low bits. */
  lemma TieBits(f: Format, s: nat, h: nat)
    requires f.Valid() && s >= 1
    ensures Low(h, f.guards + s + 1) == Pow2(f.guards + s - 1) <==>
      Shr(h, f.guards + s) % 2 == 0 && 2 * Low(h, f.guards + s) == Pow2(f.guards + s)
  {
    var d, c := Pow2(f.guards + s), Pow2(f.guards + s - 1);
    assert d == 2 * c && Pow2(f.guards + s + 1) == 2 * d;
    DoubleDivisor(h, d);
    DivModFacts(h, d);
    hide Pow2;
  }

  /** A tie at the guard bits excludes a tie further up. */
  lemma GuardTieBits(f: Format, s: nat, h: nat)
    requires f.Valid() && s >= 1
    ensures Low(h, f.guards) == h % Pow2(f.guards + s) % Pow2(f.guards)
    ensures Low(Pow2(f.guards + s - 1), f.guards) == 0
  {
    Pow2Add(f.guards, s);
    Pow2Add(f.guards, s - 1);
    var d, c := Pow2(f.guards), Pow2(s);
    DivDiv(h, d, c);
    DivModFacts(h, d);
    DivModUnique(h % (d * c), d, h / d % c, h % d);
    DivModUnique(d * Pow2(s - 1), d, Pow2(s - 1), 0);
  }

  /** Without the early rounding, the packed subnormal is right unless it sits on an even tie. */
  lemma PlainTail(t: real, h: nat, d: nat, more: bool)
    requires d > 0 && d % 2 == 0 && Truncates(t, h, more)
    ensures var q := RoundDiv(h, d);
      if more && h / d % 2 == 0 && 2 * (h % d) == d then q == h / d && NearestUnits(t, d, q + 1)
      else NearestUnits(t, d, q)
  {
    DivModFacts(h, d);
    var q, w := h / d, h % d;
    var qd := q * d;
    assert (q + 1) * d == qd + d;
  }

  /** The same with the units of a power of two. */
  lemma PlainTailBits(t: real, h: nat, n: nat, more: bool)
    requires n >= 1 && Truncates(t, h, more)
    ensures var d, q := Pow2(n), RoundDiv(h, Pow2(n));
      if more && Shr(h, n) % 2 == 0 && 2 * Low(h, n) == d then NearestUnits(t, d, q + 1) else NearestUnits(t, d, q)
  {
    hide Pow2, RoundDiv, NearestUnits, Truncates;
    Pow2Halves(n);
    PlainTail(t, h, Pow2(n), more);
  }

  lemma RoundDivScaled(x: nat, d: nat, c: nat)
    requires d > 0 && c > 0
    ensures d * c > 0 && RoundDiv(x * c, d * c) == RoundDiv(x, d)
  {
    DivModFacts(x, d);
    var q, w := x / d, x % d;
    assert x * c == q * (d * c) + w * c by {
      assert (q * d + w) * c == q * (d * c) + w * c;
    }
    IntScaleStrict(w, d, c);
    assert 0 <= w * c;
    DivModUnique(x * c, d * c, q, w * c);
    IntScaleStrictBoth(2 * w, d, c);
    assert 2 * w * c == 2 * (w * c);
  }

  /** A fraction just above the tie that follows `a * d + w` units, `w` even: the tie of a coarser
      grid is never hit. */
  lemma EarlyTailUnits(t: real, a: nat, w: nat, c: nat, d: nat, xc: int)
    requires c >= 2 && c % 2 == 0 && d % 2 == 0 && w % 2 == 0 && w < d
    requires xc == (a * d + w) * c
    requires (xc + c / 2) as real < t < (xc + c / 2 + 1) as real
    ensures NearestUnits(t, d * c, if 2 * w < d then a else a + 1)
  {
    var dc, wc, adc := d * c, w * c, a * (d * c);
    ScaledBelow(w, d, c);
    DistributeThree(a, w, d, c);
    hide NearestUnits;
    EarlyTailBounds(t, adc, wc, c, dc, 2 * w < d, if 2 * w < d then a else a + 1);
  }

  lemma DistributeThree(a: int, w: int, d: int, c: int)
    ensures (a * d + w) * c == a * (d * c) + w * c
    ensures (a + 1) * (d * c) == a * (d * c) + d * c
  {
  }

  lemma ScaledBelow(w: nat, d: nat, c: nat)
    requires c > 0 && w < d && d % 2 == 0
    ensures 0 <= w * c && w * c + c <= d * c
    ensures if 2 * w < d then 2 * (w * c) + 2 * c <= d * c else d * c <= 2 * (w * c)
  {
    IntScaleStrict(w, d, c);
    var h := d / 2;
    assert d * c == 2 * (h * c);
    IntScaleStrictBoth(w, h, c);
    assert w * c >= 0;
  }

  lemma EarlyTailBounds(t: real, adc: int, wc: int, c: nat, dc: int, below: bool, q: int)
    requires c >= 2 && c % 2 == 0
    requires (adc + wc + c / 2) as real < t < (adc + wc + c / 2 + 1) as real
    requires 0 <= wc && wc + c <= dc
    requires if below then 2 * wc + 2 * c <= dc && q * dc == adc else dc <= 2 * wc && q * dc == adc + dc
    ensures NearestUnits(t, dc, q)
  {
  }

  /** The second losing pattern in terms of the fraction's whole units. */
  lemma SecondTie(f: Format, h: nat)
    requires f.Valid()
    ensures Low(h, f.guards + 2) == Pow2(f.guards + 1) + Pow2(f.guards - 1) <==>
      Shr(h, f.guards) % 4 == 2 && Low(h, f.guards) == Pow2(f.guards - 1)
  {
    var c := Pow2(f.guards);
    assert Pow2(f.guards + 2) == 2 * Pow2(f.guards + 1) == c * 4;
    assert c == 2 * Pow2(f.guards - 1);
    DivDiv(h, c, 4);
    DivModFacts(h, c);
    var x, w := Shr(h, f.guards) % 4, Low(h, f.guards);
    assert Low(h, f.guards + 2) == x * c + w;
    hide Pow2, Low, Shr;
    SmallMultiple(x, c, w);
  }

  lemma SmallMultiple(x: int, c: nat, w: int)
    requires 0 <= x < 4 && 0 <= w < c && c % 2 == 0
    ensures x * c + w == 2 * c + c / 2 <==> x == 2 && w == c / 2
  {
  }

  lemma EarlyLosesIff(f: Format, s: nat, h: nat)
    requires f.Valid() && s >= 1
    requires Low(h, f.guards) == Pow2(f.guards - 1) && Shr(h, f.guards) % 2 == 0
    ensures LosesTail(f, s, h, true) <==>
      2 * (Low(Shr(h, f.guards), s) + 1) == Pow2(s) && Shr(Shr(h, f.guards), s) % 2 == 1
  {
    hide Pow2, Low, Shr;
    TieBits(f, s, h);
    GuardTieBits(f, s, h);
    EarlyTie(s, Shr(h, f.guards));
    SecondTie(f, h);
    HalfIsTie(f, s, h);
  }

  /** A fraction at the tie of distance `s` has clear guard bits. */
  lemma HalfIsTie(f: Format, s: nat, h: nat)
    requires f.Valid() && s >= 1
    ensures 2 * Low(h, f.guards + s) == Pow2(f.guards + s) ==> Low(h, f.guards) == 0
  {
    GuardTieBits(f, s, h);
    assert Pow2(f.guards + s) == 2 * Pow2(f.guards + s - 1);
  }

  /** With early rounding, the packed subnormal is wrong only one binade below the normal range. */
  lemma EarlyTailLoses(f: Format, s: nat, t: real, h: nat)
    requires f.Valid() && s >= 1 && Truncates(t, h, true)
    requires Low(h, f.guards) == Pow2(f.guards - 1) && Shr(h, f.guards) % 2 == 0
    ensures var d, q := Pow2(f.guards + s), RoundDiv(h + Pow2(f.guards - 1), Pow2(f.guards + s));
      if LosesTail(f, s, h, true) then q >= 1 && NearestUnits(t, d, q - 1) else NearestUnits(t, d, q)
  {
    var c, x := Pow2(f.guards), Shr(h, f.guards);
    assert c == 2 * Pow2(f.guards - 1);
    hide Pow2, Low, Shr, RoundDiv, LosesTail, NearestUnits;
    EarlyUnits(f, s, h);
    EarlyLosesIff(f, s, h);
    EarlyTailShifted(t, x, c, s, h - Pow2(f.guards - 1));
  }

  lemma EarlyUnits(f: Format, s: nat, h: nat)
    requires f.Valid() && s >= 1 && Low(h, f.guards) == Pow2(f.guards - 1)
    ensures h == Shr(h, f.guards) * Pow2(f.guards) + Pow2(f.guards - 1)
    ensures Pow2(f.guards + s) == Pow2(s) * Pow2(f.guards)
    ensures RoundDiv(h + Pow2(f.guards - 1), Pow2(f.guards + s)) == RoundDiv(Shr(h, f.guards) + 1, Pow2(s))
  {
    Pow2Add(s, f.guards);
    TailGuardsClear(f, h);
    RoundDivScaled(Shr(h, f.guards) + 1, Pow2(s), Pow2(f.guards));
    DivModFacts(h, Pow2(f.guards));
    hide RoundDiv;
  }

  /** A fraction that was rounded up from a tie to `x + 1` whole units, `x` even: packing rounds it
      again, wrongly exactly when that makes a tie above an odd quotient. */
  lemma EarlyTailShifted(t: real, x: nat, c: nat, s: nat, xc: int)
    requires c >= 2 && c % 2 == 0 && s >= 1 && x % 2 == 0
    requires xc == x * c && (xc + c / 2) as real < t < (xc + c / 2 + 1) as real
    ensures var q := RoundDiv(x + 1, Pow2(s));
      if 2 * (Low(x, s) + 1) == Pow2(s) && Shr(x, s) % 2 == 1
      then q == Shr(x, s) + 1 && NearestUnits(t, Pow2(s) * c, q - 1)
      else NearestUnits(t, Pow2(s) * c, q)
  {
    hide Pow2, RoundDiv, NearestUnits, Low, Shr;
    RoundDivSucc(x, s);
    EarlyTailUnits(t, Shr(x, s), Low(x, s), c, Pow2(s), xc);
  }

  lemma RoundDivSucc(x: nat, s: nat)
    requires s >= 1 && x % 2 == 0
    ensures Pow2(s) % 2 == 0 && Low(x, s) % 2 == 0 && Low(x, s) < Pow2(s)
    ensures x == Shr(x, s) * Pow2(s) + Low(x, s)
    ensures RoundDiv(x + 1, Pow2(s)) ==
      if 2 * (Low(x, s) + 1) > Pow2(s) || (2 * (Low(x, s) + 1) == Pow2(s) && Shr(x, s) % 2 == 1) then Shr(x, s) + 1
      else Shr(x, s)
  {
    var d := Pow2(s);
    assert d == 2 * Pow2(s - 1);
    LowParity(x, s);
    hide Pow2;
    OneMoreUnit(x, d);
  }

  lemma OneMoreUnit(x: nat, d: nat)
    requires d > 0 && d % 2 == 0 && x % d % 2 == 0
    ensures x % d < d && x == x / d * d + x % d
    ensures RoundDiv(x + 1, d) ==
      if 2 * (x % d + 1) > d || (2 * (x % d + 1) == d && x / d % 2 == 1) then x / d + 1 else x / d
  {
    DivModFacts(x, d);
    var q, w := x / d, x % d;
    assert w + 1 < d;
    DivModUnique(x + 1, d, q, w + 1);
  }

  lemma EarlyTie(s: nat, x: nat)
    requires s >= 1 && x % 2 == 0
    ensures 2 * (Low(x, s) + 1) == Pow2(s) && Shr(x, s) % 2 == 1 <==> s == 1 && x % 4 == 2
  {
    if s == 1 {
      assert Pow2(1) == 2;
    } else {
      assert Pow2(s) == 2 * Pow2(s - 1) == 4 * Pow2(s - 2);
      LowParity(x, s);
      hide Pow2, Low, Shr;
    }
  }

  lemma LowParity(x: nat, s: nat)
    requires s >= 1 && x % 2 == 0
    ensures Low(x, s) % 2 == 0
  {
    assert Pow2(s) == 2 * Pow2(s - 1);
    hide Pow2;
    RemainderParity(x, Pow2(s));
  }

  lemma RemainderParity(x: nat, d: nat)
    requires d > 0 && d % 2 == 0 && x % 2 == 0
    ensures x % d % 2 == 0
  {
    DivModFacts(x, d);
    EvenMultiple(x / d, d);
    var qd, w := x / d * d, x % d;
    assert x == qd + w;
  }

  /** A fraction handed on as it is loses a unit exactly where it sits on a tie. */
  lemma PlainMisrounds(f: Format, s: nat, t: real, h: nat, more: bool)
    requires f.Valid() && s >= 1 && Truncates(t, h, more) && TailRound(f, h, more) == h
    ensures var d, k := Pow2(f.guards + s), Misrounding(f, s, h, more);
      RoundDiv(h, d) >= k && NearestUnits(t, d, RoundDiv(h, d) - k)
  {
    hide Pow2, RoundDiv, NearestUnits, LosesTail, Truncates, Low, Shr;
    PlainTailBits(t, h, f.guards + s, more);
    PlainTailLoses(f, s, h, more);
  }

  /** A fraction rounded up before gains a unit exactly where that made a tie. */
  lemma EarlyMisrounds(f: Format, s: nat, t: real, h: nat, more: bool)
    requires f.Valid() && s >= 1 && Truncates(t, h, more) && TailRound(f, h, more) != h
    ensures var d, k, m := Pow2(f.guards + s), Misrounding(f, s, h, more), RoundDiv(TailRound(f, h, more), Pow2(f.guards + s));
      m >= k && NearestUnits(t, d, m - k)
  {
    hide Pow2, RoundDiv, NearestUnits, LosesTail, Truncates, Low, Shr;
    EarlyTailLoses(f, s, t, h);
  }

  /** Below the normal range the packed result is the correct one, except for the unit a lost tail costs. */
  lemma TailRoundsSubnormal(f: Format, e: int, t: real, h: nat, more: bool)
    requires f.Valid() && e < f.ExpMin()
    requires Implicit1(f) <= h < 2 * Implicit1(f)
    requires Truncates(t, h, more)
    ensures var m, k := PackedMagnitude(f, e, TailRound(f, h, more)), Misrounding(f, f.ExpMin() - e, h, more);
      m >= k && MagnitudeRounds(f, FractionValue(f, e, t), m - k)
  {
    hide Pow2, RoundDiv, NearestUnits, TailRound, Misrounding, FractionValue;
    var s, m := f.ExpMin() - e, PackedMagnitude(f, e, TailRound(f, h, more));
    if TailRound(f, h, more) != h {
      EarlyMisrounds(f, s, t, h, more);
    } else {
      PlainMisrounds(f, s, t, h, more);
    }
    SubnormalIsBelow(f, e);
    PackedSubnormal(f, e, t, m - Misrounding(f, s, h, more));
  }

  lemma SubnormalIsBelow(f: Format, e: int)
    requires f.Valid() && e < f.ExpMin()
    ensures e <= f.Bias()
  {
    Pow2Halves(f.expBits);
    Pow2Halves(f.expBits - 1);
  }

  lemma PlainTailLoses(f: Format, s: nat, h: nat, more: bool)
    requires f.Valid() && s >= 1 && TailRound(f, h, more) == h
    ensures LosesTail(f, s, h, more) <==>
      more && Shr(h, f.guards + s) % 2 == 0 && 2 * Low(h, f.guards + s) == Pow2(f.guards + s)
  {
    hide Low, Shr, RoundDiv, Pow2;
    var tie, second := Low(h, f.guards + s + 1) == Pow2(f.guards + s - 1), Low(h, f.guards + 2) == Pow2(f.guards + 1) + Pow2(f.guards - 1);
    assert LosesTail(f, s, h, more) <==> more && (tie || (s == 1 && second));
    assert more && Low(h, f.guards) == Pow2(f.guards - 1) ==> Shr(h, f.guards) % 2 != 0;
    hide LosesTail, TailRound;
    TieBits(f, s, h);
    SecondTie(f, h);
  }
}
