/** Fixed-point division by either of the source's paths (plugin-libc/libgcc/fixed-bit.c:
    FIXED_DIVHELPER). */
module FixedDivide {
  import opened Powers
  import opened Words
  import opened WordDivision
  import opened CheckedMultiply
  import opened FixedMultiply
  import opened FixedPoint
  import SignedDivision

  /** Division that truncates toward zero. */
  function Truncated(n: int, d: int): int
    requires d != 0
  {
    var q := SignedDivision.Magnitude(n) / SignedDivision.Magnitude(d);
    if (n < 0) == (d < 0) then q else -q
  }

  /** What `Truncated` means. */
  lemma TruncatedIsDivision(n: int, d: int, q: int)
    requires d != 0
    ensures SignedDivision.IsTruncatedDiv(n, d, q, n - q * d) <==> q == Truncated(n, d)
  {
    var a, b := SignedDivision.Magnitude(n), SignedDivision.Magnitude(d);
    if SignedDivision.IsTruncatedDiv(n, d, q, n - q * d) {
      TruncatedUnique(n, d, q, n - q * d, a, b);
    } else {
      DivModFacts(a, b);
      SignedDivision.SignsRestored(n, d, a / b, a % b);
    }
  }

  lemma TruncatedUnique(n: int, d: int, q: int, r: int, a: nat, b: nat)
    requires d != 0 && SignedDivision.IsTruncatedDiv(n, d, q, r)
    requires a == SignedDivision.Magnitude(n) && b == SignedDivision.Magnitude(d)
    ensures q == Truncated(n, d)
  {
    var q' := if (n < 0) == (d < 0) then q else -q;
    var r' := if n < 0 then -r else r;
    assert a == q' * b + r' by {
      assert q' * b == (if n < 0 then -(q * d) else q * d);
    }
    DivModUnique(a, b, q', r');
  }

  /** The dividend scaled up by FBITS. */
  function Scaled(f: FixedFormat, x: int): int {
    Times(x, Pow2(f.fracBits))
  }

  /** The path with an integer type of twice the width. */
  method DivideWide(f: FixedFormat, x: int, y: int, saturate: bool) returns (z: int)
    requires f.Valid() && f.IsInteger(x) && f.IsInteger(y) && y != 0
    ensures f.IsStored(Truncated(Scaled(f, x), y), saturate, z)
  {
    var dx := Scaled(f, x);
    var dz := Truncated(dx, y);
    if saturate {
      dz := Saturate1(f, dz);
    }
    CongruentWrap(f.Base(), dz);
    z := Narrow(f, Wrap(f.Base(), dz), dz);
  }

  /** One round of the loop; the remainder's lost top bit stands in for the borrow. */
  method DivideRound(half: nat, mod0: nat, quo0: nat, s0: nat, d: nat, ghost bit: nat) returns (mod: nat, quo: nat, s: nat)
    requires mod0 < d < 2 * half && s0 < 2 * half && quo0 < half
    requires bit == if s0 >= half then 1 else 0
    ensures mod < d && s == 2 * s0 - bit * (2 * half) && 2 * quo0 <= quo <= 2 * quo0 + 1
    ensures 2 * mod0 + bit == (quo - 2 * quo0) * d + mod
  {
    hide Wrap;
    var base := 2 * half;
    WrapOnce(base, 2 * mod0);
    WrapOnce(base, 2 * s0);
    var leftmost := mod0 >= half;
    mod := Wrap(base, 2 * mod0);
    if s0 >= half {
      mod := mod + 1;
    }
    quo := 2 * quo0;
    WrapOnce(base, mod - d);
    var temp := Wrap(base, mod - d);
    if leftmost || mod >= d {
      quo := quo + 1;
      mod := temp;
    }
    s := Wrap(base, 2 * s0);
  }

  /** The loop: `d` is the divisor, `mod0 < d` the remainder of the high word. */
  method DivideLoop(w: nat, mod0: nat, s0: nat, d: nat) returns (quo: nat, mod: nat)
    requires w >= 1 && mod0 < d < Pow2(w) && s0 < Pow2(w)
    ensures quo < Pow2(w) && IsDivMod(Pair(Pow2(w), mod0, s0), d, quo, mod)
  {
    var base := Pow2(w);
    hide Times, Pair;
    var s: nat := s0;
    mod, quo := mod0, 0;
    ghost var t: nat := s0;
    StartLoop(base, mod0, s0, d);
    assert Pow2(0) == 1;
    var i: nat := 0;
    while i < w
      invariant i <= w && mod < d && quo < Pow2(i) && s < base
      invariant s == Times(t, Pow2(i)) && t < Pow2(w - i)
      invariant Times(Times(quo, d) + mod, Pow2(w - i)) + t == Pair(base, mod0, s0)
    {
      hide Pow2;
      NextBit(w, i, s, t);
      ghost var bit := if s >= Pow2(w - 1) then 1 else 0;
      ghost var mod1, quo1 := mod, quo;
      mod, quo, s := DivideRound(Pow2(w - 1), mod, quo, s, d, bit);
      LoopStep(d, quo1, mod1, bit, Pow2(w - i - 1), t, quo, mod);
      t := t - bit * Pow2(w - i - 1);
      i := i + 1;
    }
    FinishLoop(quo, d, mod, t);
  }

  lemma StartLoop(base: nat, mod0: nat, s0: nat, d: nat)
    ensures Times(Times(0, d) + mod0, base) + s0 == Pair(base, mod0, s0) && s0 == Times(s0, 1)
  {
  }

  lemma FinishLoop(quo: nat, d: nat, mod: nat, t: nat)
    ensures Times(Times(quo, d) + mod, 1) + 0 == quo * d + mod
  {
  }

  /** The bit shifted out of `s` is the top one of those left. */
  lemma NextBit(w: nat, i: nat, s: nat, t: nat)
    requires i < w && s == Times(t, Pow2(i)) && t < Pow2(w - i)
    ensures Pow2(w - i) == 2 * Pow2(w - i - 1) && Pow2(w) == 2 * Pow2(w - 1)
    ensures Pow2(i + 1) == 2 * Pow2(i) && Pow2(i) <= Pow2(w - 1)
    ensures s >= Pow2(w - 1) <==> t >= Pow2(w - i - 1)
    ensures var bit := if s >= Pow2(w - 1) then 1 else 0;
      2 * s - bit * Pow2(w) == Times(t - bit * Pow2(w - i - 1), Pow2(i + 1))
  {
    var p, q := Pow2(i), Pow2(w - i - 1);
    Pow2Split(i, w - 1);
    Pow2Monotone(i, w - 1);
    assert w - 1 - i == w - i - 1 && Pow2(w - 1) == q * p;
    IntScale(q, t, p);
    hide Times;
    TimesDoubled(t, p);
    TimesDoubled(t - q, p);
    DropBase(t, q, p);
    TimesCommutes(p, q);
    assert Times(q, p) == Pow2(w - 1) by { TimesIs(q, p); }
    assert Times(t, p) == t * p by { TimesIs(t, p); }
  }

  lemma TimesDoubled(t: int, p: int)
    ensures Times(t, 2 * p) == 2 * Times(t, p)
  {
  }

  /** One round keeps the dividend. */
  lemma LoopStep(d: nat, quo: nat, mod: nat, bit: nat, p: nat, t: int, quo': nat, mod': nat)
    requires 2 * mod + bit == (quo' - 2 * quo) * d + mod'
    ensures Times(Times(quo', d) + mod', p) + (t - bit * p) == Times(Times(quo, d) + mod, 2 * p) + t
  {
    assert (quo' - 2 * quo) * d == quo' * d - 2 * (quo * d);
    var b := quo * d + mod;
    assert Times(quo', d) + mod' == 2 * b + bit;
    assert (2 * b + bit) * p == b * (2 * p) + bit * p;
  }

  /** The dividend the two words hold after the shift by FBITS: for the least signed integer the high word is
      shifted with its sign, which adds `2^Width - 2^FBITS` to it. */
  function ShiftedDividend(f: FixedFormat, posA: nat): int
    requires f.Valid()
  {
    Scaled(f, posA) + if !f.unsigned && posA == f.Half() then Times(f.Base() - Pow2(f.fracBits), f.Base()) else 0
  }

  /** Shifting the dividend left by FBITS into two words. */
  method ShiftUp(f: FixedFormat, posA: nat) returns (r: nat, s: nat)
    requires f.Valid() && posA < f.Base() && (!f.unsigned ==> posA <= f.Half())
    ensures r < f.Base() && s < f.Base() && Pair(f.Base(), r, s) == ShiftedDividend(f, posA)
  {
    var base := f.Base();
    if f.fracBits == f.Width() {
      assert f.unsigned;
      r, s := posA, 0;
      assert Times(posA, base) == Pair(base, posA, 0);
    } else {
      var p, up := Pow2(f.fracBits), Pow2(f.Width() - f.fracBits);
      Pow2Split(f.fracBits, f.Width());
      DivModFacts(f.Reading(posA), up);
      s := Wrap(base, Times(posA, p));
      r := Wrap(base, f.Reading(posA) / up);
      HighBits(f, posA, p, up, f.Reading(posA) / up, f.Reading(posA) % up);
    }
  }

  lemma HighBits(f: FixedFormat, posA: nat, p: nat, up: nat, h: int, l: nat)
    requires f.Valid() && f.fracBits < f.Width() && p == Pow2(f.fracBits) && up > 0 && f.Base() == p * up
    requires posA < f.Base() && (!f.unsigned ==> posA <= f.Half())
    requires f.Reading(posA) == h * up + l && l < up
    ensures Pair(f.Base(), Wrap(f.Base(), h), Wrap(f.Base(), Times(posA, p))) == ShiftedDividend(f, posA)
  {
    var base := f.Base();
    var v := f.Reading(posA);
    Pow2Monotone(f.fracBits, f.Width() - 1);
    hide Pow2, Wrap, Times, Pair;
    HighBitsRange(base, p, up, h, l, v);
    WrapOnce(base, h);
    LowPart(base, p, up, l);
    PartsOfWord(base, up, p, v, posA, h, l);
    HighBitsSum(base, p, up, v, posA, h, l);
  }

  lemma LowPart(base: nat, p: nat, up: nat, l: nat)
    requires l < up && base == p * up && p > 0
    ensures 0 <= l * p < base && base == up * p && l * p == Times(l, p)
  {
    IntScaleStrictBoth(l, up, p);
  }

  lemma HighBitsSum(base: nat, p: nat, up: nat, v: int, posA: nat, h: int, l: nat)
    requires base == p * up && v == h * up + l
    ensures v == posA ==> Pair(base, h, Times(l, p)) == Times(posA, p)
    ensures v == posA - base ==> Pair(base, h + base, Times(l, p)) == Times(posA, p) + Times(base - p, base)
  {
    var hu := h * up;
    assert (hu + l) * p == hu * p + l * p;
    assert hu * p == h * (p * up);
    assert (posA - base) * p == posA * p - base * p;
    assert (h + base) * base == h * base + base * base && (base - p) * base == base * base - p * base;
  }

  lemma HighBitsRange(base: nat, p: nat, up: nat, h: int, l: nat, v: int)
    requires up > 0 && p > 0 && base == p * up && v == h * up + l && l < up
    requires -(base as int) <= v < base
    ensures -(base as int) <= h < p <= base && (v >= 0 <==> h >= 0)
  {
    IntScaleStrictBoth(h, p, up);
    IntScaleStrictBoth(h, 0, up);
    var g: int := -(p as int);
    assert g * up == -(base as int);
    IntScaleStrictBoth(h, g, up);
    MulAtLeast(p, up, 1);
  }

  /** The quotient of the magnitudes, in two words: right for every dividend but the least signed integer, and
      wrong for that one whatever the divisor. */
  method QuotientWords(f: FixedFormat, x: int, y: int) returns (quoR: nat, quoS: nat, negative: bool)
    requires f.Valid() && f.IsInteger(x) && f.IsInteger(y) && y != 0
    ensures quoR < f.Base() && quoS < f.Base() && (negative <==> (x < 0) != (y < 0))
    ensures Pair(f.Base(), quoR, quoS) == SignedDivision.Magnitude(Scaled(f, x)) / SignedDivision.Magnitude(y)
       <==> f.unsigned || x != -(f.Half() as int)
    ensures Pair(f.Base(), quoR, quoS) == ShiftedDividend(f, SignedDivision.Magnitude(x)) / SignedDivision.Magnitude(y)
  {
    var base := f.Base();
    var posA, posB := Wrap(base, x), Wrap(base, y);
    negative := false;
    MagnitudeWord(f, x);
    MagnitudeWord(f, y);
    if !f.unsigned {
      if x < 0 {
        posA := Wrap(base, -x);
        negative := !negative;
      }
      if y < 0 {
        posB := Wrap(base, -y);
        negative := !negative;
      }
    }
    var r, s := ShiftUp(f, posA);
    SplitWord(posB, r);
    QuotientBelowBase(base, r, posB);
    quoR := Quotient(posB, r);
    var mod := Wrap(posB, r);
    var rest;
    quoS, rest := DivideLoop(f.Width(), mod, s, posB);
    JoinedDigits(base, r, s, posB, quoR, mod, quoS, rest);
    ScaledMagnitude(f, x);
    WrongDividend(f, posA, posB, Pair(base, quoR, quoS), rest);
    DivModUnique(ShiftedDividend(f, posA), posB, Pair(base, quoR, quoS), rest);
  }

  lemma MagnitudeWord(f: FixedFormat, x: int)
    requires f.Valid() && f.IsInteger(x)
    ensures var m := SignedDivision.Magnitude(x);
      m < f.Base() && (!f.unsigned ==> m <= f.Half()) && (if x < 0 then Wrap(f.Base(), -x) else Wrap(f.Base(), x)) == m
  {
    WrapOnce(f.Base(), x);
    WrapOnce(f.Base(), -x);
  }

  lemma QuotientBelowBase(base: nat, r: nat, d: nat)
    requires d > 0 && r < base
    ensures Quotient(d, r) < base
  {
    SplitWord(d, r);
    MulAtLeast(Quotient(d, r), d, 1);
  }

  lemma ScaledMagnitude(f: FixedFormat, x: int)
    ensures SignedDivision.Magnitude(Scaled(f, x)) == Scaled(f, SignedDivision.Magnitude(x))
  {
    var p := Pow2(f.fracBits);
    assert (-x) * p == -(x * p);
    if x >= 0 {
      assert x * p >= 0;
    } else {
      IntScale(x, 0, p);
    }
  }

  lemma JoinedDigits(base: nat, r: nat, s: nat, d: nat, quoR: nat, mod: nat, quoS: nat, rest: nat)
    requires r == quoR * d + mod && IsDivMod(Pair(base, mod, s), d, quoS, rest)
    ensures IsDivMod(Pair(base, r, s), d, Pair(base, quoR, quoS), rest)
  {
    assert (quoR * d + mod) * base == quoR * d * base + mod * base;
    assert (quoR * base + quoS) * d == quoR * base * d + quoS * d;
    assert quoR * d * base == quoR * base * d;
  }

  lemma WrongDividend(f: FixedFormat, posA: nat, d: nat, q: int, rest: int)
    requires f.Valid() && 0 < d < f.Base() && (!f.unsigned ==> d <= f.Half())
    requires IsDivMod(ShiftedDividend(f, posA), d, q, rest)
    ensures q == Scaled(f, posA) / d <==> f.unsigned || posA != f.Half()
  {
    var n := Scaled(f, posA);
    if f.unsigned || posA != f.Half() {
      DivModUnique(n, d, q, rest);
    } else {
      Pow2Monotone(f.fracBits, f.Width() - 1);
      var base := f.Base();
      DivModFacts(n, d);
      hide Pow2;
      MulAtLeast(base, base - Pow2(f.fracBits), 1);
      TimesCommutes(base, base - Pow2(f.fracBits));
      if q == n / d {
        assert false;
      }
    }
  }

  /** The two-word negation: the high word is complemented unless the low word is zero. */
  method NegateWords(base: nat, quoR: nat, quoS: nat) returns (r: nat, s: nat)
    requires quoR < base && quoS < base
    ensures r < base && s < base && Times(base, base) > 0
    ensures Congruent(Times(base, base), Pair(base, r, s), -Pair(base, quoR, quoS))
  {
    var g: int, t: int := -(quoS as int), -(quoR as int);
    WrapOnce(base, g);
    WrapOnce(base, t);
    s := Wrap(base, g);
    r := if s == 0 then Wrap(base, t) else base - 1 - quoR;
    NegatedWords(base, quoR, quoS, r, s);
  }

  lemma NegatedWords(base: nat, quoR: nat, quoS: nat, r: nat, s: nat)
    requires base > 0 && quoR < base && quoS < base
    requires if quoS == 0 then s == 0 && (r == base - quoR || (r == 0 && quoR == 0))
             else s == base - quoS && r == base - 1 - quoR
    ensures Times(base, base) > 0
    ensures Congruent(Times(base, base), Pair(base, r, s), -Pair(base, quoR, quoS))
  {
    SquarePositive(base);
    NegatedPair(base, quoR, quoS);
    hide Times, Pair, Congruent;
    var p: int := -Pair(base, quoR, quoS);
    if quoS == 0 && quoR == 0 {
      PairZero(base, 0);
      CongruentSelf(Times(base, base), p);
    } else {
      WholeTurn(Times(base, base), p);
      CongruentSymmetric(Times(base, base), p, p + Times(base, base));
    }
  }

  lemma CongruentSymmetric(m: nat, a: int, b: int)
    requires m > 0 && Congruent(m, a, b)
    ensures Congruent(m, b, a)
  {
  }

  lemma NegatedPair(base: nat, h: int, l: int)
    ensures Pair(base, base - h, 0) == Times(base, base) - Pair(base, h, 0)
    ensures Pair(base, base - 1 - h, base - l) == Times(base, base) - Pair(base, h, l)
  {
    assert (base - h) * base == base * base - h * base;
    assert (base - 1 - h) * base == base * base - base - h * base;
  }

  /** The quotient stays in range. */
  lemma QuotientInRange(f: FixedFormat, x: int, y: int)
    requires f.Valid() && f.IsInteger(x) && f.IsInteger(y) && y != 0 && (f.unsigned || x != -(f.Half() as int))
    ensures var q := SignedDivision.Magnitude(Scaled(f, x)) / SignedDivision.Magnitude(y);
      0 <= q < if f.unsigned then Times(f.Base(), f.Base()) else 2 * Times(f.Half(), f.Half())
  {
    var m := SignedDivision.Magnitude(x);
    ScaledMagnitude(f, x);
    Pow2Monotone(f.fracBits, f.Width());
    if f.unsigned {
      ScaledBelow(m, Pow2(f.fracBits), f.Base());
    } else {
      Pow2Monotone(f.fracBits, f.Width() - 1);
      ScaledBelow(m, Pow2(f.fracBits), f.Half());
    }
    QuotientAtMost(Scaled(f, m), SignedDivision.Magnitude(y));
  }

  lemma ScaledBelow(m: nat, p: nat, b: nat)
    requires m < b && p <= b
    ensures 0 <= Times(m, p) < Times(b, b)
  {
    MulAtMost(m, p, b);
    IntScaleStrict(m, b, b);
    assert m * p >= 0;
  }

  lemma QuotientAtMost(n: nat, d: nat)
    requires d > 0
    ensures 0 <= n / d <= n
  {
    DivModFacts(n, d);
    MulAtLeast(n / d, d, 1);
  }

  /** The values of a double word. */
  predicate IsWide(f: FixedFormat, v: int)
    requires f.Valid()
  {
    if f.unsigned then 0 <= v < Times(f.Base(), f.Base())
    else -2 * Times(f.Half(), f.Half()) <= v < 2 * Times(f.Half(), f.Half())
  }

  /** What the path built from words computes before storing: the wrapped signed quotient of the dividend it
      shifted. */
  predicate IsQuotientOf(f: FixedFormat, x: int, y: int, wide: int)
    requires f.Valid() && f.IsInteger(x) && f.IsInteger(y) && y != 0
  {
    var q := ShiftedDividend(f, SignedDivision.Magnitude(x)) / SignedDivision.Magnitude(y);
    && IsWide(f, wide)
    && Times(f.Base(), f.Base()) > 0
    && Congruent(Times(f.Base(), f.Base()), wide, if (x < 0) != (y < 0) then -q else q)
  }

  // The least dividend.

  /** When the quotient of the least signed integer by `y` is stored right although the dividend formed is not.
      Saturating, what is formed always lies beyond the format's range, so the true quotient must reach its end. */
  predicate LeastDivides(f: FixedFormat, y: int, saturate: bool)
    requires f.Valid() && y != 0
  {
    if saturate then
      2 <= y <= Pow2(f.fracBits + f.PaddingBits()) || (y <= -2 && -y * f.Max() <= Scaled(f, f.Half()))
    else
      var d := SignedDivision.Magnitude(y);
      Congruent(Pow2(f.UsedBits()), ShiftedDividend(f, f.Half()) / d, Scaled(f, f.Half()) / d)
  }

  /** The dividend formed from the least integer is the complement of the right one. */
  lemma LeastShifted(f: FixedFormat)
    requires f.Valid() && !f.unsigned
    ensures ShiftedDividend(f, f.Half()) == 4 * Times(f.Half(), f.Half()) - Scaled(f, f.Half())
    ensures 2 * f.Half() <= Scaled(f, f.Half()) <= Times(f.Half(), f.Half())
    ensures f.Max() < f.Half() && -(f.Half() as int) <= f.Min() < f.Max()
  {
    LeastRange(f);
    var h, p := f.Half(), Pow2(f.fracBits);
    Pow2Monotone(f.fracBits, f.Width() - 1);
    assert f.Base() == 2 * h && p == 2 * Pow2(f.fracBits - 1);
    hide Pow2, FixedFormat.Half, FixedFormat.Max, FixedFormat.Min;
    Complementary(h, p);
  }

  lemma Complementary(h: nat, p: nat)
    requires 2 <= p <= h
    ensures Times(2 * h - p, 2 * h) + Times(h, p) == 4 * Times(h, h) - Times(h, p)
    ensures 2 * h <= Times(h, p) <= Times(h, h)
  {
    assert (2 * h - p) * (2 * h) == 4 * (h * h) - 2 * (h * p);
    MulAtMost(h, p, h);
    MulAtLeast(h, p, 2);
  }

  lemma LeastRange(f: FixedFormat)
    requires f.Valid() && !f.unsigned
    ensures f.Max() < f.Half() && -(f.Half() as int) <= f.Min() < 0 < f.Max()
  {
    Pow2Monotone(f.ValueBits(), f.Width() - 1);
    assert Pow2(f.ValueBits()) == 2 * Pow2(f.ValueBits() - 1);
  }

  /** The size of its quotient by a divisor other than 1 and -1. */
  lemma LeastQuotient(h: nat, n: nat, d: nat, q: int, r: int)
    requires 2 <= d <= h && 0 < n <= Times(h, h) && 4 * Times(h, h) - n == q * d + r && 0 <= r < d
    ensures 3 * h <= q < 2 * Times(h, h)
  {
    IntScaleStrictBoth(q, 3 * h, d);
    assert 3 * h * d == 3 * (h * d);
    MulAtMost(h, d, h);
    MulAtLeast(q, d, 2);
  }

  /** What that quotient saturates to. */
  lemma LeastClamped(f: FixedFormat, y: int, wide: int)
    requires f.Valid() && !f.unsigned && f.IsInteger(y) && y != 0 && IsQuotientOf(f, -(f.Half() as int), y, wide)
    ensures f.Clamp(wide) == if y == 1 || y <= -2 then f.Max() else f.Min()
  {
    var h, d := f.Half(), SignedDivision.Magnitude(y);
    var n, big := Scaled(f, h), ShiftedDividend(f, h);
    LeastShifted(f);
    SquareOfDouble(h);
    DivModFacts(big, d);
    var q, v := big / d, if y > 0 then -(big / d) else big / d;
    var m := Times(f.Base(), f.Base());
    assert Congruent(m, wide, v) && -2 * Times(h, h) <= wide < 2 * Times(h, h);
    assert f.Base() == 2 * h;
    hide Pow2, Times, Congruent, ShiftedDividend, Scaled, FixedFormat.Max, FixedFormat.Min, FixedFormat.Half, IsQuotientOf;
    if d == 1 {
      assert q == big;
      Turned(m, wide, v, if y > 0 then n else -n);
      WithinOnePeriod(m, wide, if y > 0 then n else -n);
    } else {
      LeastQuotient(h, n, d, q, big % d);
      WithinOnePeriod(m, wide, v);
    }
  }

  lemma Turned(m: nat, a: int, b: int, c: int)
    requires m > 0 && Congruent(m, a, b) && (c == b || c == b + m || c == b - m)
    ensures Congruent(m, a, c)
  {
    ModDrop(b, 1, m);
    ModDrop(b, -1, m);
  }

  /** When the true quotient saturates to the end of the range that the one formed saturates to. */
  lemma LeastTrue(f: FixedFormat, y: int)
    requires f.Valid() && !f.unsigned && f.IsInteger(y) && y != 0
    ensures var t := f.Clamp(Truncated(Scaled(f, -(f.Half() as int)), y));
      && (y > 0 ==> (t == f.Min() <==> y <= Pow2(f.fracBits + f.PaddingBits())))
      && (y < 0 ==> (t == f.Max() <==> -y * f.Max() <= Scaled(f, f.Half())))
  {
    var d, n := SignedDivision.Magnitude(y), Scaled(f, f.Half());
    LeastRange(f);
    LeastShifted(f);
    ScaledMagnitude(f, -(f.Half() as int));
    ScaledSign(f, -(f.Half() as int));
    LeastScale(f);
    var p, top := Pow2(f.fracBits + f.PaddingBits()), f.Max();
    assert f.Min() == -(top + 1);
    assert Truncated(Scaled(f, -(f.Half() as int)), y) == if y > 0 then -(n / d) else n / d;
    hide Pow2, Scaled, Truncated, Times, ShiftedDividend, FixedFormat.Max, FixedFormat.Min, FixedFormat.Half;
    AtLeastQuotient(n, d, top);
    AtLeastQuotient(n, d, top + 1);
    ScaledOrder(d, p, top + 1);
    assert n / d >= 0;
  }

  lemma ScaledOrder(a: nat, b: nat, k: nat)
    requires k > 0
    ensures k * a <= b * k <==> a <= b
  {
    IntScale(b, a, k);
    IntScale(a, b, k);
  }

  lemma AtLeastQuotient(n: nat, d: nat, k: nat)
    requires d > 0
    ensures n / d >= k <==> n >= k * d
  {
    DivModFacts(n, d);
    IntScaleStrictBoth(n / d, k, d);
  }

  lemma LeastScale(f: FixedFormat)
    requires f.Valid() && !f.unsigned
    ensures Scaled(f, f.Half()) == Pow2(f.fracBits + f.PaddingBits()) * (f.Max() + 1)
  {
    var v, p := f.ValueBits(), f.PaddingBits();
    Pow2Add(v, p);
    Pow2Add(f.fracBits, p);
    assert f.Width() - 1 == v + p;
    hide Pow2;
    var a, b, c := Pow2(v), Pow2(p), Pow2(f.fracBits);
    assert (a * b) * c == (c * b) * a;
  }

  lemma LeastStored(f: FixedFormat, y: int, saturate: bool, wide: int, z: int)
    requires f.Valid() && !f.unsigned && f.IsInteger(y) && y != 0
    requires IsQuotientOf(f, -(f.Half() as int), y, wide) && f.IsStored(wide, saturate, z)
    ensures f.IsStored(Truncated(Scaled(f, -(f.Half() as int)), y), saturate, z) <==> LeastDivides(f, y, saturate)
  {
    var t := Truncated(Scaled(f, -(f.Half() as int)), y);
    if saturate {
      LeastShifted(f);
      LeastClamped(f, y, wide);
      LeastTrue(f, y);
      SaturatedIsClamped(f, wide, z);
      CongruentSelf(Pow2(f.UsedBits()), z);
      if f.IsStored(t, true, z) {
        SaturatedIsClamped(f, t, z);
      }
    } else {
      LeastWrapped(f, y, wide, z);
    }
  }

  /** Without saturation the result is right when both quotients agree in the bits kept. */
  lemma LeastWrapped(f: FixedFormat, y: int, wide: int, z: int)
    requires f.Valid() && !f.unsigned && f.IsInteger(y) && y != 0
    requires IsQuotientOf(f, -(f.Half() as int), y, wide) && f.IsNarrowed(wide, z)
    ensures f.IsNarrowed(Truncated(Scaled(f, -(f.Half() as int)), y), z) <==> LeastDivides(f, y, false)
  {
    var d, m, bb := SignedDivision.Magnitude(y), Pow2(f.UsedBits()), Times(f.Base(), f.Base());
    var q, t := ShiftedDividend(f, f.Half()) / d, Scaled(f, f.Half()) / d;
    ScaledMagnitude(f, -(f.Half() as int));
    ScaledSign(f, -(f.Half() as int));
    BaseMultiple(f);
    CongruentModDivisor(m, bb / m, wide, if y > 0 then -q else q);
    assert Truncated(Scaled(f, -(f.Half() as int)), y) == if y > 0 then -t else t;
    hide Pow2, Times, Congruent, ShiftedDividend, Scaled, IsQuotientOf, Truncated;
    SameResidue(m, q, t);
    SameClass(m, z, wide, if y > 0 then -q else q, if y > 0 then -t else t);
  }

  lemma BaseMultiple(f: FixedFormat)
    requires f.Valid()
    ensures var m, bb := Pow2(f.UsedBits()), Times(f.Base(), f.Base());
      bb / m > 0 && m * (bb / m) == bb
  {
    hide Pow2, Times;
    Pow2Add(f.UsedBits(), f.PaddingBits());
    SquareOverFactor(Pow2(f.UsedBits()), Pow2(f.PaddingBits()), f.Base());
  }

  lemma SquareOverFactor(m: nat, k: nat, base: nat)
    requires m > 0 && k > 0 && base == m * k
    ensures var bb := Times(base, base);
      bb / m > 0 && m * (bb / m) == bb
  {
    var c := k * base;
    assert base * base == c * m;
    SquarePositive(k);
    assert c == m * (k * k);
    DivModUnique(c * m, m, c, 0);
    IntScaleStrictBoth(0, c, m);
    SquarePositive(base);
  }

  lemma SameResidue(m: nat, a: int, b: int)
    requires m > 0
    ensures Congruent(m, -a, -b) <==> Congruent(m, a, b)
  {
    if Congruent(m, a, b) {
      CongruentMinus(m, a, b, a + b);
    }
    if Congruent(m, -a, -b) {
      CongruentMinus(m, -a, -b, -a - b);
    }
  }

  lemma SameClass(m: nat, z: int, w: int, a: int, b: int)
    requires m > 0 && Congruent(m, z, w) && Congruent(m, w, a)
    ensures Congruent(m, z, b) <==> Congruent(m, a, b)
  {
  }

  /** For a divisor that is a power of two, or the negative of one, the bits kept agree exactly as far as the quotient
      still has the format's fraction and padding bits to give. */
  lemma LeastByPower(f: FixedFormat, y: int, k: nat)
    requires f.Valid() && !f.unsigned && f.IsInteger(y) && SignedDivision.Magnitude(y) == Pow2(k)
    ensures y != 0 && (LeastDivides(f, y, false) <==> k <= f.fracBits + f.PaddingBits())
  {
    hide Pow2, Times, Congruent, ShiftedDividend, Scaled;
    var w, used := f.Width(), f.UsedBits();
    var a: nat := w - 1 + f.fracBits;
    if k > w - 1 {
      Pow2Monotone(w - 1, k);
    }
    LeastDividend(f);
    PowerQuotient(2 * w, a, k);
    PowerMultiple(2 * w - k, used);
    PowerMultiple(a - k + 1, used);
    Pow2Halves(a - k + 1);
    SameHalves(Pow2(used), Pow2(2 * w - k), Pow2(a - k));
  }

  lemma LeastDividend(f: FixedFormat)
    requires f.Valid() && !f.unsigned
    ensures Scaled(f, f.Half()) == Pow2(f.Width() - 1 + f.fracBits)
    ensures ShiftedDividend(f, f.Half()) == Pow2(2 * f.Width()) - Pow2(f.Width() - 1 + f.fracBits)
    ensures f.fracBits < f.Width()
  {
    hide Pow2, ShiftedDividend;
    LeastShifted(f);
    var w := f.Width();
    Pow2Add(w - 1, f.fracBits);
    Pow2Add(w - 1, w - 1);
    Pow2Halves(2 * w);
    Pow2Halves(2 * w - 1);
    assert (w - 1) + (w - 1) == 2 * w - 2;
  }

  /** A power of two, or the difference of two, divided by a third. */
  lemma PowerQuotient(b: nat, a: nat, k: nat)
    requires k <= a <= b
    ensures Pow2(a) / Pow2(k) == Pow2(a - k)
    ensures (Pow2(b) as int - Pow2(a)) / Pow2(k) == Pow2(b - k) as int - Pow2(a - k)
  {
    hide Pow2;
    Pow2Split(k, a);
    Pow2Split(k, b);
    var d: int, x: int, y: int := Pow2(k), Pow2(a - k), Pow2(b - k);
    assert (y - x) * d == y * d - x * d;
    DivModUnique(x * d, d, x, 0);
    DivModUnique(y * d - x * d, d, y - x, 0);
  }

  lemma PowerMultiple(u: nat, v: nat)
    ensures Pow2(u) % Pow2(v) == 0 <==> v <= u
  {
    hide Pow2;
    if v <= u {
      Pow2Split(v, u);
      DivModUnique(Pow2(u), Pow2(v), Pow2(u - v), 0);
    } else {
      Pow2Monotone(u, v);
      DivModUnique(Pow2(u), Pow2(v), 0, Pow2(u));
    }
  }

  lemma SameHalves(m: nat, x: nat, y: nat)
    requires m > 0 && x % m == 0
    ensures Congruent(m, x - y, y) <==> 2 * y % m == 0
  {
    if Congruent(m, x - y, y) {
      CongruentMinus(m, x - y, y, 0 - y);
    }
    if 2 * y % m == 0 {
      CongruentMinus(m, x, 2 * y, y);
    }
  }

  /** The path built from words. It stores the truncated quotient for every dividend but the least signed
      integer, and for that one exactly when `LeastDivides`. */
  method DivideNarrow(f: FixedFormat, x: int, y: int, saturate: bool) returns (z: int)
    requires f.Valid() && f.IsInteger(x) && f.IsInteger(y) && y != 0
    ensures f.IsStored(Truncated(Scaled(f, x), y), saturate, z)
      <==> f.unsigned || x != -(f.Half() as int) || LeastDivides(f, y, saturate)
    ensures exists wide :: IsQuotientOf(f, x, y, wide) && f.IsStored(wide, saturate, z)
  {
    var base := f.Base();
    var r, s, negative := QuotientWords(f, x, y);
    ghost var ok := f.unsigned || x != -(f.Half() as int);
    hide Pair, Times, Wrap, Pow2, Congruent;
    ghost var q := Pair(base, r, s);
    SquarePositive(base);
    CongruentSelf(Times(base, base), q);
    if negative {
      r, s := NegateWords(base, r, s);
    }
    ghost var wide := f.Wide(r, s);
    WideValue(f, r, s);
    CongruentStep(Times(base, base), wide, Pair(base, r, s), if negative then -q else q);
    if ok {
      QuotientInRange(f, x, y);
      ScaledSign(f, x);
      ReadingIsExact(f, r, s, if negative then -q else q);
    }
    if saturate {
      r, s := Saturate2(f, r, s);
    }
    LowWordCongruent(f, r, s);
    z := Narrow(f, s, f.Wide(r, s));
    assert IsQuotientOf(f, x, y, wide) && f.IsStored(wide, saturate, z);
    if !ok {
      LeastStored(f, y, saturate, wide, z);
    }
  }

  lemma WideValue(f: FixedFormat, h: nat, l: nat)
    requires f.Valid() && h < f.Base() && l < f.Base()
    ensures IsWide(f, f.Wide(h, l)) && Times(f.Base(), f.Base()) > 0
    ensures Congruent(Times(f.Base(), f.Base()), f.Wide(h, l), Pair(f.Base(), h, l))
  {
    hide Pow2, Times, Pair, Congruent;
    var m := Times(f.Base(), f.Base());
    SquarePositive(f.Base());
    CongruentSelf(m, f.Wide(h, l));
    if f.unsigned {
      PairIsWord(f.Base(), h, l);
    } else {
      SignedRange(f.Half(), f.Wide(h, l), h, l);
      HalfRange(f.Half(), h, l);
      SquareOfDouble(f.Half());
      if h >= f.Half() {
        WholeTurn(m, f.Wide(h, l));
      }
    }
  }

  /** At the least dividend even the saturated result can be wrong: in the format of two bits with one
      fraction bit, -1.0 by 0.5 saturates to the largest value instead of the smallest. */
  lemma LeastDividendFails(z: int, wide: int)
    requires IsQuotientOf(FixedFormat(1, 1, 0, false), -2, 1, wide)
    requires FixedFormat(1, 1, 0, false).IsStored(wide, true, z)
    ensures var f := FixedFormat(1, 1, 0, false);
      z == f.Max() == 1 && f.Clamp(Truncated(Scaled(f, -2), 1)) == f.Min() == -2
  {
    var f := FixedFormat(1, 1, 0, false);
    assert Pow2(1) == 2 && f.Base() == 4 && f.Half() == 2;
    assert ShiftedDividend(f, 2) == 12;
    WrapOnce(16, wide);
    DivModUnique(-12, 16, -1, 4);
    assert wide == 4;
    SaturatedIsClamped(f, wide, z);
  }

  lemma SquarePositive(base: nat)
    requires base > 0
    ensures Times(base, base) > 0
  {
    MulAtLeast(base, base, 1);
  }

  lemma ScaledSign(f: FixedFormat, x: int)
    ensures Scaled(f, x) < 0 <==> x < 0
  {
    IntScale(x, 0, Pow2(f.fracBits));
  }
}
