/** Fixed-point formats and the double-word helpers shared by multiplication and division
    (plugin-libc/libgcc/fixed-bit.c and fixed-bit.h). A value of the format is an integer `x` standing
    for `x / 2^fracBits`; words are natural numbers below `2^Width()`. */
module FixedPoint {
  import opened Powers
  import opened Words
  import opened CheckedMultiply

  /** `fracBits` is FBITS, `intBits` IBITS; the width is twice a half-word's. */
  datatype FixedFormat = FixedFormat(halfWidth: nat, fracBits: nat, intBits: nat, unsigned: bool) {

    function Width(): nat { 2 * halfWidth }

    /** I_F_BITS. */
    function ValueBits(): nat { fracBits + intBits }

    /** NONPADDING_BITS. */
    function UsedBits(): nat { if unsigned then ValueBits() else ValueBits() + 1 }

    predicate Valid() {
      halfWidth >= 1 && fracBits >= 1 && UsedBits() <= Width()
    }

    /** PADDING_BITS. */
    function PaddingBits(): nat
      requires Valid()
    {
      Width() - UsedBits()
    }

    function Base(): nat
      ensures Base() > 0
    {
      Pow2(Width())
    }

    function Half(): nat
      requires Valid()
      ensures Half() > 0 && Base() == 2 * Half()
    {
      Pow2(Width() - 1)
    }

    function Max(): int { Pow2(ValueBits()) - 1 }

    function Min(): int { if unsigned then 0 else -(Pow2(ValueBits()) as int) }

    /** The values of the format proper, its padding bits being copies of the sign or zero. */
    predicate InRange(x: int) { Min() <= x <= Max() }

    /** The values an integer of the format's width can hold, whatever its padding bits are. */
    predicate IsInteger(x: int)
      requires Valid()
    {
      if unsigned then 0 <= x < Base() else -(Half() as int) <= x < Half()
    }

    /** The value of a word, signed or not as the format is. */
    function Reading(x: nat): int
      requires Valid()
    {
      if unsigned then x else Signed(Half(), x)
    }

    /** The value of a double word. */
    function Wide(h: nat, l: nat): int
      requires Valid()
    {
      Pair(Base(), Reading(h), l)
    }

    /** Saturation. */
    function Clamp(x: int): int {
      if x > Max() then Max() else if x < Min() then Min() else x
    }

    /** `z` is `x` brought into the format by dropping the bits that do not fit. */
    predicate IsNarrowed(x: int, z: int) {
      InRange(z) && Congruent(Pow2(UsedBits()), z, x)
    }

    predicate IsStored(x: int, saturate: bool, z: int) {
      IsNarrowed(if saturate then Clamp(x) else x, z)
    }
  }

  /** There is one narrowed value, and it is the value itself when that is in range. */
  lemma NarrowedIsUnique(f: FixedFormat, x: int, y: int, z: int)
    requires f.IsNarrowed(x, y) && f.IsNarrowed(x, z)
    ensures y == z
    ensures f.InRange(x) ==> z == x
  {
    var m := Pow2(f.UsedBits());
    assert f.Max() - f.Min() < m;
    hide Pow2;
    WithinOnePeriod(m, y, z);
    if f.InRange(x) {
      WithinOnePeriod(m, x, z);
    }
  }

  /** A saturated result is the clamped value exactly. */
  lemma SaturatedIsClamped(f: FixedFormat, x: int, z: int)
    requires f.IsStored(x, true, z)
    ensures z == f.Clamp(x)
  {
    assert f.Min() <= f.Max();
    NarrowedIsUnique(f, f.Clamp(x), z, z);
  }

  lemma WithinOnePeriod(m: nat, x: int, y: int)
    requires m > 0 && Congruent(m, x, y) && -(m as int) < x - y < m
    ensures x == y
  {
    CongruentMinus(m, x, y, y);
    WrapOnce(m, x - y);
    WrapOnce(m, 0);
  }

  /** The integer's word, and back. */
  lemma ReadingOfWord(f: FixedFormat, x: int)
    requires f.Valid() && f.IsInteger(x)
    ensures Wrap(f.Base(), x) == if x < 0 then x + f.Base() else x
    ensures f.Reading(Wrap(f.Base(), x)) == x
  {
    WrapOnce(f.Base(), x);
  }

  // Saturation.

  /** FIXED_SATURATE1: on an integer of twice the width. */
  method Saturate1(f: FixedFormat, a: int) returns (r: int)
    requires f.Valid()
    ensures r == f.Clamp(a)
  {
    var max := Pow2(f.ValueBits());
    max := max - 1;
    var min := 0;
    if !f.unsigned {
      min := -(Pow2(2 * f.Width() - 1) as int);
      SmallestShifted(2 * f.Width() - 1, f.ValueBits());
      min := min / Pow2(2 * f.Width() - 1 - f.ValueBits());
    }
    r := a;
    if a > max {
      r := max;
    } else if a < min {
      r := min;
    }
  }

  lemma SmallestShifted(n: nat, k: nat)
    requires k <= n
    ensures (-(Pow2(n) as int)) / Pow2(n - k) == -(Pow2(k) as int)
  {
    Pow2Split(k, n);
    assert (-(Pow2(k) as int)) * Pow2(n - k) == -(Pow2(k) * Pow2(n - k));
    DivModUnique(-(Pow2(n) as int), Pow2(n - k), -(Pow2(k) as int), 0);
  }

  /** FIXED_SATURATE2: on the two words of such an integer. */
  method Saturate2(f: FixedFormat, high: nat, low: nat) returns (h: nat, l: nat)
    requires f.Valid() && high < f.Base() && low < f.Base()
    ensures h < f.Base() && l < f.Base() && f.Wide(h, l) == f.Clamp(f.Wide(high, low))
  {
    hide Pow2, Wrap, Pair;
    var base := f.Base();
    Pow2Monotone(f.ValueBits(), f.Width());
    var sMax: nat := base - 1;
    if !f.unsigned || f.PaddingBits() > 0 {
      sMax := Pow2(f.ValueBits());
      sMax := sMax - 1;
    }
    var rMin, sMin: nat := 0, 0;
    if !f.unsigned {
      rMin := base - 1;
      SmallestShifted(f.Width() - 1, f.ValueBits());
      sMin := Wrap(base, -(f.Half() as int) / Pow2(f.Width() - 1 - f.ValueBits()));
      Pow2Monotone(f.ValueBits(), f.Width() - 1);
      WrapOnce(base, -(Pow2(f.ValueBits()) as int));
    }
    assert sMax == f.Max();
    assert sMin == if f.unsigned then 0 else base + f.Min();
    assert f.Reading(rMin) == (if f.unsigned then 0 else -1) && f.Reading(0) == 0;
    hide FixedFormat.Reading, FixedFormat.Max, FixedFormat.Min, FixedFormat.Base;
    ghost var v := f.Wide(high, low);
    AgainstWords(base, f.Reading(high), low, 0, sMax);
    AgainstWords(base, f.Reading(high), low, f.Reading(rMin), sMin);
    LowestWords(base, sMin, sMax);
    h, l := high, low;
    if f.Reading(high) > 0 || (f.Reading(high) == 0 && low > sMax) {
      h, l := 0, sMax;
    } else if f.Reading(high) < f.Reading(rMin) || (f.Reading(high) == f.Reading(rMin) && low < sMin) {
      h, l := rMin, sMin;
    }
  }

  lemma AgainstWords(base: nat, h: int, l: nat, h': int, l': nat)
    requires l < base && l' < base
    ensures Pair(base, h, l) > Pair(base, h', l') <==> h > h' || (h == h' && l > l')
    ensures Pair(base, h, l) < Pair(base, h', l') <==> h < h' || (h == h' && l < l')
  {
    IntScaleStrictBoth(h, h', base);
  }

  lemma LowestWords(base: nat, sMin: int, sMax: int)
    ensures Pair(base, 0, sMax) == sMax && Pair(base, 0, sMin) == sMin && Pair(base, -1, sMin) == sMin - base
  {
  }

  // Storing a result.

  /** The low word of the result, its padding bits overwritten by shifting left and right again. */
  method Narrow(f: FixedFormat, low: nat, ghost x: int) returns (z: int)
    requires f.Valid() && low < f.Base() && Congruent(f.Base(), low, x)
    ensures f.IsNarrowed(x, z)
  {
    z := f.Reading(low);
    if f.PaddingBits() > 0 {
      var shifted := Wrap(f.Base(), Times(low, Pow2(f.PaddingBits())));
      z := f.Reading(shifted) / Pow2(f.PaddingBits());
      PaddingDropped(f, low);
    } else {
      CongruentReading(f, low);
    }
    Pow2Split(f.UsedBits(), f.Width());
    CongruentModDivisor(Pow2(f.UsedBits()), Pow2(f.PaddingBits()), low, x);
  }

  lemma CongruentReading(f: FixedFormat, low: nat)
    requires f.Valid() && low < f.Base() && f.PaddingBits() == 0
    ensures f.InRange(f.Reading(low)) && Congruent(f.Base(), f.Reading(low), low)
  {
    WrapOnce(f.Base(), f.Reading(low));
    WrapOnce(f.Base(), low);
  }

  lemma CongruentModDivisor(m: nat, k: nat, a: int, b: int)
    requires m > 0 && k > 0 && m * k > 0 && Congruent(m * k, a, b)
    ensures Congruent(m, a, b)
  {
    DivModFacts(a, m * k);
    DivModFacts(b, m * k);
    var c := a / (m * k) - b / (m * k);
    assert (a / (m * k)) * (m * k) - (b / (m * k)) * (m * k) == c * (m * k);
    assert c * (m * k) == (c * k) * m;
    ModDrop(b, c * k, m);
  }

  lemma PaddingDropped(f: FixedFormat, low: nat)
    requires f.Valid() && low < f.Base() && f.PaddingBits() > 0
    ensures var z := f.Reading(Wrap(f.Base(), Times(low, Pow2(f.PaddingBits())))) / Pow2(f.PaddingBits());
      f.InRange(z) && Congruent(Pow2(f.UsedBits()), z, low)
  {
    var n, p := Pow2(f.UsedBits()), Pow2(f.PaddingBits());
    Pow2Split(f.UsedBits(), f.Width());
    assert f.Base() == n * p;
    var k := Wrap(n, low);
    var j := Quotient(n, low);
    SplitWord(n, low);
    TopBits(n, p, low, j, k);
    CongruentWrap(n, low);
    if !f.unsigned {
      Pow2Split(f.ValueBits(), f.Width() - 1);
      assert f.Half() == Pow2(f.ValueBits()) * p;
      SignedTopBits(Pow2(f.ValueBits()), p, k);
      WrapOnce(n, Signed(Pow2(f.ValueBits()), k));
      WrapOnce(n, k);
    } else {
      DivModUnique(k * p, p, k, 0);
    }
  }

  lemma TopBits(n: nat, p: nat, low: nat, j: nat, k: nat)
    requires p > 0 && k < n && low == j * n + k && n * p > 0
    ensures Wrap(n * p, Times(low, p)) == k * p
  {
    assert (j * n + k) * p == j * (n * p) + k * p;
    IntScaleStrict(k, n, p);
    assert k * p >= 0;
    DivModUnique(low * p, n * p, j, k * p);
  }

  lemma SignedTopBits(v: nat, p: nat, k: nat)
    requires p > 0 && k < 2 * v
    ensures Signed(v * p, k * p) / p == Signed(v, k)
  {
    IntScale(k, v, p);
    assert (k - 2 * v) * p == k * p - 2 * (v * p);
    DivModUnique(Signed(v * p, k * p), p, Signed(v, k), 0);
  }
}
