/** Fixed-point multiplication by either of the source's paths (plugin-libc/libgcc/fixed-bit.c:
    FIXED_MULHELPER). */
module FixedMultiply {
  import opened Powers
  import opened Words
  import opened WordDivision
  import opened CheckedMultiply
  import opened FixedPoint

  /** The product scaled back to the format, halves rounded up. */
  function Rounded(f: FixedFormat, x: int, y: int): int
    requires f.Valid()
  {
    (x * y + Pow2(f.fracBits - 1)) / Pow2(f.fracBits)
  }

  /** The path with an integer type of twice the width. */
  method MultiplyWide(f: FixedFormat, x: int, y: int, saturate: bool) returns (z: int)
    requires f.Valid() && f.IsInteger(x) && f.IsInteger(y)
    ensures f.IsStored(Rounded(f, x, y), saturate, z)
  {
    var dz := x * y;
    dz := dz + Pow2(f.fracBits - 1);
    dz := dz / Pow2(f.fracBits);
    if saturate {
      dz := Saturate1(f, dz);
    }
    CongruentWrap(f.Base(), dz);
    z := Narrow(f, Wrap(f.Base(), dz), dz);
  }

  /** Addition of words with the source's test for a carry. */
  method AddCarry(base: nat, a: nat, b: nat) returns (s: nat, carry: nat)
    requires a < base && b < base
    ensures s < base && carry <= 1 && a + b == carry * base + s
  {
    WrapOnce(base, a + b);
    s := Wrap(base, a + b);
    carry := if s < a || s < b then 1 else 0;
  }

  /** The four half-word products, accumulated in two words: the exact product of the operands' words. */
  method AccumulateProduct(c: nat, x: nat, y: nat) returns (r: nat, s: nat)
    requires c > 0 && x < c * c && y < c * c
    ensures r < c * c && s < c * c && Pair(c * c, r, s) == Times(x, y)
  {
    var aHigh, aLow := Quotient(c, x), Wrap(c, x);
    var bHigh, bLow := Quotient(c, y), Wrap(c, y);
    SplitWord(c, x);
    SplitWord(c, y);
    PairBound(c, aHigh, aLow);
    PairBound(c, bHigh, bLow);
    HalfProduct(c, aLow, bLow);
    HalfProduct(c, aLow, bHigh);
    HalfProduct(c, aHigh, bLow);
    HalfProduct(c, aHigh, bHigh);
    var lowLow, lowHigh, highLow, highHigh := aLow * bLow, aLow * bHigh, aHigh * bLow, aHigh * bHigh;
    ExpandHalves(c, aHigh, aLow, bHigh, bLow);
    ProductBound(x, y, c * c, c * c);
    ghost var total := Times(x, y);
    r, s := AccumulateHalves(c, lowLow, lowHigh, highLow, highHigh, total);
  }

  lemma HalfProduct(c: nat, x: nat, y: nat)
    requires x < c && y < c
    ensures 0 <= x * y < c * c
  {
    ProductBound(x, y, c, c);
  }

  lemma ExpandHalves(c: nat, ah: nat, al: nat, bh: nat, bl: nat)
    ensures Times(ah * c + al, bh * c + bl) == Times(ah * bh, c * c) + Times(ah * bl + al * bh, c) + al * bl
  {
    assert (ah * c + al) * (bh * c + bl) == ah * c * (bh * c) + ah * c * bl + al * (bh * c) + al * bl;
    assert ah * c * (bh * c) == ah * bh * (c * c);
    assert ah * c * bl == ah * bl * c && al * (bh * c) == al * bh * c;
    assert (ah * bl + al * bh) * c == ah * bl * c + al * bh * c;
  }

  method AccumulateHalves(c: nat, lowLow: nat, lowHigh: nat, highLow: nat, highHigh: nat, ghost total: int)
      returns (r: nat, s: nat)
    requires c > 0 && lowLow < c * c && lowHigh < c * c && highLow < c * c && highHigh < c * c
    requires total == Times(highHigh, c * c) + Times(highLow + lowHigh, c) + lowLow
    requires 0 <= total < c * c * (c * c)
    ensures r < c * c && s < c * c && Pair(c * c, r, s) == total
  {
    hide Pair, Times, Wrap, Quotient;
    ShiftedHalf(c, highLow);
    ShiftedHalf(c, lowHigh);
    var temp1: nat := Times(Wrap(c, highLow), c);
    var temp2: nat := Times(Wrap(c, lowHigh), c);
    SumOfProducts(c, lowLow, lowHigh, highLow, highHigh, total);
    r, s := AccumulateWords(c * c, lowLow, temp1, temp2, highHigh, Quotient(c, highLow), Quotient(c, lowHigh), total);
  }

  /** The low words summed with their carries, and the high word from the high halves. */
  method AccumulateWords(base: nat, lowLow: nat, temp1: nat, temp2: nat, highHigh: nat, p: nat, q: nat, ghost total: int)
      returns (r: nat, s: nat)
    requires lowLow < base && temp1 < base && temp2 < base && highHigh < base && p < base && q < base
    requires total == Pair(base, highHigh + p + q, lowLow + temp1 + temp2) && total < base * base
    ensures r < base && s < base && Pair(base, r, s) == total
  {
    hide Pair, Wrap;
    var carry1, carry2;
    s, carry1 := AddCarry(base, lowLow, temp1);
    s, carry2 := AddCarry(base, s, temp2);
    var carry := carry1 + carry2;
    CarriesMoved(base, highHigh + p + q, lowLow + temp1 + temp2, carry1, carry2, s);
    HighWordFitsBase(base, highHigh + p + q + carry, s);
    WrapOnce(base, highHigh + p);
    r := Wrap(base, highHigh + p);
    WrapOnce(base, r + q + carry);
    r := Wrap(base, r + q + carry);
  }

  lemma CarriesMoved(base: nat, h: nat, l: nat, carry1: nat, carry2: nat, s: nat)
    requires l == carry1 * base + (carry2 * base + s)
    ensures Pair(base, h, l) == Pair(base, h + (carry1 + carry2), s)
  {
    assert (h + (carry1 + carry2)) * base == h * base + carry1 * base + carry2 * base;
  }

  lemma ShiftedHalf(c: nat, x: nat)
    requires c > 0 && x < c * c
    ensures 0 <= Times(Wrap(c, x), c) < c * c && Quotient(c, x) < c
    ensures Times(x, c) == Times(Quotient(c, x), c * c) + Times(Wrap(c, x), c)
  {
    SplitWord(c, x);
    IntScaleStrictBoth(Wrap(c, x), c, c);
    IntScaleStrictBoth(Quotient(c, x), c, c);
    assert (Quotient(c, x) * c + Wrap(c, x)) * c == Quotient(c, x) * (c * c) + Wrap(c, x) * c;
  }

  lemma SumOfProducts(c: nat, lowLow: nat, lowHigh: nat, highLow: nat, highHigh: nat, total: int)
    requires c > 0 && lowHigh < c * c && highLow < c * c
    requires total == Times(highHigh, c * c) + Times(highLow + lowHigh, c) + lowLow
    ensures total == Pair(c * c, highHigh + Quotient(c, highLow) + Quotient(c, lowHigh),
                          lowLow + Times(Wrap(c, highLow), c) + Times(Wrap(c, lowHigh), c))
  {
    hide Wrap, Quotient, Times, Pair;
    ShiftedHalf(c, highLow);
    ShiftedHalf(c, lowHigh);
    TimesSum(highLow, lowHigh, c);
    PairOfSum(c * c, highHigh, Quotient(c, highLow), Quotient(c, lowHigh),
              lowLow + Times(Wrap(c, highLow), c) + Times(Wrap(c, lowHigh), c));
  }

  lemma TimesSum(x: int, y: int, c: int)
    ensures Times(x + y, c) == Times(x, c) + Times(y, c)
  {
  }

  lemma PairOfSum(base: nat, h: int, p: int, q: int, l: int)
    ensures Pair(base, h + p + q, l) == Times(h, base) + Times(p, base) + Times(q, base) + l
  {
    assert (h + p + q) * base == h * base + p * base + q * base;
  }

  lemma HighWordFitsBase(base: nat, h: nat, l: nat)
    requires base > 0 && Pair(base, h, l) < base * base
    ensures h < base
  {
    IntScaleStrictBoth(h, base, base);
  }

  /** The source's correction of the high word for negative operands. */
  method FixSigns(f: FixedFormat, x: int, y: int, r0: nat, s: nat) returns (r: nat)
    requires f.Valid() && f.IsInteger(x) && f.IsInteger(y) && r0 < f.Base()
    requires Pair(f.Base(), r0, s) == Times(Wrap(f.Base(), x), Wrap(f.Base(), y))
    ensures r < f.Base() && Times(f.Base(), f.Base()) > 0
    ensures Congruent(Times(f.Base(), f.Base()), Pair(f.Base(), r, s), Times(x, y))
  {
    r := r0;
    var base := f.Base();
    var xw, yw := Wrap(base, x), Wrap(base, y);
    ReadingOfWord(f, x);
    ReadingOfWord(f, y);
    hide Times, Pair, Wrap, Congruent, FixedFormat.IsInteger, FixedFormat.Base, FixedFormat.Reading;
    SignedProduct(base, x, y, xw, yw);
    HighMinus(base, r, s, yw);
    assert Congruent(Times(base, base), Pair(base, r, s), Times(xw, yw)) by {
      CongruentSelf(Times(base, base), Times(xw, yw));
    }
    WrapMinusWord(base, r, y);
    if x < 0 {
      r := Wrap(base, r - y);
    }
    ghost var p := Pair(base, r, s);
    HighMinus(base, r, s, xw);
    WrapMinusWord(base, r, x);
    if y < 0 {
      CongruentMinus(Times(base, base), p, Times(xw, yw) - (if x < 0 then Times(yw, base) else 0), Times(xw, base));
      r := Wrap(base, r - x);
      CongruentStep(Times(base, base), Pair(base, r, s), p - Times(xw, base),
                    Times(xw, yw) - (if x < 0 then Times(yw, base) else 0) - Times(xw, base));
    }
    CongruentStep(Times(base, base), Pair(base, r, s),
                  Times(xw, yw) - (if x < 0 then Times(yw, base) else 0) - (if y < 0 then Times(xw, base) else 0), Times(x, y));
  }

  lemma CongruentStep(m: nat, a: int, b: int, c: int)
    requires m > 0 && Congruent(m, a, b) && Congruent(m, b, c)
    ensures Congruent(m, a, c)
  {
  }

  lemma WrapMinusWord(base: nat, r: int, y: int)
    requires base > 0
    ensures Wrap(base, r - y) == Wrap(base, r - Wrap(base, y))
  {
    DivModFacts(y, base);
    ModDrop(r - y, y / base, base);
  }

  lemma SignedProduct(base: nat, x: int, y: int, xw: nat, yw: nat)
    requires base > 0 && xw == (if x < 0 then x + base else x) && yw == (if y < 0 then y + base else y)
    ensures Times(base, base) > 0
    ensures Congruent(Times(base, base),
                      Times(xw, yw) - (if x < 0 then Times(yw, base) else 0) - (if y < 0 then Times(xw, base) else 0),
                      Times(x, y))
  {
    MulAtLeast(base, base, 1);
    var m := Times(base, base);
    hide Times, Congruent;
    if x < 0 && y < 0 {
      NegativesExpanded(base, xw, yw);
      WholeTurn(m, Times(x, y) - m);
    } else if x < 0 {
      DropBase(xw, base, yw);
      CongruentSelf(m, Times(x, y));
    } else if y < 0 {
      DropBase(yw, base, xw);
      TimesCommutes(xw, yw);
      TimesCommutes(x, y);
      CongruentSelf(m, Times(x, y));
    } else {
      CongruentSelf(m, Times(x, y));
    }
  }

  /** A double word congruent to a number in the range of the format's double words reads as that number. */
  lemma ReadingIsExact(f: FixedFormat, h: nat, l: nat, v: int)
    requires f.Valid() && h < f.Base() && l < f.Base() && Times(f.Base(), f.Base()) > 0
    requires Congruent(Times(f.Base(), f.Base()), Pair(f.Base(), h, l), v)
    requires if f.unsigned then 0 <= v < Times(f.Base(), f.Base())
             else -2 * Times(f.Half(), f.Half()) <= v < 2 * Times(f.Half(), f.Half())
    ensures f.Wide(h, l) == v
  {
    hide Times, Pair, Wrap, Pow2;
    if f.unsigned {
      PairIsWord(f.Base(), h, l);
      WrapOnce(Times(f.Base(), f.Base()), v);
      WrapOnce(Times(f.Base(), f.Base()), Pair(f.Base(), h, l));
    } else {
      WordsOfCongruent(f.Half(), h, l, v);
    }
  }

  /** The product and the rounding increment stay in range. */
  lemma RoundedInRange(f: FixedFormat, x: int, y: int, bit: nat)
    requires f.Valid() && f.IsInteger(x) && f.IsInteger(y) && bit < f.Base() && (!f.unsigned ==> bit <= f.Half() / 2 || bit == 1)
    ensures var v := Times(x, y) + bit;
      if f.unsigned then 0 <= v < Times(f.Base(), f.Base())
      else -2 * Times(f.Half(), f.Half()) <= v < 2 * Times(f.Half(), f.Half())
  {
    hide Pow2, Times;
    if f.unsigned {
      UnsignedInRange(f.Base(), x, y, bit);
    } else {
      assert f.Half() >= 2 by { Pow2Halves(f.Width() - 1); }
      SignedInRange(f.Half(), x, y, bit);
    }
  }

  lemma UnsignedInRange(base: nat, x: nat, y: nat, bit: nat)
    requires x < base && y < base && bit < base
    ensures 0 <= Times(x, y) + bit < Times(base, base)
  {
    MulAtMost2(x, base - 1, y, base - 1);
    assert (base - 1) * (base - 1) == base * base - 2 * base + 1;
    assert x * y >= 0;
  }

  lemma SignedInRange(half: nat, x: int, y: int, bit: nat)
    requires half >= 2 && -(half as int) <= x < half && -(half as int) <= y < half && (bit <= half / 2 || bit == 1)
    ensures -2 * Times(half, half) <= Times(x, y) + bit < 2 * Times(half, half)
  {
    ProductMagnitude(x, y, half, half);
    MulAtLeast(half, half, 2);
  }

  /** Adding the rounding bit with the source's carry test. */
  method AddRounding(base: nat, r0: nat, s0: nat, bit: nat) returns (r: nat, s: nat)
    requires r0 < base && s0 < base && bit < base
    ensures r < base && s < base && Times(base, base) > 0
    ensures Congruent(Times(base, base), Pair(base, r, s), Pair(base, r0, s0) + bit)
  {
    var carry;
    s, carry := AddCarry(base, s0, bit);
    WrapOnce(base, r0 + carry);
    r := Wrap(base, r0 + carry);
    CarriedPair(base, r0, s0, bit, carry, r, s);
  }

  lemma CarriedPair(base: nat, r0: nat, s0: nat, bit: nat, carry: nat, r: nat, s: nat)
    requires base > 0 && carry <= 1 && s0 + bit == carry * base + s
    requires r == if r0 + carry == base then 0 else r0 + carry
    ensures Times(base, base) > 0
    ensures Congruent(Times(base, base), Pair(base, r, s), Pair(base, r0, s0) + bit)
  {
    assert (r0 + carry) * base == r0 * base + carry * base;
    MulAtLeast(base, base, 1);
    ModDrop(Pair(base, r, s), if r0 + carry == base then 1 else 0, base * base);
  }

  /** Shifting the double word right by FBITS; the two parts of the low word have no bit in common, so their
      disjunction is their sum. */
  method ShiftDown(f: FixedFormat, r0: nat, s0: nat) returns (r: nat, s: nat)
    requires f.Valid() && r0 < f.Base() && s0 < f.Base()
    ensures r < f.Base() && s < f.Base()
    ensures f.Wide(r, s) == f.Wide(r0, s0) / Pow2(f.fracBits)
  {
    var base := f.Base();
    var k := f.fracBits;
    if k == f.Width() {
      assert f.unsigned;
      DivModUnique(Pair(base, r0, s0), base, r0, s0);
      PairZero(base, r0);
      r, s := 0, r0;
    } else {
      var up := Pow2(f.Width() - k);
      Pow2Split(k, f.Width());
      ShiftedParts(base, Pow2(k), up, f.Reading(r0), r0, s0);
      ShiftedReading(f, r0);
      s := Shr(s0, k);
      s := s + Wrap(base, Times(r0, up));
      r := Wrap(base, f.Reading(r0) / Pow2(k));
    }
  }

  lemma ShiftedReading(f: FixedFormat, r0: nat)
    requires f.Valid() && r0 < f.Base() && f.fracBits < f.Width()
    ensures f.Reading(Wrap(f.Base(), f.Reading(r0) / Pow2(f.fracBits))) == f.Reading(r0) / Pow2(f.fracBits)
  {
    var v, p := f.Reading(r0), Pow2(f.fracBits);
    DivModFacts(v, p);
    QuotientShrinks(v, p, v / p);
    ReadingOfWord(f, v / p);
  }

  lemma QuotientShrinks(v: int, p: nat, q: int)
    requires p > 0 && q * p <= v < q * p + p
    ensures if v >= 0 then 0 <= q <= v else v <= q < 0
  {
    if v >= 0 {
      IntScaleStrictBoth(q, -1, p);
      MulAtLeast(q, p, 1);
    } else {
      IntScaleStrictBoth(q, 0, p);
      var a: nat := -q;
      assert (a - 1) * p == -(q * p + p);
      MulAtLeast(a - 1, p, 1);
    }
  }

  lemma ShiftedParts(base: nat, p: nat, up: nat, v: int, r0: nat, s0: nat)
    requires p > 0 && up > 0 && base == up * p && s0 < base && r0 < base && (v == r0 || v == r0 - base)
    ensures s0 / p + Wrap(base, Times(r0, up)) < base
    ensures Pair(base, v, s0) / p == Pair(base, v / p, s0 / p + Wrap(base, Times(r0, up)))
  {
    DivModFacts(v, p);
    DivModFacts(s0, p);
    var h, t := v / p, v % p;
    var l, b := s0 / p, s0 % p;
    hide Pair;
    IntScaleStrictBoth(l, up, p);
    IntScaleStrictBoth(t, p, up);
    assert p * up == base;
    PartsOfWord(base, p, up, v, r0, h, t);
    WholeShift(base, p, up, v, s0, h, t, l, b);
    DivModUnique(Pair(base, v, s0), p, Pair(base, h, l + t * up), b);
  }

  lemma PartsOfWord(base: nat, p: nat, up: nat, v: int, r0: nat, h: int, t: nat)
    requires p > 0 && up > 0 && base == up * p && v == h * p + t && t * up < base && (v == r0 || v == r0 - base)
    ensures Wrap(base, Times(r0, up)) == t * up
  {
    var k := if v == r0 then h else h + up;
    assert (h + up) * p == h * p + base;
    assert (k * p + t) * up == k * (up * p) + t * up;
    assert t * up >= 0;
    DivModUnique(r0 * up, base, k, t * up);
  }

  lemma WholeShift(base: nat, p: nat, up: nat, v: int, s0: nat, h: int, t: nat, l: nat, b: nat)
    requires base == up * p && v == h * p + t && s0 == l * p + b
    ensures Pair(base, v, s0) == Pair(base, h, l + t * up) * p + b
  {
    assert v * base == h * p * base + t * base by {
      assert (h * p + t) * base == h * p * base + t * base;
    }
    assert (h * base + (l + t * up)) * p == h * base * p + l * p + t * up * p;
    assert h * p * base == h * base * p && t * up * p == t * base;
  }

  /** The path built from half-words. */
  method MultiplyNarrow(f: FixedFormat, x: int, y: int, saturate: bool) returns (z: int)
    requires f.Valid() && f.IsInteger(x) && f.IsInteger(y)
    ensures f.IsStored(Rounded(f, x, y), saturate, z)
  {
    var c, base := Pow2(f.halfWidth), f.Base();
    Pow2Add(f.halfWidth, f.halfWidth);
    assert base == c * c by { assert f.halfWidth + f.halfWidth == f.Width(); }
    var r, s := AccumulateProduct(c, Wrap(base, x), Wrap(base, y));
    r := FixSigns(f, x, y, r, s);
    RoundingBit(f);
    var bit := Pow2(f.fracBits - 1);
    ghost var p := Pair(base, r, s);
    r, s := AddRounding(base, r, s, bit);
    ghost var v := Times(x, y) + bit;
    AddCongruent(Times(base, base), p, Times(x, y), bit, Pair(base, r, s));
    RoundedInRange(f, x, y, bit);
    ReadingIsExact(f, r, s, v);
    r, s := ShiftDown(f, r, s);
    ghost var t := Rounded(f, x, y);
    assert f.Wide(r, s) == t;
    if saturate {
      r, s := Saturate2(f, r, s);
    }
    LowWordCongruent(f, r, s);
    z := Narrow(f, s, f.Wide(r, s));
  }

  lemma RoundingBit(f: FixedFormat)
    requires f.Valid()
    ensures var bit := Pow2(f.fracBits - 1);
      bit < f.Base() && (!f.unsigned ==> bit <= f.Half() / 2 || bit == 1)
  {
    Pow2Monotone(f.fracBits - 1, f.Width());
    if !f.unsigned && f.fracBits >= 1 {
      Pow2Monotone(f.fracBits, f.Width() - 1);
      assert Pow2(f.fracBits) == 2 * Pow2(f.fracBits - 1);
    }
  }

  lemma LowWordCongruent(f: FixedFormat, h: nat, l: nat)
    requires f.Valid() && l < f.Base()
    ensures Congruent(f.Base(), l, f.Wide(h, l))
  {
    ModDrop(l, f.Reading(h), f.Base());
  }
}
