/** Unsigned division of a double word by a word on a machine that only has the signed instruction
    (plugin-libc/libgcc/libgcc2.c: `__udiv_w_sdiv`), for words of any width `w` of at least two bits. */
module UnsignedFromSigned {
  import opened Powers
  import opened Words
  import opened WordDivision

  /** `sdiv_qrnnd`, where the source calls it: the operands are not negative when read as signed, and
      the quotient must fit in a signed word. */
  method DivideSigned(half: nat, n1: nat, n0: nat, d: nat) returns (q: nat, r: nat)
    requires n1 < half && n0 < 2 * half && 0 < d < half
    requires Pair(2 * half, n1, n0) < Times(half, d)
    ensures q < half && r < d && IsDivMod(Pair(2 * half, n1, n0), d, q, r)
  {
    PairNonNegative(2 * half, n1, n0);
    var n: nat := Pair(2 * half, n1, n0);
    q, r := Quotient(d, n), Wrap(d, n);
    SplitWord(d, n);
    IntScaleStrictBoth(q, half, d);
  }

  /** The top bit of a word. */
  lemma TopBit(w: nat, x: nat)
    requires w >= 1 && x < Pow2(w)
    ensures Shr(x, w - 1) == if x >= Pow2(w - 1) then 1 else 0
  {
    DivModUnique(x, Pow2(w - 1), if x >= Pow2(w - 1) then 1 else 0, if x >= Pow2(w - 1) then x - Pow2(w - 1) else x);
  }

  /** Shifting left by one bit less than the width keeps only the lowest bit. */
  lemma ShiftToTop(half: nat, x: nat)
    requires half > 0
    ensures Wrap(2 * half, Times(x, half)) == if x % 2 == 1 then half else 0
    ensures Pair(2 * half, x / 2, Wrap(2 * half, Times(x, half))) == Times(half, x)
  {
    var y := if x % 2 == 1 then half else 0;
    var k := x / 2;
    assert x == 2 * k + x % 2;
    assert Times(x, half) == k * (2 * half) + y by {
      assert (2 * k) * half == k * (2 * half);
      assert (2 * k + 1) * half == (2 * k) * half + half;
    }
    DivModUnique(Times(x, half), 2 * half, k, y);
  }

  /** The source's test for a quotient without its top bit. */
  lemma QuotientBelowHalf(half: nat, a1: nat, a0: nat, d: nat)
    requires half > 0 && a0 < 2 * half
    ensures var bit := if a0 >= half then 1 else 0;
      Pair(2 * half, a1, a0) < Times(half, d) <==> 2 * a1 + bit < d
  {
    var bit := if a0 >= half then 1 else 0;
    assert a1 * (2 * half) == 2 * a1 * half;
    assert (2 * a1 + bit) * half == 2 * a1 * half + bit * half;
    assert half * d == d * half;
    IntScaleStrictBoth(2 * a1 + bit, d, half);
  }

  /** Half of the dividend, and the bit lost. */
  lemma HalvedDividend(half: nat, a1: nat, a0: nat)
    requires half > 0 && a0 < 2 * half
    ensures var c0 := (if a1 % 2 == 1 then half else 0) + a0 / 2;
      c0 < 2 * half && 2 * Pair(2 * half, a1 / 2, c0) + a0 % 2 == Pair(2 * half, a1, a0)
  {
    var k := a1 / 2;
    assert a1 == 2 * k + a1 % 2;
    assert (2 * k) * (2 * half) == 2 * (k * (2 * half));
    assert (2 * k + 1) * (2 * half) == (2 * k) * (2 * half) + 2 * half;
  }

  /** Bounds on a dividend from its high word, against half-words times `b`. */
  lemma HighWordBounds(half: nat, a1: nat, a0: nat, b: nat)
    requires half > 0 && a0 < 2 * half
    ensures a1 < b <==> Pair(2 * half, a1, a0) < 2 * Times(half, b)
  {
    IntScaleStrictBoth(a1, b, 2 * half);
    assert b * (2 * half) == 2 * (half * b);
  }

  /** The complement of a double word below `b * 2 * half`. */
  lemma Complement(half: nat, c1: nat, c0: nat, b: nat)
    requires c1 < b && c0 < 2 * half
    ensures Pair(2 * half, b - 1 - c1, 2 * half - 1 - c0) == 2 * Times(half, b) - 1 - Pair(2 * half, c1, c0)
  {
    assert (b - 1 - c1) * (2 * half) == b * (2 * half) - 2 * half - c1 * (2 * half);
    assert b * (2 * half) == 2 * (half * b);
  }

  /** Undoing the complement: the quotient and the remainder are complemented in turn. */
  lemma ComplementDivMod(half: nat, c: int, b: nat, q: nat, r: nat)
    requires IsDivMod(2 * Times(half, b) - 1 - c, b, q, r)
    ensures IsDivMod(c, b, 2 * half - 1 - q, b - 1 - r)
  {
    assert (2 * half - 1 - q) * b == 2 * (half * b) - b - q * b;
  }

  /** Doubling a division and adding back the bit lost. */
  lemma DoubledDivMod(c: int, b: nat, q: nat, r: nat, bit: nat)
    requires IsDivMod(c, b, q, r) && bit <= 1
    ensures IsDivMod(2 * c + bit, 2 * b, q, 2 * r + bit)
  {
    assert q * (2 * b) == 2 * (q * b);
  }

  /** Going from the divisor `d` to `d + 1` with the quotient reduced by `k`. */
  lemma NextDivisor(n: int, d: nat, q: nat, r: nat, k: nat)
    requires IsDivMod(n, d, q, r) && (k == 0 || k == 1 || k == 2)
    requires 0 <= r - q + k * (d + 1) < d + 1
    ensures IsDivMod(n, d + 1, q - k, r - q + k * (d + 1))
  {
    assert (q - k) * (d + 1) == q * d + q - k * (d + 1);
  }

  lemma AddHalf(half: nat, n: int, d: nat, q: nat, r: nat)
    requires IsDivMod(n - Times(half, d), d, q, r)
    ensures IsDivMod(n, d, q + half, r)
  {
    assert (q + half) * d == q * d + half * d;
  }

  /** The dividend is so close to `d * base` that the quotient is one of the two largest words. */
  lemma LargestQuotient(base: nat, a0: nat, d: nat)
    requires a0 < base && d < base <= 2 * d
    ensures a0 >= base - d ==> IsDivMod(Pair(base, d - 1, a0), d, base - 1, a0 + d - base)
    ensures a0 < base - d ==> IsDivMod(Pair(base, d - 1, a0), d, base - 2, a0 + 2 * d - base)
  {
    assert (d - 1) * base == d * base - base;
    assert (base - 1) * d == d * base - d;
    assert (base - 2) * d == d * base - 2 * d;
  }

  /** The divisor has its top bit clear. */
  method SmallDivisor(w: nat, a1: nat, a0: nat, d: nat) returns (q: nat, r: nat)
    requires w >= 2 && a1 < d < Pow2(w - 1) && a0 < Pow2(w)
    ensures q < Pow2(w) && IsDivMod(Pair(Pow2(w), a1, a0), d, q, r)
  {
    var base, half := Pow2(w), Pow2(w - 1);
    assert base == 2 * half;
    TopBit(w, a0);
    QuotientBelowHalf(half, a1, a0, d);
    hide Pow2, Pair, Wrap, Times, Shr, IsDivMod;
    if a1 < d - a1 - Shr(a0, w - 1) {
      q, r := DivideSigned(half, a1, a0, d);
    } else {
      HighWordBounds(half, a1, a0, d);
      ShiftToTop(half, d);
      PairIsWord(base, a1, a0);
      TimesNonNegative(half, d);
      var c1, c0 := SubtractPairs(base, a1, a0, d / 2, Wrap(base, Times(d, half)));
      WrapOnce(Times(base, base), Pair(base, a1, a0) - Times(half, d));
      HighWordBelow(half, c1, c0, d);
      q, r := DivideSigned(half, c1, c0, d);
      AddHalf(half, Pair(base, a1, a0), d, q, r);
      q := q + half;
    }
  }

  lemma HighWordBelow(half: nat, c1: nat, c0: nat, d: nat)
    requires d < half && Pair(2 * half, c1, c0) < Times(half, d)
    ensures c1 < half
  {
    HighWordBounds(half, c1, 0, half);
    ProductBound(half, d, half + 1, half);
    IntScaleStrictBoth(d, half, half);
    assert half * d == d * half;
  }

  /** The quotient by `b1 = d >> 1` turned into the quotient by `d`: an odd `d` may lower it by one or
      two. */
  method FixOddDivisor(base: nat, d: nat, q0: nat, r0: nat, ghost n: int) returns (q: nat, r: nat)
    requires d < base <= 2 * d && q0 < base
    requires IsDivMod(n, 2 * (d / 2), q0, r0)
    ensures q < base && IsDivMod(n, d, q, r)
  {
    q, r := q0, r0;
    assert r < 2 * (d / 2);
    if d % 2 != 0 {
      assert d == 2 * (d / 2) + 1;
      hide IsDivMod, Wrap;
      if r >= q {
        WrapOnce(base, r - q);
        NextDivisor(n, d - 1, q, r, 0);
        r := Wrap(base, r - q);
      } else if q - r <= d {
        WrapOnce(base, r - q + d);
        NextDivisor(n, d - 1, q, r, 1);
        r := Wrap(base, r - q + d);
        q := q - 1;
      } else {
        WrapOnce(base, r - q + 2 * d);
        NextDivisor(n, d - 1, q, r, 2);
        r := Wrap(base, r - q + 2 * d);
        q := q - 2;
      }
    }
  }

  /** The divisor has its top bit set. */
  method LargeDivisor(w: nat, a1: nat, a0: nat, d: nat) returns (q: nat, r: nat)
    requires w >= 2 && Pow2(w - 1) <= d && a1 < d < Pow2(w) && a0 < Pow2(w)
    ensures q < Pow2(w) && IsDivMod(Pair(Pow2(w), a1, a0), d, q, r)
  {
    hide Pow2, Pair, Wrap, Times, IsDivMod;
    var base, half := Pow2(w), Pow2(w - 1);
    Pow2Halves(w);
    Pow2Halves(w - 1);
    ghost var n := Pair(base, a1, a0);
    var b1, c1 := d / 2, a1 / 2;
    ShiftToTop(half, a1);
    HalvedDividend(half, a1, a0);
    var c0 := Wrap(base, Times(a1, half)) + a0 / 2;
    HighWordBounds(half, a1, a0, b1);
    ghost var c := Pair(base, c1, c0);
    if a1 < b1 {
      q, r := DivideSigned(half, c1, c0, b1);
      DoubledDivMod(c, b1, q, r, a0 % 2);
      q, r := FixOddDivisor(base, d, q, 2 * r + a0 % 2, n);
    } else if c1 < b1 {
      Complement(half, c1, c0, b1);
      c1, c0 := b1 - 1 - c1, base - 1 - c0;
      q, r := DivideSigned(half, c1, c0, b1);
      ComplementDivMod(half, c, b1, q, r);
      q, r := base - 1 - q, b1 - 1 - r;
      DoubledDivMod(c, b1, q, r, a0 % 2);
      q, r := FixOddDivisor(base, d, q, 2 * r + a0 % 2, n);
    } else {
      assert c1 == b1 && a1 == d - 1 == 2 * b1;
      LargestQuotient(base, a0, d);
      if a0 >= base - d {
        WrapOnce(base, a0 + d);
        q, r := base - 1, Wrap(base, a0 + d);
      } else {
        WrapOnce(base, a0 + 2 * d);
        q, r := base - 2, Wrap(base, a0 + 2 * d);
      }
    }
  }

  /** The source's `__udiv_w_sdiv`. */
  method UdivWithSdiv(w: nat, a1: nat, a0: nat, d: nat) returns (q: nat, r: nat)
    requires w >= 2 && a1 < d < Pow2(w) && a0 < Pow2(w)
    ensures q < Pow2(w) && IsDivMod(Pair(Pow2(w), a1, a0), d, q, r)
  {
    if d < Pow2(w - 1) {
      q, r := SmallDivisor(w, a1, a0, d);
    } else {
      q, r := LargeDivisor(w, a1, a0, d);
    }
  }
}
