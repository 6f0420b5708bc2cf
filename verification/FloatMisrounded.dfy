/** Subnormal products and quotients of single-precision operands that the source rounds wrongly
    (plugin-libc/libgcc/fp-bit.c), by one unit down or up. */
module FloatMisrounded {
  import opened Powers
  import opened Ieee754
  import opened Rounding
  import opened SoftFloat
  import opened FloatTail
  import opened FloatMulDiv
  import FloatSubnormal

  lemma SmallPowers()
    ensures Pow2(6) == 64 && Pow2(7) == 128 && Pow2(8) == 256 && Pow2(9) == 512
    ensures Pow2(17) == 0x2_0000 && Pow2(22) == 0x40_0000 && Pow2(23) == 0x80_0000 && Pow2(24) == 0x100_0000
    ensures Pow2(30) == 0x4000_0000 && Pow2(31) == 0x8000_0000 && Pow2(32) == 0x1_0000_0000
  {
    assert Pow2(6) == 64 && Pow2(7) == 128 && Pow2(8) == 256 && Pow2(9) == 512;
    hide Pow2;
    Pow2Add(9, 8);
    Pow2Add(8, 8);
    Pow2Add(16, 6);
    Pow2Add(16, 7);
    Pow2Add(16, 8);
    Pow2Add(24, 6);
    Pow2Add(24, 7);
    Pow2Add(24, 8);
  }

  lemma SingleConstants()
    ensures SINGLE.Valid() && SINGLE.ExpMin() == -126 && SINGLE.UnitExp() == -149
    ensures Pow2(23) == 0x80_0000 && Pow2(30) == 0x4000_0000 && Pow2(31) == 0x8000_0000 && Pow2(32) == 0x1_0000_0000
    ensures SINGLE.Infinity() == 0x7f80_0000
  {
    hide Pow2;
    SmallPowers();
  }

  /** The value of a positive normal single. */
  lemma SingleValue(bits: nat, e: nat, q: nat)
    requires 0x80_0000 <= q < 0x100_0000 && e < 254 && bits == e * 0x80_0000 + q
    ensures Encoding(SINGLE, bits) && IsFinite(SINGLE, bits) && !IsZero(SINGLE, bits) && SignBit(SINGLE, bits) == 0
    ensures SINGLE.Valid() && Value(SINGLE, bits) == Ldexp(q as real, e - 149)
  {
    SingleConstants();
    DivModUnique(bits, Pow2(31), 0, bits);
    MagnitudeOf(SINGLE, e, q);
  }

  /** What becomes of a subnormal result with the integer part `h` and more bits behind it, where `q` is the nearest
      magnitude. */
  lemma PinnedDown(x: real, m: nat, e: int, t: real, h: nat, q: nat)
    requires SINGLE.Valid() && TailRounded(SINGLE, x, m) && NormalForm(SINGLE, x, e, t) && e < -126
    requires t.Floor == h && t != h as real && NearestUnits(t, Pow2(-119 - e), q)
    ensures MagnitudeRounds(SINGLE, x, q) && m == q + Misrounding(SINGLE, -126 - e, h, true)
  {
    hide Pow2, MagnitudeRounds, NearestUnits, Misrounding, FractionValue, TailRounded;
    SingleConstants();
    SubnormalResult(SINGLE, x, m, e, t);
    PackedSubnormal(SINGLE, e, t, q);
    RoundingIsUnique(SINGLE, x, q, m - Misrounding(SINGLE, -126 - e, h, true));
  }

  /** The product of two positive normal singles below two, in guard units: `h` and more behind it. */
  lemma SingleProduct(a: nat, ea: nat, qa: nat, b: nat, eb: nat, qb: nat, h: nat)
    requires 0x80_0000 <= qa < 0x100_0000 && 0x80_0000 <= qb < 0x100_0000 && ea < 254 && eb < 254
    requires a == ea * 0x80_0000 + qa && b == eb * 0x80_0000 + qb
    requires 0x4000_0000 <= h < 0x8000_0000 && h * Pow2(17) < qa * qb < (h + 1) * Pow2(17)
    ensures SINGLE.Valid()
    ensures var t := Ldexp((qa * qb) as real, -17);
      && NormalForm(SINGLE, Abs(RealProduct(SINGLE, a, b)), ea + eb - 251, t)
      && h as real < t < (h + 1) as real && t.Floor == h
  {
    hide Ldexp, Value, Pow2;
    SingleConstants();
    SingleValue(a, ea, qa);
    SingleValue(b, eb, qb);
    var p := qa * qb;
    LdexpProduct(qa as real, ea - 149, qb as real, eb - 149);
    assert RealTimes(qa as real, qb as real) == p as real;
    CutPoint(p, 17, h);
    LdexpZero(ea + eb - 298);
    LdexpOrder(0.0, p as real, ea + eb - 298);
    LdexpAdd(p as real, -17, ea + eb - 281);
  }

  /** A product that comes out one unit too low: just above half of the least subnormal, the code returns zero. */
  lemma SubnormalProductMisrounds(r: nat)
    requires SINGLE.Valid() && IsProduct(SINGLE, 0x1a00_0800, 0x19ff_f001, r)
    ensures Magnitude(SINGLE, r) == 0
    ensures MagnitudeRounds(SINGLE, Abs(RealProduct(SINGLE, 0x1a00_0800, 0x19ff_f001)), 1)
  {
    hide Ldexp, Value, IsProduct, IsFinite, IsZero, Magnitude, Misrounding, Pow2, NormalForm, TailRounded, NearestUnits, RealProduct;
    var a, b, h := 0x1a00_0800, 0x19ff_f001, 0x4000_0000;
    SingleConstants();
    SingleValue(a, 51, 0x80_0800);
    SingleValue(b, 50, 0xff_f001);
    FloatSubnormal.ProductTail(SINGLE, a, b, r);
    assert Pow2(17) == 0x2_0000 by { SmallPowers(); }
    SingleProduct(a, 51, 0x80_0800, b, 50, 0xff_f001, h);
    HalfTie();
    var t := Ldexp(0x8000_0000_0800 as real, -17);
    NearUnits(t, h, 0x8000_0000, 1);
    PinnedDown(Abs(RealProduct(SINGLE, a, b)), Magnitude(SINGLE, r), -150, t, h, 1);
  }

  /** The low bits of that product's fraction. */
  lemma HalfTie()
    ensures SINGLE.Valid() && Misrounding(SINGLE, 24, 0x4000_0000, true) == -1 && Pow2(31) == 0x8000_0000
  {
    hide Pow2;
    SingleConstants();
    SmallPowers();
    DivModUnique(0x4000_0000, Pow2(32), 0, 0x4000_0000);
    DivModUnique(0x4000_0000, 128, 0x80_0000, 0);
  }

  /** Where a scaled-down integer lies between two integers. */
  lemma CutPoint(p: nat, k: nat, h: nat)
    requires h * Pow2(k) < p < (h + 1) * Pow2(k)
    ensures h as real < Ldexp(p as real, 0 - k) < (h + 1) as real
    ensures Ldexp(p as real, 0 - k).Floor == h
  {
    var t := Ldexp(p as real, 0 - k);
    LdexpAdd(p as real, 0 - k, k);
    LdexpNat(h, k);
    LdexpNat(h + 1, k);
    LdexpOrder(h as real, t, k);
    LdexpOrder(t, (h + 1) as real, k);
    assert Ldexp(t, k) == p as real;
    hide Ldexp, Pow2;
  }

  /** The quotient of two positive normal singles, in guard units: `h` and more behind it. */
  lemma SingleQuotient(a: nat, ea: nat, qa: nat, b: nat, eb: nat, qb: nat, h: nat, rest: nat)
    requires 0x80_0000 <= qb <= qa < 0x100_0000 && ea < 254 && eb < 254
    requires a == ea * 0x80_0000 + qa && b == eb * 0x80_0000 + qb
    requires qa * 0x4000_0000 == h * qb + rest && 0 < rest < qb
    ensures SINGLE.Valid() && Value(SINGLE, b) != 0.0
    ensures var t := (qa * 0x4000_0000) as real / qb as real;
      && NormalForm(SINGLE, Abs(RealQuotient(SINGLE, a, b)), ea - eb, t)
      && h as real < t < (h + 1) as real && t.Floor == h
  {
    SingleConstants();
    SingleValue(a, ea, qa);
    SingleValue(b, eb, qb);
    var t, d, e := (qa * 0x4000_0000) as real / qb as real, qb as real, ea - eb;
    LdexpZero(eb - 149);
    LdexpOrder(0.0, d, eb - 149);
    LdexpProduct(t, e - 30, d, eb - 149);
    DivTimes(qa * 0x4000_0000, qb);
    LdexpNat(qa, 30);
    LdexpAdd(qa as real, 30, ea - 179);
    assert RealTimes(Ldexp(t, e - 30), Value(SINGLE, b)) == Value(SINGLE, a);
    hide Ldexp, Value, Pow2;
    QuotientUnique(Ldexp(t, e - 30), Value(SINGLE, b), Value(SINGLE, a));
    BetweenUnits(qa * 0x4000_0000, qb, h, rest, t);
    LdexpZero(e - 30);
    LdexpOrder(0.0, t, e - 30);
    assert FractionValue(SINGLE, e, t) == Ldexp(t, e - 30);
  }

  lemma BetweenUnits(n: nat, d: nat, h: nat, rest: nat, t: real)
    requires n == h * d + rest && 0 < rest < d && t == n as real / d as real
    requires 0x4000_0000 * d <= n < 0x8000_0000 * d
    ensures h as real < t < (h + 1) as real && t.Floor == h
    ensures 0x4000_0000 as real <= t < 0x8000_0000 as real
  {
    DivTimes(n, d);
    TimesOrder(h as real, t, d as real);
    TimesOrder(t, (h + 1) as real, d as real);
    TimesOrder(t, 0x4000_0000 as real, d as real);
    TimesOrder(t, 0x8000_0000 as real, d as real);
    assert (h + 1) * d == h * d + d;
  }

  lemma NearUnits(t: real, h: nat, d: nat, q: nat)
    requires h as real < t < (h + 1) as real && 2 * (q * d) <= 2 * h + d && 2 * h + 2 <= 2 * (q * d) + d
    ensures NearestUnits(t, d, q)
  {
    StrictlyWithin(t, h, q * d, d, q % 2 == 0);
    hide WithinHalf;
  }

  lemma StrictlyWithin(t: real, h: int, c: int, d: int, tie: bool)
    requires h as real < t < (h + 1) as real && 2 * c <= 2 * h + d && 2 * h + 2 <= 2 * c + d
    ensures WithinHalf(t, c, d, tie)
  {
  }

  /** A quotient that comes out one unit too low: just above 208.5 units, the code returns 208. */
  lemma SubnormalQuotientTooLow(r: nat)
    requires SINGLE.Valid() && IsQuotient(SINGLE, 0x16db_1c66, 0x5d86_839f, r)
    ensures Value(SINGLE, 0x5d86_839f) != 0.0
    ensures Magnitude(SINGLE, r) == 208
    ensures MagnitudeRounds(SINGLE, Abs(RealQuotient(SINGLE, 0x16db_1c66, 0x5d86_839f)), 209)
  {
    hide Ldexp, Value, IsQuotient, IsFinite, IsZero, Magnitude, Misrounding, Pow2, NormalForm, TailRounded, NearestUnits, RealQuotient;
    var a, b, h := 0x16db_1c66, 0x5d86_839f, 0x6840_0000;
    SingleConstants();
    SingleValue(a, 44, 0xdb_1c66);
    SingleValue(b, 186, 0x86_839f);
    FloatSubnormal.QuotientTail(SINGLE, a, b, r);
    SingleQuotient(a, 44, 0xdb_1c66, b, 186, 0x86_839f, h, 0x40_0000);
    PlainTie();
    var t := (0xdb_1c66 * 0x4000_0000) as real / 0x86_839f as real;
    NearUnits(t, h, 0x80_0000, 209);
    PinnedDown(Abs(RealQuotient(SINGLE, a, b)), Magnitude(SINGLE, r), -142, t, h, 209);
  }

  /** The low bits of that quotient's fraction. */
  lemma PlainTie()
    ensures SINGLE.Valid() && Misrounding(SINGLE, 16, 0x6840_0000, true) == -1 && Pow2(23) == 0x80_0000
  {
    hide Pow2;
    SingleConstants();
    SmallPowers();
    DivModUnique(0x6840_0000, 0x100_0000, 104, 0x40_0000);
    DivModUnique(0x6840_0000, 128, 13664256, 0);
  }

  /** The low bits of the next quotient's fraction. */
  lemma EarlyTie()
    ensures SINGLE.Valid() && Misrounding(SINGLE, 1, 0x493c_a540, true) == 1 && Pow2(8) == 256
  {
    hide Pow2;
    SingleConstants();
    SmallPowers();
    DivModUnique(0x493c_a540, 512, 2399826, 0x140);
    DivModUnique(0x493c_a540, 128, 9599306, 64);
  }

  /** A quotient that comes out one unit too high: a quarter above 4799653 units, the code returns 4799654. */
  lemma SubnormalQuotientTooHigh(r: nat)
    requires SINGLE.Valid() && IsQuotient(SINGLE, 0x185f_7a9e, 0x57c3_4b03, r)
    ensures Value(SINGLE, 0x57c3_4b03) != 0.0
    ensures Magnitude(SINGLE, r) == 4799654
    ensures MagnitudeRounds(SINGLE, Abs(RealQuotient(SINGLE, 0x185f_7a9e, 0x57c3_4b03)), 4799653)
  {
    hide Ldexp, Value, IsQuotient, IsFinite, IsZero, Magnitude, Misrounding, Pow2, NormalForm, TailRounded, NearestUnits, RealQuotient;
    var a, b, h := 0x185f_7a9e, 0x57c3_4b03, 0x493c_a540;
    SingleConstants();
    SingleValue(a, 47, 0xdf_7a9e);
    SingleValue(b, 174, 0xc3_4b03);
    FloatSubnormal.QuotientTail(SINGLE, a, b, r);
    SingleQuotient(a, 47, 0xdf_7a9e, b, 174, 0xc3_4b03, h, 2117696);
    EarlyTie();
    var t := (0xdf_7a9e * 0x4000_0000) as real / 0xc3_4b03 as real;
    NearUnits(t, h, 256, 4799653);
    PinnedDown(Abs(RealQuotient(SINGLE, a, b)), Magnitude(SINGLE, r), -127, t, h, 4799653);
  }
}
