/** Soft-float conversions between a narrow and a wide format (plugin-libc/libgcc/fp-bit.c:
    `sf_to_df`, `df_to_sf`). */
module FloatConvert {
  import opened Powers
  import opened Ieee754
  import opened Rounding
  import opened SoftFloat
  import opened FloatMulDiv

  /** Every value of `n`, subnormals included, is a normal value of `w`. */
  predicate Wider(n: Format, w: Format) {
    && n.Valid() && w.Valid()
    && n.fracBits <= w.fracBits
    && n.fracBits + n.guards < w.fracBits + w.guards
    && w.ExpMin() <= n.UnitExp()
    && n.Bias() <= w.Bias()
  }

  /** The source's `F_D_BITOFF`: how far a wide fraction's leading one lies above a narrow one's. */
  function BitOffset(n: Format, w: Format): nat
    requires Wider(n, w)
  {
    w.fracBits + w.guards - (n.fracBits + n.guards)
  }

  /** The source's formats meet every requirement made of a format, and single precision widens to double precision
      by thirty fraction bits. */
  lemma SourceFormats()
    ensures SINGLE.Valid() && DOUBLE.Valid() && QUAD.Valid()
    ensures Wider(SINGLE, DOUBLE) && BitOffset(SINGLE, DOUBLE) == 30
  {
    assert Pow2(7) == 128 && Pow2(10) == 1024;
  }

  /** `r` is the exact widening of `a`. */
  ghost predicate IsExtension(n: Format, w: Format, a: nat, r: nat)
    requires Wider(n, w)
  {
    var sign := SignBit(n, a);
    if IsNaN(n, a) then r == Encode(w, sign, QuietNan(w, Payload(n, a) * Pow2(w.fracBits - n.fracBits)))
    else if IsInfinite(n, a) then r == Encode(w, sign, w.Infinity())
    else if IsZero(n, a) then r == Encode(w, sign, 0)
    else Encoding(w, r) && IsFinite(w, r) && SignBit(w, r) == sign && Value(w, r) == Value(n, a)
  }

  /** `r` is the rounding of `a` to the narrow format; the high bits of a NaN's payload survive. */
  ghost predicate IsTruncation(w: Format, n: Format, a: nat, r: nat)
    requires Wider(n, w)
  {
    var sign := SignBit(w, a);
    if IsNaN(w, a) then r == Encode(n, sign, QuietNan(n, Shr(Payload(w, a), w.fracBits - n.fracBits)))
    else if IsInfinite(w, a) then r == Encode(n, sign, n.Infinity())
    else if IsZero(w, a) then r == Encode(n, sign, 0)
    else Rounds(n, Value(w, a), r)
  }

  /** The source's `__make_dp` and `__make_fp`: pack the given fields. */
  method Make(f: Format, cls: FpClass, sign: nat, exp: int, frac: nat) returns (r: nat)
    requires f.Valid() && Packable(f, Parts(cls, sign, exp, frac))
    ensures PartsMagnitude(f, Parts(cls, sign, exp, frac)) < Pow2(f.fracBits + f.expBits)
    ensures r == Encode(f, sign, PartsMagnitude(f, Parts(cls, sign, exp, frac)))
  {
    var num := new FpNumber();
    num.cls := cls;
    num.sign := sign;
    num.normalExp := exp;
    num.fraction := frac;
    hide PartsMagnitude, Encode, Pow2;
    assert num.View() == Parts(cls, sign, exp, frac);
    r := Pack(f, num);
  }

  /** The fields of a widened number. */
  function Extended(n: Format, w: Format, p: Parts): Parts
    requires Wider(n, w)
  {
    p.(fraction := p.fraction * Pow2(BitOffset(n, w)))
  }

  lemma ExtendedNumber(n: Format, w: Format, p: Parts)
    requires Wider(n, w) && Unpacked(n, p)
    ensures Unpacked(w, Extended(n, w, p))
    ensures PartsValue(w, Extended(n, w, p)) == PartsValue(n, p)
  {
    var k, off := n.fracBits + n.guards, BitOffset(n, w);
    var i, d := Implicit1(n), Pow2(off);
    Pow2Add(k, off);
    LdexpNat(p.fraction, off);
    LdexpAdd(p.fraction as real, off, p.normalExp - k - off);
    ExtendedMultiple(n.guards, off, w.guards, p.fraction);
    assert w.ExpMin() <= p.normalExp;
    hide Pow2, Ldexp;
    IntScale(i, p.fraction, d);
    IntScaleStrictBoth(p.fraction, 2 * i, d);
    assert 2 * i * d == 2 * (i * d);
  }

  /** Guard bits stay clear. */
  lemma ExtendedMultiple(g: nat, off: nat, g': nat, x: nat)
    requires x % Pow2(g) == 0 && g' <= g + off
    ensures x * Pow2(off) % Pow2(g') == 0
  {
    DivModFacts(x, Pow2(g));
    Pow2Add(g, off);
    Pow2Split(g', g + off);
    var c, e := x / Pow2(g), Pow2(g + off - g');
    assert x * Pow2(off) == (c * e) * Pow2(g') by {
      RegroupMultiple(c, Pow2(g), Pow2(off), e, Pow2(g'));
    }
    DivModUnique(x * Pow2(off), Pow2(g'), c * e, 0);
  }

  lemma RegroupMultiple(c: int, p: int, q: int, e: int, r: int)
    requires p * q == e * r
    ensures (c * p) * q == (c * e) * r
  {
    assert (c * p) * q == c * (p * q);
    assert (c * e) * r == c * (e * r);
  }

  lemma ExtendedPayload(n: Format, w: Format, payload: nat, fraction: nat)
    requires Wider(n, w) && payload < QuietBit(n)
    requires fraction == payload * Pow2(n.guards) * Pow2(BitOffset(n, w))
    ensures Shr(fraction, w.guards) % QuietBit(w) == payload * Pow2(w.fracBits - n.fracBits)
  {
    var up := Pow2(w.fracBits - n.fracBits);
    Pow2Add(n.guards, BitOffset(n, w));
    Pow2Add(w.fracBits - n.fracBits, w.guards);
    assert n.guards + BitOffset(n, w) == w.fracBits - n.fracBits + w.guards;
    RegroupPayload(payload, Pow2(n.guards), Pow2(BitOffset(n, w)), up, Pow2(w.guards));
    DivModUnique(fraction, Pow2(w.guards), payload * up, 0);
    Pow2Add(n.fracBits - 1, w.fracBits - n.fracBits);
    IntScaleStrict(payload, QuietBit(n), up);
    DivModUnique(payload * up, QuietBit(w), 0, payload * up);
  }

  lemma RegroupPayload(x: int, p: int, q: int, u: int, g: int)
    requires p * q == u * g
    ensures x * p * q == (x * u) * g
  {
    RegroupMultiple(x, p, q, u, g);
  }

  /** A number in the normal range packs to a finite magnitude of exactly its value. */
  lemma ExactlyPacked(f: Format, p: Parts)
    requires f.Valid() && Unpacked(f, p) && f.ExpMin() <= p.normalExp
    ensures PackedMagnitude(f, p.normalExp, p.fraction) < f.Infinity()
    ensures MagnitudeValue(f, PackedMagnitude(f, p.normalExp, p.fraction)) == PartsValue(f, p)
  {
    hide Pow2, Ldexp, RoundDiv;
    var g, m, b := f.guards, Pow2(f.fracBits), p.normalExp - f.ExpMin();
    var q := GuardsClear(f, p);
    LdexpNat(q, g);
    LdexpAdd(q as real, g, b + f.UnitExp() - g);
    Pow2Halves(f.expBits);
    InfinityInBinade(m, f.ExpMax() - 2, b, q);
    MagnitudeOf(f, b, q);
  }

  /** The significand of an unpacked number, whose guard bits are clear. */
  lemma GuardsClear(f: Format, p: Parts) returns (q: nat)
    requires f.Valid() && Unpacked(f, p) && f.ExpMin() <= p.normalExp
    ensures p.fraction == q * Pow2(f.guards) && RoundDiv(p.fraction, Pow2(f.guards)) == q
    ensures Pow2(f.fracBits) <= q < 2 * Pow2(f.fracBits)
  {
    hide Pow2;
    var d, m := Pow2(f.guards), Pow2(f.fracBits);
    DivModFacts(p.fraction, d);
    Pow2Add(f.fracBits, f.guards);
    q := p.fraction / d;
    assert 2 * m * d == 2 * (m * d);
    IntScaleStrictBoth(q, 2 * m, d);
    IntScaleStrictBoth(q, m, d);
  }

  lemma ExtensionPacked(n: Format, w: Format, a: nat, p: Parts, r: nat)
    requires Wider(n, w) && Encoding(n, a) && Decodes(n, a, p)
    requires r == Encode(w, p.sign, PartsMagnitude(w, Extended(n, w, p)))
    requires PartsMagnitude(w, Extended(n, w, p)) < Pow2(w.fracBits + w.expBits)
    ensures IsExtension(n, w, a, r)
  {
    var q := Extended(n, w, p);
    EncodingSplit(n, a);
    EncodeFields(w, p.sign, PartsMagnitude(w, q));
    hide Pow2, PackedMagnitude, MagnitudeValue, PartsValue, Magnitude, Encode, SignBit, MagnitudeRounds;
    if IsNaN(n, a) {
      PayloadBound(n, a);
      ExtendedPayload(n, w, Payload(n, a), q.fraction);
      assert IsExtension(n, w, a, r);
    } else if IsFinite(n, a) && !IsZero(n, a) {
      ExtendedNumber(n, w, p);
      ImplicitPositive(w);
      ExactlyPacked(w, q);
      assert IsExtension(n, w, a, r);
    } else {
      assert IsExtension(n, w, a, r);
    }
  }

  lemma PayloadBound(f: Format, bits: nat)
    requires f.Valid()
    ensures Payload(f, bits) < QuietBit(f)
  {
    DivModFacts(Magnitude(f, bits) % Pow2(f.fracBits), QuietBit(f));
  }

  /** The source's `sf_to_df`. */
  method Extend(n: Format, w: Format, argA: nat) returns (r: nat)
    requires Wider(n, w) && Encoding(n, argA)
    ensures IsExtension(n, w, argA, r)
  {
    var num := new FpNumber();
    hide Pow2, Unpacked, Decodes, IsExtension, PartsMagnitude, Encode, Implicit1, PartsValue;
    Unpack(n, argA, num);
    DecodedFields(n, argA, num.View());
    if num.cls == Number {
      ExtendedNumber(n, w, num.View());
    }
    PackableNumber(w, Extended(n, w, num.View()));
    r := Make(w, num.cls, num.sign, num.normalExp, num.fraction * Pow2(BitOffset(n, w)));
    ExtensionPacked(n, w, argA, num.View(), r);
  }

  lemma PackableNumber(f: Format, p: Parts)
    requires f.Valid() && p.sign <= 1 && (p.cls == Number ==> Unpacked(f, p))
    ensures Packable(f, p)
  {
  }

  /** The fields of a narrowed number: the lost bits are kept as a sticky bit. */
  function Narrowed(w: Format, n: Format, p: Parts): Parts
    requires Wider(n, w)
  {
    p.(fraction := StickyShift(p.fraction, BitOffset(n, w)))
  }

  lemma NarrowedNumber(w: Format, n: Format, p: Parts)
    requires Wider(n, w) && Unpacked(w, p)
    ensures Implicit1(n) <= Narrowed(w, n, p).fraction < 2 * Implicit1(n)
    ensures MagnitudeRounds(n, PartsValue(w, p), PackedMagnitude(n, p.normalExp, Narrowed(w, n, p).fraction))
  {
    var off: int, r := BitOffset(n, w), p.fraction;
    var t := Ldexp(r as real, 0 - off);
    StickyShiftIsOdd(r as real, r, off);
    OddIsSameQuad(t, StickyShift(r, off));
    LdexpAdd(r as real, 0 - off, p.normalExp - n.fracBits - n.guards);
    Pow2Add(n.fracBits + n.guards, off);
    StickyKeepsBinade(r, off, Implicit1(n));
    hide Pow2, PackedMagnitude, StickyShift;
    PackedRounds(n, p.normalExp, StickyShift(r, off), t);
  }

  lemma StickyKeepsBinade(r: nat, off: nat, i: nat)
    requires i * Pow2(off) <= r < 2 * (i * Pow2(off)) && i > 0
    ensures i <= StickyShift(r, off) < 2 * i
  {
    var q, z := Shr(r, off), StickyShift(r, off);
    assert z == q || (q % 2 == 0 && z == q + 1);
    hide StickyShift;
    ShiftedBinade(r, Pow2(off), i);
  }

  lemma ShiftedBinade(r: nat, d: nat, i: nat)
    requires d > 0 && i * d <= r < 2 * (i * d)
    ensures i <= r / d < 2 * i
  {
    DivModFacts(r, d);
    var q := r / d;
    IntScaleStrictBoth(q, i, d);
    IntScaleStrictBoth(q, 2 * i, d);
    assert 2 * i * d == 2 * (i * d);
  }

  /** Narrowing a NaN keeps the high bits of its payload; the sticky bit is shifted out again. */
  lemma NarrowedPayload(w: Format, n: Format, payload: nat, fraction: nat)
    requires Wider(n, w) && payload < QuietBit(w)
    requires fraction == payload * Pow2(w.guards)
    ensures Shr(StickyShift(fraction, BitOffset(n, w)), n.guards) % QuietBit(n) == Shr(payload, w.fracBits - n.fracBits)
  {
    var off, lost := BitOffset(n, w), w.fracBits - n.fracBits;
    var c, d := Pow2(off), Pow2(n.guards);
    Pow2Eight(n.guards);
    SetLowBit(fraction / c, d, fraction % c != 0);
    DivDiv(fraction, c, d);
    Pow2Add(off, n.guards);
    Pow2Add(w.guards, lost);
    assert off + n.guards == w.guards + lost;
    DivDiv(fraction, Pow2(w.guards), Pow2(lost));
    DivModUnique(fraction, Pow2(w.guards), payload, 0);
    PayloadShrinks(w, n, payload);
  }

  lemma PayloadShrinks(w: Format, n: Format, payload: nat)
    requires Wider(n, w) && payload < QuietBit(w)
    ensures Shr(payload, w.fracBits - n.fracBits) < QuietBit(n)
    ensures Shr(payload, w.fracBits - n.fracBits) % QuietBit(n) == Shr(payload, w.fracBits - n.fracBits)
  {
    var lost, q := w.fracBits - n.fracBits, QuietBit(n);
    Pow2Add(n.fracBits - 1, lost);
    DivModFacts(payload, Pow2(lost));
    IntScaleStrictBoth(payload / Pow2(lost), q, Pow2(lost));
    DivModUnique(payload / Pow2(lost), q, 0, payload / Pow2(lost));
  }

  lemma TruncationPacked(w: Format, n: Format, a: nat, p: Parts, r: nat)
    requires Wider(n, w) && Encoding(w, a) && Decodes(w, a, p)
    requires r == Encode(n, p.sign, PartsMagnitude(n, Narrowed(w, n, p)))
    requires PartsMagnitude(n, Narrowed(w, n, p)) < Pow2(n.fracBits + n.expBits)
    ensures IsTruncation(w, n, a, r)
  {
    var q := Narrowed(w, n, p);
    EncodingSplit(w, a);
    EncodeFields(n, p.sign, PartsMagnitude(n, q));
    hide Pow2, PackedMagnitude, MagnitudeValue, PartsValue, Magnitude, Encode, SignBit, MagnitudeRounds, StickyShift, Shr;
    if IsNaN(w, a) {
      PayloadBound(w, a);
      NarrowedPayload(w, n, Payload(w, a), p.fraction);
      assert IsTruncation(w, n, a, r);
    } else if IsFinite(w, a) && !IsZero(w, a) {
      NarrowedNumber(w, n, p);
      ImplicitPositive(n);
      ZeroValue(w, Magnitude(w, a));
      assert IsTruncation(w, n, a, r);
    } else {
      assert IsTruncation(w, n, a, r);
    }
  }

  /** The source's `df_to_sf`. */
  method Truncate(w: Format, n: Format, argA: nat) returns (r: nat)
    requires Wider(n, w) && Encoding(w, argA)
    ensures IsTruncation(w, n, argA, r)
  {
    var num := new FpNumber();
    hide Pow2, Unpacked, Decodes, IsTruncation, PartsMagnitude, Encode, PartsValue, PackedMagnitude;
    Unpack(w, argA, num);
    DecodedFields(w, argA, num.View());
    if num.cls == Number {
      NarrowedNumber(w, n, num.View());
    }
    var fraction := Shr(num.fraction, BitOffset(n, w));
    if Low(num.fraction, BitOffset(n, w)) != 0 && fraction % 2 == 0 {
      fraction := fraction + 1;
    }
    assert fraction == Narrowed(w, n, num.View()).fraction;
    r := Make(n, num.cls, num.sign, num.normalExp, fraction);
    TruncationPacked(w, n, argA, num.View(), r);
  }

  /** Widening and narrowing again gives back every encoding that is not a NaN. */
  lemma TruncateExtend(n: Format, w: Format, a: nat, b: nat, c: nat)
    requires Wider(n, w) && Encoding(n, a) && !IsNaN(n, a)
    requires IsExtension(n, w, a, b) && IsTruncation(w, n, b, c)
    ensures c == a
  {
    EncodingSplit(n, a);
    InfinityFits(w);
    EncodeFields(w, SignBit(n, a), w.Infinity());
    EncodeFields(w, SignBit(n, a), 0);
    hide Pow2, MagnitudeValue, Magnitude, Encode, SignBit, MagnitudeRounds;
    if IsFinite(n, a) && !IsZero(n, a) {
      ZeroValue(n, Magnitude(n, a));
      ZeroValue(w, Magnitude(w, b));
      EncodingSplit(n, c);
      ExactRounds(n, MagnitudeValue(n, Magnitude(n, a)), Magnitude(n, c));
    }
  }

  lemma InfinityFits(f: Format)
    requires f.Valid()
    ensures 0 < f.Infinity() < Pow2(f.fracBits + f.expBits)
  {
    Pow2Add(f.fracBits, f.expBits);
    assert Pow2(f.expBits) == 2 * Pow2(f.expBits - 1);
    IntScaleStrict(f.ExpMax(), Pow2(f.expBits), Pow2(f.fracBits));
    IntScale(0, f.ExpMax(), Pow2(f.fracBits));
  }

  /** A single widened by `sf_to_df` and narrowed again by `df_to_sf`. */
  method ThroughDouble(argA: nat) returns (r: nat)
    requires Encoding(SINGLE, argA) && !IsNaN(SINGLE, argA)
    ensures r == argA
  {
    hide Encoding, IsNaN, IsExtension, IsTruncation, Wider;
    SourceFormats();
    var wide := Extend(SINGLE, DOUBLE, argA);
    ExtensionEncoded(SINGLE, DOUBLE, argA, wide);
    r := Truncate(DOUBLE, SINGLE, wide);
    TruncateExtend(SINGLE, DOUBLE, argA, wide, r);
  }

  lemma ExtensionEncoded(n: Format, w: Format, a: nat, r: nat)
    requires Wider(n, w) && Encoding(n, a) && !IsNaN(n, a) && IsExtension(n, w, a, r)
    ensures Encoding(w, r)
  {
    InfinityFits(w);
    EncodingSplit(n, a);
    EncodeFields(w, SignBit(n, a), w.Infinity());
    EncodeFields(w, SignBit(n, a), 0);
    hide Pow2, Magnitude, Encode, SignBit, Value;
  }
}
