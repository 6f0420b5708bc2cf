/** The unpacked soft-float number and its conversions from and to an encoding
    (plugin-libc/libgcc/fp-bit.c and fp-bit.h). */
module SoftFloat {
  import opened Powers
  import opened Ieee754
  import opened Rounding

  datatype FpClass = SNan | QNan | Zero | Number | Infinite

  /** The source's `fp_number_type`. */
  class FpNumber {
    var cls: FpClass
    var sign: nat
    var normalExp: int
    var fraction: nat

    constructor ()
      ensures fraction == 0 && sign == 0 && cls == SNan
    {
      cls, sign, normalExp, fraction := SNan, 0, 0, 0;
    }

    predicate IsNan()
      reads this
    {
      cls == SNan || cls == QNan
    }

    /** The value of the fields. */
    function View(): Parts
      reads this
    {
      Parts(cls, sign, normalExp, fraction)
    }
  }

  datatype Parts = Parts(cls: FpClass, sign: nat, normalExp: int, fraction: nat)

  /** A word of the fraction type: arithmetic wraps around at `wordBits`. */
  function Word(f: Format, x: int): nat {
    x % Pow2(f.wordBits)
  }

  lemma WordFits(f: Format, x: int)
    requires 0 <= x < Pow2(f.wordBits)
    ensures Word(f, x) == x
  {
    DivModUnique(x, Pow2(f.wordBits), 0, x);
  }

  /** The leading one of an unpacked fraction. */
  function Implicit1(f: Format): nat {
    Pow2(f.fracBits + f.guards)
  }

  lemma FractionFits(f: Format)
    requires f.Valid()
    ensures 4 * Implicit1(f) <= Pow2(f.wordBits)
  {
    Pow2Monotone(f.fracBits + f.guards + 2, f.wordBits);
  }

  function QuietBit(f: Format): nat
    requires f.Valid()
  {
    Pow2(f.fracBits - 1)
  }

  /** The canonical NaN encoding magnitude for a payload. */
  function QuietNan(f: Format, payload: nat): nat
    requires f.Valid()
  {
    f.Infinity() + QuietBit(f) + payload
  }

  /** The payload of a NaN, without its quiet bit. */
  function Payload(f: Format, bits: nat): nat
    requires f.Valid()
  {
    Magnitude(f, bits) % Pow2(f.fracBits) % QuietBit(f)
  }

  /** An unpacked finite number other than zero: the leading one in place and the guard bits clear. */
  ghost predicate Unpacked(f: Format, p: Parts)
    requires f.Valid()
  {
    && p.cls == Number
    && Implicit1(f) <= p.fraction < 2 * Implicit1(f)
    && p.fraction % Pow2(f.guards) == 0
    && f.UnitExp() <= p.normalExp <= f.Bias()
  }

  /** The magnitude an unpacked number stands for. */
  function PartsValue(f: Format, p: Parts): real {
    FractionValue(f, p.normalExp, p.fraction as real)
  }

  /** `p` is the decoding of `bits`. */
  ghost predicate Decodes(f: Format, bits: nat, p: Parts)
    requires f.Valid()
  {
    && p.sign == SignBit(f, bits)
    && (IsNaN(f, bits) ==>
      && p.cls == (if Magnitude(f, bits) % Pow2(f.fracBits) >= QuietBit(f) then QNan else SNan)
      && p.fraction == Payload(f, bits) * Pow2(f.guards))
    && (IsInfinite(f, bits) ==> p.cls == Infinite)
    && (IsZero(f, bits) ==> p.cls == Zero)
    && (IsFinite(f, bits) && !IsZero(f, bits) ==>
      Unpacked(f, p) && PartsValue(f, p) == MagnitudeValue(f, Magnitude(f, bits)))
  }

  /** The magnitude that packing produces from the fields. */
  function PartsMagnitude(f: Format, p: Parts): nat
    requires f.Valid()
  {
    match p.cls
    case SNan => QuietNan(f, Shr(p.fraction, f.guards) % QuietBit(f))
    case QNan => QuietNan(f, Shr(p.fraction, f.guards) % QuietBit(f))
    case Infinite => f.Infinity()
    case Zero => 0
    case Number => if p.fraction == 0 then 0 else PackedMagnitude(f, p.normalExp, p.fraction)
  }

  /** The encodings of the format. */
  ghost predicate Encoding(f: Format, bits: nat) {
    bits < 2 * Pow2(f.fracBits + f.expBits)
  }

  /** The fields the source reads off an encoding are those of its magnitude. */
  lemma EncodingFields(f: Format, bits: nat)
    ensures var m := Magnitude(f, bits);
      && bits % Pow2(f.fracBits) == m % Pow2(f.fracBits)
      && bits / Pow2(f.fracBits) % Pow2(f.expBits) == m / Pow2(f.fracBits)
      && m / Pow2(f.fracBits) < Pow2(f.expBits)
  {
    var p, d := Pow2(f.fracBits), Pow2(f.expBits);
    Pow2Add(f.fracBits, f.expBits);
    DivDiv(bits, p, d);
    DivModFacts(bits, p);
    DivModFacts(bits / p, d);
    DivModUnique(Magnitude(f, bits), p, bits / p % d, bits % p);
  }

  /** Which class a magnitude has is decided by its exponent field and fraction. */
  lemma ClassByFields(f: Format, m: nat)
    requires m / Pow2(f.fracBits) < Pow2(f.expBits)
    ensures m == f.Infinity() <==> m / Pow2(f.fracBits) == f.ExpMax() && m % Pow2(f.fracBits) == 0
    ensures m > f.Infinity() <==> m / Pow2(f.fracBits) == f.ExpMax() && m % Pow2(f.fracBits) != 0
    ensures m == 0 <==> m / Pow2(f.fracBits) == 0 && m % Pow2(f.fracBits) == 0
  {
    var p := Pow2(f.fracBits);
    DivModFacts(m, p);
    var e := m / p;
    IntScaleStrictBoth(e, f.ExpMax(), p);
  }

  /** The source's `unpack_d`. */
  method Unpack(f: Format, src: nat, dst: FpNumber)
    requires f.Valid() && Encoding(f, src)
    modifies dst
    ensures Decodes(f, src, dst.View())
  {
    var fraction := src % Pow2(f.fracBits);
    var exp := src / Pow2(f.fracBits) % Pow2(f.expBits);
    dst.sign := src / Pow2(f.fracBits + f.expBits) % 2;
    ghost var m := Magnitude(f, src);
    EncodingFields(f, src);
    ClassByFields(f, m);
    hide Pow2, Ldexp, Significand, Scale, Magnitude, Payload, FractionValue, Word;
    if exp == 0 {
      if fraction == 0 {
        dst.cls := Zero;
      } else {
        UnpackSubnormal(f, fraction, dst);
        SubnormalValue(f, m);
      }
    } else if exp == f.ExpMax() {
      if fraction == 0 {
        dst.cls := Infinite;
      } else {
        if fraction / QuietBit(f) % 2 == 1 {
          dst.cls := QNan;
        } else {
          dst.cls := SNan;
        }
        NanFields(f, src);
        fraction := fraction % QuietBit(f);
        dst.fraction := Word(f, fraction * Pow2(f.guards));
      }
    } else {
      dst.normalExp := exp - f.Bias();
      dst.cls := Number;
      UnpackedNormal(f, m, Parts(Number, dst.sign, dst.normalExp, fraction * Pow2(f.guards) + Implicit1(f)));
      dst.fraction := Word(f, fraction * Pow2(f.guards)) + Implicit1(f);
    }
  }

  lemma SubnormalValue(f: Format, m: nat)
    requires f.Valid() && m / Pow2(f.fracBits) == 0
    ensures MagnitudeValue(f, m) == Ldexp((m % Pow2(f.fracBits)) as real, f.UnitExp())
  {
  }

  lemma NanFields(f: Format, src: nat)
    requires f.Valid()
    ensures var fraction := src % Pow2(f.fracBits);
      && (fraction / QuietBit(f) % 2 == 1 <==> Magnitude(f, src) % Pow2(f.fracBits) >= QuietBit(f))
      && Word(f, fraction % QuietBit(f) * Pow2(f.guards)) == Payload(f, src) * Pow2(f.guards)
  {
    var fraction := src % Pow2(f.fracBits);
    EncodingFields(f, src);
    QuietBitSet(f, fraction);
    assert Pow2(f.fracBits) == 2 * QuietBit(f);
    PayloadFits(f, fraction % QuietBit(f));
  }

  lemma QuietBitSet(f: Format, fraction: nat)
    requires f.Valid() && fraction < Pow2(f.fracBits)
    ensures fraction / QuietBit(f) % 2 == 1 <==> fraction >= QuietBit(f)
  {
    var h := QuietBit(f);
    assert Pow2(f.fracBits) == 2 * h;
    if fraction >= h {
      DivModUnique(fraction, h, 1, fraction - h);
    } else {
      DivModUnique(fraction, h, 0, fraction);
    }
  }

  lemma PayloadFits(f: Format, x: nat)
    requires f.Valid() && x < Pow2(f.fracBits)
    ensures Word(f, x * Pow2(f.guards)) == x * Pow2(f.guards) < Implicit1(f)
  {
    Pow2Add(f.fracBits, f.guards);
    IntScale(x, Pow2(f.fracBits), Pow2(f.guards));
    FractionFits(f);
    assert 0 <= x * Pow2(f.guards);
    WordFits(f, x * Pow2(f.guards));
  }

  lemma UnpackedNormal(f: Format, m: nat, p: Parts)
    requires f.Valid()
    requires 0 < m / Pow2(f.fracBits) < f.ExpMax()
    requires p.cls == Number && p.normalExp == m / Pow2(f.fracBits) - f.Bias()
    requires p.fraction == m % Pow2(f.fracBits) * Pow2(f.guards) + Implicit1(f)
    ensures Word(f, m % Pow2(f.fracBits) * Pow2(f.guards)) == m % Pow2(f.fracBits) * Pow2(f.guards)
    ensures Unpacked(f, p) && PartsValue(f, p) == MagnitudeValue(f, m)
  {
    var n, g := f.fracBits, f.guards;
    PayloadFits(f, m % Pow2(n));
    Pow2Add(n, g);
    var s := m % Pow2(n) + Pow2(n);
    assert s == Significand(f, m);
    assert Pow2(f.expBits) == 2 * Pow2(f.expBits - 1);
    LdexpNat(s, g);
    LdexpAdd(s as real, g, p.normalExp - n - g);
    hide Pow2, Ldexp;
    DistributeBoth(m % Pow2(n), Pow2(n), Pow2(g), p.fraction, Implicit1(f));
    DivModUnique(p.fraction, Pow2(g), s, 0);
  }

  lemma DistributeBoth(a: nat, b: nat, g: nat, x: nat, i: nat)
    requires x == a * g + i && i == b * g
    ensures (a + b) * g == x
  {
  }

  /** The normalizing loop of `unpack_d` for a subnormal encoding. */
  method UnpackSubnormal(f: Format, fraction0: nat, dst: FpNumber)
    requires f.Valid() && 0 < fraction0 < Pow2(f.fracBits)
    modifies dst`normalExp, dst`cls, dst`fraction
    ensures Unpacked(f, dst.View())
    ensures PartsValue(f, dst.View()) == Ldexp(fraction0 as real, f.UnitExp())
  {
    dst.normalExp := f.ExpMin();
    PayloadFits(f, fraction0);
    var fraction := Word(f, fraction0 * Pow2(f.guards));
    dst.cls := Number;
    FractionFits(f);
    SubnormalStart(f, fraction0);
    while fraction < Implicit1(f)
      invariant 0 < fraction < 2 * Implicit1(f)
      invariant fraction % Pow2(f.guards) == 0
      invariant dst.cls == Number && f.UnitExp() <= dst.normalExp <= f.ExpMin()
      invariant Pow2(f.guards + (f.ExpMin() - dst.normalExp)) <= fraction
      invariant FractionValue(f, dst.normalExp, fraction as real) == Ldexp(fraction0 as real, f.UnitExp())
      decreases Implicit1(f) - fraction
    {
      SubnormalStep(f, dst.normalExp, fraction);
      fraction := Word(f, 2 * fraction);
      dst.normalExp := dst.normalExp - 1;
    }
    dst.fraction := fraction;
    assert f.ExpMin() <= f.Bias();
  }

  lemma SubnormalStart(f: Format, fraction0: nat)
    requires f.Valid() && 0 < fraction0 < Pow2(f.fracBits)
    ensures fraction0 * Pow2(f.guards) % Pow2(f.guards) == 0
    ensures Pow2(f.guards) <= fraction0 * Pow2(f.guards)
    ensures FractionValue(f, f.ExpMin(), (fraction0 * Pow2(f.guards)) as real) == Ldexp(fraction0 as real, f.UnitExp())
    ensures f.ExpMin() <= f.Bias()
  {
    DivModUnique(fraction0 * Pow2(f.guards), Pow2(f.guards), fraction0, 0);
    IntScale(1, fraction0, Pow2(f.guards));
    LdexpNat(fraction0, f.guards);
    LdexpAdd(fraction0 as real, f.guards, f.UnitExp() - f.guards);
    assert Pow2(f.expBits - 1) == 2 * Pow2(f.expBits - 2);
  }

  lemma SubnormalStep(f: Format, e: int, fraction: nat)
    requires f.Valid() && f.UnitExp() <= e <= f.ExpMin()
    requires 0 < fraction < Implicit1(f) && fraction % Pow2(f.guards) == 0
    requires Pow2(f.guards + (f.ExpMin() - e)) <= fraction
    ensures Word(f, 2 * fraction) == 2 * fraction
    ensures 2 * fraction % Pow2(f.guards) == 0
    ensures f.UnitExp() <= e - 1
    ensures Pow2(f.guards + (f.ExpMin() - (e - 1))) <= 2 * fraction
    ensures FractionValue(f, e - 1, (2 * fraction) as real) == FractionValue(f, e, fraction as real)
  {
    FractionFits(f);
    WordFits(f, 2 * fraction);
    var g := Pow2(f.guards);
    DivModFacts(fraction, g);
    DivModUnique(2 * fraction, g, 2 * (fraction / g), 0);
    var k := f.guards + (f.ExpMin() - e);
    assert Pow2(k + 1) == 2 * Pow2(k);
    Pow2Reflects(k, f.fracBits + f.guards);
    LdexpStep(fraction as real, e - 1 - f.fracBits - f.guards);
    assert (2 * fraction) as real == 2.0 * (fraction as real);
  }

  // Packing.

  /** Adding to the guard bits so that truncating them rounds to nearest, ties to even. */
  function AddGuardRound(f: Format, x: nat): nat
    requires f.Valid()
  {
    if Low(x, f.guards) == Pow2(f.guards - 1) then
      if Shr(x, f.guards) % 2 == 1 then x + Pow2(f.guards - 1) else x
    else
      x + (Pow2(f.guards - 1) - 1)
  }

  lemma GuardRoundIsRoundDiv(f: Format, x: nat)
    requires f.Valid()
    ensures Shr(AddGuardRound(f, x), f.guards) == RoundDiv(x, Pow2(f.guards))
  {
    var h, d := Pow2(f.guards - 1), Pow2(f.guards);
    assert d == 2 * h;
    DivModFacts(x, d);
    var q, w := x / d, x % d;
    var y := AddGuardRound(f, x);
    hide Pow2;
    if y < q * d + d {
      DivModUnique(y, d, q, y - q * d);
    } else {
      assert (q + 1) * d == q * d + d;
      DivModUnique(y, d, q + 1, y - q * d - d);
    }
  }

  lemma RoundDivBounds(x: nat, p: nat, d: nat)
    requires d > 0
    ensures x <= p * d ==> RoundDiv(x, d) <= p
    ensures p * d <= x ==> p <= RoundDiv(x, d)
  {
    DivModFacts(x, d);
    IntScaleStrictBoth(x / d, p, d);
  }

  /** Exponent field `exp` and the low bits of `fraction` spell the magnitude `m`. */
  ghost predicate Spells(f: Format, exp: int, fraction: nat, m: nat) {
    && 0 <= exp < Pow2(f.expBits)
    && exp * Pow2(f.fracBits) + Low(fraction, f.fracBits) == m
  }

  /** The source's `pack_d`. */
  method Pack(f: Format, src: FpNumber) returns (bits: nat)
    requires f.Valid() && src.sign <= 1
    requires src.fraction == 0 || src.cls != Number || Implicit1(f) <= src.fraction <= 2 * Implicit1(f)
    ensures PartsMagnitude(f, src.View()) < Pow2(f.fracBits + f.expBits)
    ensures bits == Encode(f, src.sign, PartsMagnitude(f, src.View()))
  {
    var fraction, sign, exp: int := src.fraction, src.sign, 0;
    hide Pow2, PackedMagnitude, Shr, Low;
    SpecialFields(f);
    if src.IsNan() {
      exp := f.ExpMax();
      NanFieldsPacked(f, Shr(fraction, f.guards) % QuietBit(f));
      fraction := Shr(fraction, f.guards) % QuietBit(f);
      fraction := fraction + QuietBit(f);
    } else if src.cls == Infinite {
      exp := f.ExpMax();
      fraction := 0;
    } else if src.cls == Zero {
      exp := 0;
      fraction := 0;
    } else if fraction == 0 {
      exp := 0;
    } else if src.normalExp < f.ExpMin() {
      exp, fraction := PackSubnormal(f, src.normalExp, fraction);
    } else if src.normalExp > f.Bias() {
      exp := f.ExpMax();
      fraction := 0;
      PackedOverflows(f, src.normalExp, src.fraction);
    } else {
      exp, fraction := PackNormal(f, src.normalExp, fraction);
    }
    assert Spells(f, exp, fraction, PartsMagnitude(f, src.View()));
    hide Spells, PartsMagnitude, Encode;
    AssembledBits(f, sign, exp, fraction, PartsMagnitude(f, src.View()));
    bits := Low(fraction, f.fracBits);
    bits := bits + Low(exp, f.expBits) * Pow2(f.fracBits);
    bits := bits + sign % 2 * Pow2(f.fracBits + f.expBits);
  }

  /** The branch of `pack_d` for exponents below the normal range. */
  method PackSubnormal(f: Format, normalExp: int, fraction0: nat) returns (exp: int, fraction: nat)
    requires f.Valid() && normalExp < f.ExpMin()
    requires Implicit1(f) <= fraction0 <= 2 * Implicit1(f)
    ensures Spells(f, exp, fraction, PackedMagnitude(f, normalExp, fraction0))
  {
    hide Pow2, RoundDiv, Spells, StickyShift;
    fraction := fraction0;
    var shift := f.ExpMin() - normalExp;
    exp := 0;
    SubnormalShift(f, shift, fraction);
    if shift > f.wordBits - f.guards {
      fraction := 0;
    } else {
      fraction := StickyShift(fraction, shift);
    }
    ghost var z := fraction;
    hide Shr, Low;
    if Low(fraction, f.guards) == Pow2(f.guards - 1) {
      if Shr(fraction, f.guards) % 2 == 1 {
        fraction := fraction + Pow2(f.guards - 1);
      }
    } else {
      fraction := fraction + (Pow2(f.guards - 1) - 1);
    }
    ghost var y := fraction;
    assert y == AddGuardRound(f, z);
    if fraction >= Implicit1(f) {
      exp := exp + 1;
    }
    fraction := Shr(fraction, f.guards);
    SubnormalSpelled(f, z, y);
  }

  lemma SubnormalSpelled(f: Format, z: nat, y: nat)
    requires f.Valid() && z <= Implicit1(f) && y == AddGuardRound(f, z)
    ensures Spells(f, if y >= Implicit1(f) then 1 else 0, Shr(y, f.guards), RoundDiv(z, Pow2(f.guards)))
  {
    var p, d, q := Pow2(f.fracBits), Pow2(f.guards), RoundDiv(z, Pow2(f.guards));
    Pow2Add(f.fracBits, f.guards);
    Pow2Monotone(1, f.expBits);
    assert Pow2(1) == 2;
    hide Pow2, RoundDiv, AddGuardRound;
    GuardRoundIsRoundDiv(f, z);
    RoundDivBounds(z, p, d);
    SubnormalFields(y, p, d, q);
  }

  /** The branch of `pack_d` for exponents in the normal range. */
  method PackNormal(f: Format, normalExp: int, fraction0: nat) returns (exp: int, fraction: nat)
    requires f.Valid() && f.ExpMin() <= normalExp <= f.Bias()
    requires Implicit1(f) <= fraction0 <= 2 * Implicit1(f)
    ensures Spells(f, exp, fraction, PackedMagnitude(f, normalExp, fraction0))
  {
    assert Pow2(f.expBits) == 2 * Pow2(f.expBits - 1);
    hide Pow2, RoundDiv, Spells, PackedMagnitude, Shr, Low;
    fraction := fraction0;
    exp := normalExp + f.Bias();
    if Low(fraction, f.guards) == Pow2(f.guards - 1) {
      if Shr(fraction, f.guards) % 2 == 1 {
        fraction := fraction + Pow2(f.guards - 1);
      }
    } else {
      fraction := fraction + (Pow2(f.guards - 1) - 1);
    }
    ghost var y := fraction;
    assert y == AddGuardRound(f, fraction0);
    if fraction >= 2 * Implicit1(f) {
      fraction := fraction / 2;
      exp := exp + 1;
    }
    fraction := Shr(fraction, f.guards);
    NormalSpelled(f, normalExp - f.ExpMin(), fraction0, y);
  }

  lemma NormalSpelled(f: Format, b: nat, r: nat, y: nat)
    requires f.Valid() && b + f.ExpMin() <= f.Bias()
    requires Implicit1(f) <= r <= 2 * Implicit1(f) && y == AddGuardRound(f, r)
    ensures y >= 2 * Implicit1(f) ==> Spells(f, b + 2, Shr(y / 2, f.guards), PackedMagnitude(f, b + f.ExpMin(), r))
    ensures y < 2 * Implicit1(f) ==> Spells(f, b + 1, Shr(y, f.guards), PackedMagnitude(f, b + f.ExpMin(), r))
  {
    var p, d, q := Pow2(f.fracBits), Pow2(f.guards), RoundDiv(r, Pow2(f.guards));
    assert Pow2(f.expBits) == 2 * Pow2(f.expBits - 1);
    Pow2Add(f.fracBits, f.guards);
    hide Pow2, RoundDiv, AddGuardRound;
    GuardRoundIsRoundDiv(f, r);
    RoundDivBounds(r, p, d);
    RoundDivBounds(r, 2 * p, d);
    assert 2 * p * d == 2 * (p * d);
    NormalFields(b, y, p, d, q);
  }

  lemma PackedOverflows(f: Format, e: int, r: nat)
    requires f.Valid() && e > f.Bias()
    ensures PackedMagnitude(f, e, r) == f.Infinity()
  {
    assert Pow2(f.expBits - 1) >= 1;
  }

  lemma AssembledBits(f: Format, sign: nat, exp: int, fraction: nat, m: nat)
    requires sign <= 1 && Spells(f, exp, fraction, m)
    ensures exp >= 0
    ensures Low(fraction, f.fracBits) + Low(exp, f.expBits) * Pow2(f.fracBits)
            + sign % 2 * Pow2(f.fracBits + f.expBits) == Encode(f, sign, m)
    ensures m < Pow2(f.fracBits + f.expBits)
  {
    var p, d := Pow2(f.fracBits), Pow2(f.expBits);
    Pow2Add(f.fracBits, f.expBits);
    DivModUnique(exp, d, 0, exp);
    DivModFacts(fraction, p);
    IntScaleStrict(exp, d, p);
    assert d * p == p * d;
  }

  lemma SpecialFields(f: Format)
    requires f.Valid()
    ensures Spells(f, f.ExpMax(), 0, f.Infinity())
    ensures Spells(f, 0, 0, 0)
  {
    DivModUnique(0, Pow2(f.fracBits), 0, 0);
  }

  lemma NanFieldsPacked(f: Format, payload: nat)
    requires f.Valid() && payload < QuietBit(f)
    ensures Spells(f, f.ExpMax(), payload + QuietBit(f), QuietNan(f, payload))
  {
    assert Pow2(f.fracBits) == 2 * QuietBit(f);
    DivModUnique(payload + QuietBit(f), Pow2(f.fracBits), 0, payload + QuietBit(f));
  }

  /** What is left of a fraction shifted out of the normal range. */
  lemma SubnormalShift(f: Format, shift: nat, r: nat)
    requires f.Valid() && 1 <= shift && r <= 2 * Implicit1(f)
    ensures var z := if shift > f.wordBits - f.guards then 0 else StickyShift(r, shift);
      && RoundDiv(z, Pow2(f.guards)) == RoundDiv(r, Pow2(f.guards + shift))
      && z <= Implicit1(f)
  {
    if shift > f.wordBits - f.guards {
      Pow2Monotone(f.wordBits + 1, f.guards + shift);
      FractionFits(f);
      assert Pow2(f.wordBits + 1) == 2 * Pow2(f.wordBits);
      DivModUnique(r, Pow2(f.guards + shift), 0, r);
      DivModUnique(0, Pow2(f.guards), 0, 0);
    } else {
      RoundAfterSticky(r, shift, f.guards);
      StickyBelow(r, shift, Implicit1(f));
    }
  }

  lemma StickyBelow(r: nat, s: nat, b: nat)
    requires 1 <= s && r <= 2 * b
    ensures StickyShift(r, s) <= b
  {
    var d := Pow2(s);
    DivModFacts(r, d);
    assert d == 2 * Pow2(s - 1);
    var q := r / d;
    var qd := q * d;
    hide Pow2;
    if q >= b {
      IntScale(b, q, d);
      MulAtLeast(b, d, 2);
    }
  }

  /** The fields of a rounded subnormal fraction: the exponent field is one exactly when rounding
      carried into the leading one. */
  lemma SubnormalFields(y: nat, p: nat, d: nat, q: nat)
    requires p > 0 && d > 0 && q == y / d && q <= p
    ensures (if y >= p * d then 1 else 0) * p + q % p == q
  {
    DivModFacts(y, d);
    IntScaleStrictBoth(q, p, d);
    if q < p {
      DivModUnique(q, p, 0, q);
    } else {
      DivModUnique(q, p, 1, 0);
    }
  }

  /** The fields of a rounded normal fraction, also where rounding carried into the next binade. */
  lemma NormalFields(b: nat, y: nat, p: nat, d: nat, q: nat)
    requires p > 0 && d > 0 && q == y / d && p <= q <= 2 * p
    ensures y >= 2 * (p * d) ==> (b + 2) * p + y / 2 / d % p == b * p + q
    ensures y < 2 * (p * d) ==> (b + 1) * p + y / d % p == b * p + q
  {
    DivModFacts(y, d);
    IntScaleStrictBoth(q, 2 * p, d);
    assert 2 * p * d == 2 * (p * d);
    if y >= 2 * (p * d) {
      assert q == 2 * p;
      HalfQuotient(y, d, p);
      DivModUnique(p, p, 1, 0);
      Distribute(b, 2, p);
    } else {
      DivModUnique(q, p, 1, q - p);
      Distribute(b, 1, p);
    }
  }

  lemma HalfQuotient(y: nat, d: nat, p: nat)
    requires d > 0 && y / d == 2 * p
    ensures y / 2 / d == p
  {
    DivModFacts(y, d);
    var w, pd := y % d, p * d;
    assert 2 * p * d == 2 * pd;
    DivModUnique(y / 2, d, p, w / 2);
  }

  // Packing undoes unpacking.

  lemma EncodingSplit(f: Format, bits: nat)
    requires Encoding(f, bits)
    ensures SignBit(f, bits) <= 1
    ensures bits == Encode(f, SignBit(f, bits), Magnitude(f, bits))
  {
    var p := Pow2(f.fracBits + f.expBits);
    DivModFacts(bits, p);
    IntScaleStrictBoth(bits / p, 2, p);
  }

  lemma EncodeFields(f: Format, sign: nat, m: nat)
    requires sign <= 1 && m < Pow2(f.fracBits + f.expBits)
    ensures var bits := Encode(f, sign, m);
      Encoding(f, bits) && SignBit(f, bits) == sign && Magnitude(f, bits) == m
  {
    DivModUnique(Encode(f, sign, m), Pow2(f.fracBits + f.expBits), sign, m);
  }

  /** An unpacked number packs to the rounding of its own value. */
  lemma UnpackedRounds(f: Format, p: Parts)
    requires f.Valid() && Unpacked(f, p)
    ensures MagnitudeRounds(f, PartsValue(f, p), PackedMagnitude(f, p.normalExp, p.fraction))
  {
    hide Pow2, PackedMagnitude;
    PackedRounds(f, p.normalExp, p.fraction, p.fraction as real);
  }

  /** The encoding with a NaN's quiet bit set, its sign and payload unchanged. */
  function Quieted(f: Format, bits: nat): nat
    requires f.Valid()
  {
    Encode(f, SignBit(f, bits), QuietNan(f, Payload(f, bits)))
  }

  /** The NaN made for a sign and a payload has them, and is quiet. */
  lemma QuietNanIs(f: Format, sign: nat, payload: nat)
    requires f.Valid() && sign <= 1 && payload < QuietBit(f)
    ensures var r := Encode(f, sign, QuietNan(f, payload));
      && Encoding(f, r) && IsNaN(f, r) && SignBit(f, r) == sign && Payload(f, r) == payload
      && Magnitude(f, r) % Pow2(f.fracBits) >= QuietBit(f)
  {
    hide Pow2;
    var q, p, m := QuietBit(f), Pow2(f.fracBits), QuietNan(f, payload);
    Pow2Halves(f.fracBits);
    Pow2Add(f.fracBits, f.expBits);
    NanBound(f.ExpMax(), p, q + payload);
    EncodeFields(f, sign, m);
    DivModUnique(m, p, f.ExpMax(), q + payload);
    DivModUnique(q + payload, q, 1, payload);
  }

  lemma NanBound(e: nat, p: nat, x: nat)
    requires x < p
    ensures e * p + x < p * (e + 1)
  {
  }

  /** Quieting keeps a quiet NaN as it is. */
  lemma QuietStays(f: Format, bits: nat)
    requires f.Valid() && Encoding(f, bits) && IsNaN(f, bits) && Magnitude(f, bits) % Pow2(f.fracBits) >= QuietBit(f)
    ensures Quieted(f, bits) == bits
  {
    hide Pow2;
    var q, p, m := QuietBit(f), Pow2(f.fracBits), Magnitude(f, bits);
    EncodingSplit(f, bits);
    Pow2Halves(f.fracBits);
    Pow2Add(f.fracBits, f.expBits);
    DivModFacts(m, p);
    DivModFacts(bits, Pow2(f.fracBits + f.expBits));
    TopField(m, p, m / p, m % p, f.ExpMax());
    DivModUnique(m % p, q, 1, m % p - q);
  }

  lemma TopField(m: nat, p: nat, e: nat, x: nat, top: nat)
    requires x < p && m == e * p + x && top * p < m < p * (top + 1)
    ensures e == top
  {
    IntScaleStrictBoth(e, top, p);
    IntScaleStrictBoth(e, top + 1, p);
  }

  /** `pack_d` after `unpack_d` is the identity, except that a NaN becomes quiet. */
  lemma PackUndoesUnpack(f: Format, bits: nat, p: Parts)
    requires f.Valid() && Encoding(f, bits) && Decodes(f, bits, p)
    ensures Encode(f, p.sign, PartsMagnitude(f, p)) == if IsNaN(f, bits) then Quieted(f, bits) else bits
  {
    EncodingSplit(f, bits);
    var m := Magnitude(f, bits);
    hide Pow2, PackedMagnitude, MagnitudeValue, PartsValue, Magnitude, Encode, SignBit;
    if IsNaN(f, bits) {
      PayloadShifted(f, bits, p.fraction);
    } else if IsFinite(f, bits) && !IsZero(f, bits) {
      UnpackedRounds(f, p);
      ExactRounds(f, PartsValue(f, p), PackedMagnitude(f, p.normalExp, p.fraction));
      ImplicitPositive(f);
    }
  }

  lemma ImplicitPositive(f: Format)
    ensures Implicit1(f) > 0
  {
  }

  lemma PayloadShifted(f: Format, bits: nat, fraction: nat)
    requires f.Valid() && fraction == Payload(f, bits) * Pow2(f.guards)
    ensures Shr(fraction, f.guards) % QuietBit(f) == Payload(f, bits)
  {
    var x, q := Payload(f, bits), QuietBit(f);
    DivModUnique(fraction, Pow2(f.guards), x, 0);
    DivModFacts(Magnitude(f, bits) % Pow2(f.fracBits), q);
    DivModUnique(x, q, 0, x);
  }

  /** The source's `makenan`. */
  function MakeNan(): Parts {
    Parts(SNan, 0, 0, 0)
  }

  lemma DefaultNan(f: Format)
    requires f.Valid()
    ensures PartsMagnitude(f, MakeNan()) == QuietNan(f, 0)
  {
    DivModUnique(0, Pow2(f.guards), 0, 0);
    DivModUnique(0, QuietBit(f), 0, 0);
  }

  lemma DecodedFields(f: Format, bits: nat, p: Parts)
    requires f.Valid() && Encoding(f, bits) && Decodes(f, bits, p)
    ensures p.sign <= 1 && (p.cls == Number ==> Unpacked(f, p))
  {
    hide Pow2, Unpacked, MagnitudeValue, PartsValue, Magnitude;
    EncodingSplit(f, bits);
  }

  lemma ZeroValue(f: Format, m: nat)
    requires f.Valid()
    ensures m == 0 <==> MagnitudeValue(f, m) == 0.0
    ensures MagnitudeValue(f, m) >= 0.0
  {
    MagnitudeOf(f, 0, 0);
    LdexpZero(f.UnitExp());
    if m > 0 {
      MagnitudeStrictlyMonotone(f, 0, m);
    }
  }
}
