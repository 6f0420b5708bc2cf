/** Signed double-word division (plugin-libc/libgcc/libgcc2.c: `__divdi3`, `__moddi3`, `__divmoddi4`). */
module SignedDivision {
  import opened Powers
  import opened Words
  import opened WordDivision

  /** Which `__udivmoddi4` the target was built with. */
  datatype Divider = Shifting | Normalizing(normalize: bool)

  /** Division that truncates toward zero: the remainder is smaller than the divisor and has the
      dividend's sign. */
  predicate IsTruncatedDiv(u: int, v: int, q: int, r: int) {
    && u == q * v + r
    && Magnitude(r) < Magnitude(v)
    && (r == 0 || (r < 0 <==> u < 0))
  }

  function Magnitude(x: int): nat {
    if x < 0 then -x else x
  }

  /** Unsigned division of double words, by either variant; `w` is half the double word's width. */
  method UdivMod(w: nat, how: Divider, n: nat, d: nat) returns (q: nat, r: nat)
    requires w >= 1 && n < Pow2(2 * w) && 0 < d < Pow2(2 * w)
    ensures q < Pow2(2 * w) && r < Pow2(2 * w) && IsDivMod(n, d, q, r)
  {
    hide Pow2, Pair, Wrap, Quotient, IsDivMod;
    match how
    case Shifting =>
      q, r := UdivModShifting(2 * w, n, d);
    case Normalizing(normalize) =>
      var base := Pow2(w);
      SplitDoubleWord(w, n);
      SplitDoubleWord(w, d);
      PairZero(base, 0);
      var q1, q0, r1, r0 := UdivModNormalizing(w, normalize, Quotient(base, n), Wrap(base, n), Quotient(base, d), Wrap(base, d));
      JoinDoubleWord(w, q1, q0);
      JoinDoubleWord(w, r1, r0);
      q, r := Pair(base, q1, q0), Pair(base, r1, r0);
  }

  lemma SplitDoubleWord(w: nat, n: nat)
    requires n < Pow2(2 * w)
    ensures Quotient(Pow2(w), n) < Pow2(w)
    ensures Pair(Pow2(w), Quotient(Pow2(w), n), Wrap(Pow2(w), n)) == n
  {
    SplitWord(Pow2(w), n);
    Pow2Add(w, w);
    assert w + w == 2 * w;
    PairBound(Pow2(w), Quotient(Pow2(w), n), Wrap(Pow2(w), n));
  }

  lemma JoinDoubleWord(w: nat, h: nat, l: nat)
    requires h < Pow2(w) && l < Pow2(w)
    ensures 0 <= Pair(Pow2(w), h, l) < Pow2(2 * w)
  {
    Pow2Add(w, w);
    assert w + w == 2 * w;
    PairBound(Pow2(w), h, l);
  }

  /** Negation of the operand's words when it is negative. */
  lemma NegatedOperand(b: nat, x: int)
    requires b >= 1 && IsSigned(b, x)
    ensures Pow2(b) == 2 * Pow2(b - 1)
    ensures x < 0 ==> Wrap(Pow2(b), -x) == Magnitude(x)
    ensures Magnitude(x) <= Pow2(b - 1)
    ensures Wrap(Pow2(b), x) == if x < 0 then x + Pow2(b) else x
  {
    WrapOnce(Pow2(b), x);
    WrapOnce(Pow2(b), -x);
  }

  /** Reading a result word, negated if asked, as signed. */
  lemma SignedResult(b: nat, x: nat, negate: bool)
    requires b >= 1 && x <= Pow2(b - 1)
    ensures var y := if negate then Wrap(Pow2(b), -(x as int)) else x;
      ToSigned(b, y) == if x == Pow2(b - 1) then -(Pow2(b - 1) as int) else if negate then -(x as int) else x
  {
    WrapOnce(Pow2(b), -(x as int));
  }

  /** Signs put back on an unsigned division give truncated division. */
  lemma SignsRestored(u: int, v: int, q: nat, r: nat)
    requires v != 0 && IsDivMod(Magnitude(u), Magnitude(v), q, r)
    ensures IsTruncatedDiv(u, v, if (u < 0) != (v < 0) then -(q as int) else q, if u < 0 then -(r as int) else r)
  {
    assert (-(q as int)) * v == -(q * v) && q * (-v) == -(q * v);
  }

  lemma QuotientMagnitude(u: int, v: int, q: nat, r: nat, h: nat)
    requires v != 0 && IsDivMod(Magnitude(u), Magnitude(v), q, r)
    requires Magnitude(u) <= h && Magnitude(v) <= h
    ensures q <= h && r < h
    ensures q == h <==> Magnitude(u) == h && Magnitude(v) == 1
  {
    MulAtLeast(q, Magnitude(v), 1);
    if Magnitude(v) >= 2 {
      MulAtLeast(q, Magnitude(v), 2);
    }
  }

  /** The least number divided by minus one does not fit. */
  lemma LeastByMinusOne(h: nat, q: int, r: int)
    ensures IsTruncatedDiv(-(h as int), -1, q, r) ==> q == h && r == 0
  {
  }

  /** The source's `__divmoddi4` on signed values of `2 * w` bits. Quotient and remainder are the
      truncated ones for every input but the least number divided by minus one, where the quotient wraps
      around to the least number. */
  method DivMod(w: nat, how: Divider, u: int, v: int) returns (q: int, r: int)
    requires w >= 1 && IsSigned(2 * w, u) && IsSigned(2 * w, v) && v != 0
    ensures IsSigned(2 * w, q) && IsSigned(2 * w, r)
    ensures IsTruncatedDiv(u, v, q, r) <==> !(u == -(Pow2(2 * w - 1) as int) && v == -1)
    ensures u == -(Pow2(2 * w - 1) as int) && v == -1 ==> q == u && r == 0
  {
    hide Pow2, Wrap, IsDivMod, ToSigned;
    NegatedOperand(2 * w, u);
    NegatedOperand(2 * w, v);
    var c1, c2 := false, false;
    var uu, vv := Wrap(Pow2(2 * w), u), Wrap(Pow2(2 * w), v);
    if u < 0 {
      c1, c2 := !c1, !c2;
      uu := Wrap(Pow2(2 * w), -u);
    }
    if v < 0 {
      c1 := !c1;
      vv := Wrap(Pow2(2 * w), -v);
    }
    var qq, rr := UdivMod(w, how, uu, vv);
    QuotientMagnitude(u, v, qq, rr, Pow2(2 * w - 1));
    SignedResult(2 * w, qq, c1);
    SignedResult(2 * w, rr, c2);
    SignsRestored(u, v, qq, rr);
    LeastByMinusOne(Pow2(2 * w - 1), ToSigned(2 * w, if c1 then Wrap(Pow2(2 * w), -(qq as int)) else qq), 0);
    if c1 {
      qq := Wrap(Pow2(2 * w), -(qq as int));
    }
    if c2 {
      rr := Wrap(Pow2(2 * w), -(rr as int));
    }
    q, r := ToSigned(2 * w, qq), ToSigned(2 * w, rr);
  }

  /** The source's `__divdi3`. */
  method Div(w: nat, how: Divider, u: int, v: int) returns (q: int)
    requires w >= 1 && IsSigned(2 * w, u) && IsSigned(2 * w, v) && v != 0
    ensures IsSigned(2 * w, q)
    ensures IsTruncatedDiv(u, v, q, u - q * v) <==> !(u == -(Pow2(2 * w - 1) as int) && v == -1)
    ensures u == -(Pow2(2 * w - 1) as int) && v == -1 ==> q == u
  {
    hide Pow2, Wrap, IsDivMod, ToSigned;
    NegatedOperand(2 * w, u);
    NegatedOperand(2 * w, v);
    var c := false;
    var uu, vv := Wrap(Pow2(2 * w), u), Wrap(Pow2(2 * w), v);
    if u < 0 {
      c := !c;
      uu := Wrap(Pow2(2 * w), -u);
    }
    if v < 0 {
      c := !c;
      vv := Wrap(Pow2(2 * w), -v);
    }
    var x, rr := UdivMod(w, how, uu, vv);
    QuotientMagnitude(u, v, x, rr, Pow2(2 * w - 1));
    SignedResult(2 * w, x, c);
    SignsRestored(u, v, x, rr);
    if c {
      x := Wrap(Pow2(2 * w), -(x as int));
    }
    q := ToSigned(2 * w, x);
    LeastByMinusOne(Pow2(2 * w - 1), q, u - q * v);
  }

  /** The source's `__moddi3`: right on every input, the least number by minus one included. */
  method Mod(w: nat, how: Divider, u: int, v: int) returns (r: int, ghost q: int)
    requires w >= 1 && IsSigned(2 * w, u) && IsSigned(2 * w, v) && v != 0
    ensures IsSigned(2 * w, r) && IsTruncatedDiv(u, v, q, r)
  {
    hide Pow2, Wrap, IsDivMod, ToSigned;
    NegatedOperand(2 * w, u);
    NegatedOperand(2 * w, v);
    var c := false;
    var uu, vv := Wrap(Pow2(2 * w), u), Wrap(Pow2(2 * w), v);
    if u < 0 {
      c := !c;
      uu := Wrap(Pow2(2 * w), -u);
    }
    if v < 0 {
      vv := Wrap(Pow2(2 * w), -v);
    }
    var x, rr := UdivMod(w, how, uu, vv);
    QuotientMagnitude(u, v, x, rr, Pow2(2 * w - 1));
    SignedResult(2 * w, rr, c);
    SignsRestored(u, v, x, rr);
    q := if (u < 0) != (v < 0) then -(x as int) else x;
    if c {
      rr := Wrap(Pow2(2 * w), -(rr as int));
    }
    r := ToSigned(2 * w, rr);
  }
}
