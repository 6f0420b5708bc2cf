/** Powers of two over the integers and the reals, and the few facts about quotients and
    remainders the other modules rest on. Words are natural numbers below a power of two. */
module Powers {

  function Pow2(n: nat): (p: nat)
    ensures p > 0
  {
    if n == 0 then 1 else 2 * Pow2(n - 1)
  }

  lemma {:induction false} Pow2Add(a: nat, b: nat)
    ensures Pow2(a + b) == Pow2(a) * Pow2(b)
  {
    if a == 0 {
    } else {
      Pow2Add(a - 1, b);
      assert Pow2(a + b) == 2 * Pow2(a - 1 + b);
      assert Pow2(a) * Pow2(b) == 2 * (Pow2(a - 1) * Pow2(b));
    }
  }

  lemma Pow2Halves(n: nat)
    requires n >= 1
    ensures Pow2(n) == 2 * Pow2(n - 1)
    ensures n >= 2 ==> Pow2(n) == 4 * Pow2(n - 2)
  {
  }

  lemma Pow2Monotone(a: nat, b: nat)
    requires a <= b
    ensures Pow2(a) <= Pow2(b)
    ensures a < b ==> 2 * Pow2(a) <= Pow2(b)
    decreases b
  {
    if a < b {
      Pow2Monotone(a, b - 1);
    }
  }

  lemma Pow2Reflects(a: nat, b: nat)
    requires Pow2(a) < Pow2(b)
    ensures a < b
  {
    if b <= a {
      Pow2Monotone(b, a);
    }
  }

  /** The bits of `x` from position `n` up: `x >> n`. */
  function Shr(x: nat, n: nat): nat {
    DivModFacts(x, Pow2(n));
    x / Pow2(n)
  }

  /** The `n` lowest bits of `x`. */
  function Low(x: nat, n: nat): nat {
    x % Pow2(n)
  }

  /** `Pow2(b)` is `Pow2(a)` times `Pow2(b - a)`. */
  lemma Pow2Split(a: nat, b: nat)
    requires a <= b
    ensures Pow2(b) == Pow2(b - a) * Pow2(a) == Pow2(a) * Pow2(b - a)
  {
    Pow2Add(b - a, a);
  }

  function Abs(x: real): real {
    if x < 0.0 then -x else x
  }

  /** The real `y` times two to the power `e`. */
  function Ldexp(y: real, e: int): real
    decreases if e >= 0 then e else -e
  {
    if e == 0 then y else if e > 0 then Ldexp(2.0 * y, e - 1) else Ldexp(y / 2.0, e + 1)
  }

  lemma {:induction false} LdexpStep(y: real, e: int)
    ensures Ldexp(y, e + 1) == Ldexp(2.0 * y, e)
    ensures Ldexp(2.0 * y, e) == 2.0 * Ldexp(y, e)
    decreases if e >= 0 then e else -e
  {
    if e > 0 {
      LdexpStep(2.0 * y, e - 1);
    } else if e < 0 {
      LdexpStep(y / 2.0, e + 1);
    }
  }

  lemma {:induction false} LdexpAdd(y: real, a: int, b: int)
    ensures Ldexp(Ldexp(y, a), b) == Ldexp(y, a + b)
    decreases if b >= 0 then b else -b
  {
    if b > 0 {
      LdexpStep(y, a + b - 1);
      LdexpStep(y, a);
      LdexpAdd(2.0 * y, a, b - 1);
    } else if b < 0 {
      LdexpStep(y / 2.0, a + b);
      LdexpStep(y / 2.0, a);
      LdexpAdd(y / 2.0, a, b + 1);
    }
  }

  lemma {:induction false} LdexpSum(x: real, y: real, e: int)
    ensures Ldexp(x, e) + Ldexp(y, e) == Ldexp(x + y, e)
    ensures Ldexp(x, e) - Ldexp(y, e) == Ldexp(x - y, e)
    decreases if e >= 0 then e else -e
  {
    if e > 0 {
      LdexpSum(2.0 * x, 2.0 * y, e - 1);
    } else if e < 0 {
      LdexpSum(x / 2.0, y / 2.0, e + 1);
    }
  }

  lemma {:induction false} LdexpOrder(x: real, y: real, e: int)
    ensures x < y <==> Ldexp(x, e) < Ldexp(y, e)
    ensures x == y <==> Ldexp(x, e) == Ldexp(y, e)
    decreases if e >= 0 then e else -e
  {
    if e > 0 {
      LdexpOrder(2.0 * x, 2.0 * y, e - 1);
    } else if e < 0 {
      LdexpOrder(x / 2.0, y / 2.0, e + 1);
    }
  }

  function RealTimes(x: real, y: real): real {
    x * y
  }

  lemma LdexpDistance(x: real, y: real, e: int)
    ensures Abs(Ldexp(x, e) - Ldexp(y, e)) == Ldexp(Abs(x - y), e)
  {
    LdexpSum(x, y, e);
    LdexpSum(y, x, e);
    LdexpOrder(x, y, e);
  }

  /** Every real is some real times a given power of two. */
  lemma LdexpInverse(x: real, e: int)
    ensures Ldexp(Ldexp(x, -e), e) == x
  {
    LdexpAdd(x, -e, e);
  }

  lemma {:induction false} LdexpGrows(x: real, a: int, b: int)
    requires 0.0 <= x && a <= b
    ensures Ldexp(x, a) <= Ldexp(x, b)
    decreases b - a
  {
    if a < b {
      LdexpGrows(x, a, b - 1);
      LdexpStep(x, b - 1);
      LdexpOrder(0.0, x, b - 1);
      LdexpZero(b - 1);
    }
  }

  lemma {:induction false} LdexpZero(e: int)
    ensures Ldexp(0.0, e) == 0.0
    decreases if e >= 0 then e else -e
  {
    if e > 0 {
      LdexpZero(e - 1);
    } else if e < 0 {
      LdexpZero(e + 1);
    }
  }

  lemma {:induction false} LdexpNat(y: int, n: nat)
    ensures Ldexp(y as real, n) == (y * Pow2(n)) as real
    decreases n
  {
    if n > 0 {
      LdexpNat(2 * y, n - 1);
      assert 2.0 * (y as real) == (2 * y) as real;
      assert Ldexp(y as real, n) == Ldexp((2 * y) as real, n - 1);
      DoubledFactor(y, Pow2(n - 1));
    }
  }

  lemma DoubledFactor(y: int, p: int)
    ensures 2 * y * p == y * (2 * p)
  {
  }

  /** The exponents of a product add up. */
  lemma LdexpProduct(x: real, a: int, y: real, b: int)
    ensures RealTimes(Ldexp(x, a), Ldexp(y, b)) == Ldexp(RealTimes(x, y), a + b)
  {
    var v, xy := Ldexp(y, b), RealTimes(x, y);
    LdexpFactor(x, a, v);
    LdexpFactor(y, b, x);
    LdexpAdd(xy, b, a);
    RealTimesCommutes(x, y);
    RealTimesCommutes(x, v);
    hide *;
  }

  lemma RealTimesCommutes(x: real, y: real)
    ensures RealTimes(x, y) == RealTimes(y, x)
  {
  }

  lemma {:induction false} LdexpFactor(x: real, e: int, z: real)
    ensures RealTimes(Ldexp(x, e), z) == Ldexp(RealTimes(x, z), e)
    decreases if e >= 0 then e else -e
  {
    if e > 0 {
      var d, y := 2.0 * x, x * z;
      LdexpFactor(d, e - 1, z);
      assert d * z == 2.0 * y;
      assert Ldexp(y, e) == Ldexp(2.0 * y, e - 1);
      assert Ldexp(x, e) == Ldexp(d, e - 1);
    } else if e < 0 {
      var h, y := x / 2.0, x * z;
      LdexpFactor(h, e + 1, z);
      assert h * z == y / 2.0 by {
        assert 2.0 * h == x;
        assert 2.0 * (h * z) == (2.0 * h) * z;
      }
      assert Ldexp(y, e) == Ldexp(y / 2.0, e + 1);
      assert Ldexp(x, e) == Ldexp(h, e + 1);
    }
  }

  /** Multiplying both sides of a comparison of reals by a positive factor. */
  lemma RealScale(a: real, b: real, p: real)
    requires p > 0.0
    ensures a < b <==> a * p < b * p
    ensures a <= b <==> a * p <= b * p
    ensures a == b <==> a * p == b * p
  {
    assert (b - a) * p == b * p - a * p;
    if a < b {
      assert (b - a) * p > 0.0;
    } else if b < a {
      assert (a - b) * p > 0.0;
      assert (a - b) * p == a * p - b * p;
    }
  }

  lemma IntScale(a: int, b: int, p: int)
    requires p > 0
    ensures a < b <==> a * p < b * p
    ensures a <= b <==> a * p <= b * p
    ensures a == b <==> a * p == b * p
  {
    if a < b {
      IntScaleStrict(a, b, p);
    } else if b < a {
      IntScaleStrict(b, a, p);
    }
  }

  lemma IntScaleStrict(a: int, b: int, p: int)
    requires p > 0 && a < b
    ensures a * p + p <= b * p
  {
    var d := b - a - 1;
    assert d * p >= 0;
    assert b * p == a * p + p + d * p;
  }

  lemma IntScaleStrictBoth(a: int, b: int, p: int)
    requires p > 0
    ensures a < b ==> a * p + p <= b * p
    ensures b < a ==> b * p + p <= a * p
  {
    if a < b {
      IntScaleStrict(a, b, p);
    } else if b < a {
      IntScaleStrict(b, a, p);
    }
  }

  lemma MulAtLeast(q: nat, d: nat, k: nat)
    requires k <= d
    ensures k * q <= q * d
  {
    var x := d - k;
    assert q * d == q * k + q * x;
    assert q * x >= 0;
  }

  /** A quotient and a remainder in range are the quotient and the remainder. */
  lemma DivModUnique(x: int, d: int, q: int, r: int)
    requires 0 <= r < d
    requires x == q * d + r
    ensures x / d == q && x % d == r
  {
    assert x == (x / d) * d + x % d;
    if q < x / d {
      IntScaleStrict(q, x / d, d);
      assert false;
    } else if x / d < q {
      IntScaleStrict(x / d, q, d);
      assert false;
    }
  }

  lemma DivModFacts(x: int, d: int)
    requires d > 0
    ensures x == (x / d) * d + x % d
    ensures 0 <= x % d < d
    ensures 0 <= x ==> 0 <= x / d
  {
    if 0 <= x && x / d < 0 {
      IntScale(x / d, 0, d);
    }
  }

  /** Removing a multiple of the modulus. */
  lemma ModDrop(x: int, k: int, d: int)
    requires d > 0
    ensures (x + k * d) % d == x % d
    ensures (x + k * d) / d == x / d + k
  {
    DivModFacts(x, d);
    assert x + k * d == (x / d + k) * d + x % d;
    DivModUnique(x + k * d, d, x / d + k, x % d);
  }

  /** A quotient of a quotient. */
  lemma DivDiv(x: nat, c: nat, d: nat)
    requires c > 0 && d > 0
    ensures c * d > 0
    ensures x / c / d == x / (c * d)
    ensures x % (c * d) == (x / c % d) * c + x % c
  {
    DivModFacts(x, c);
    DivModFacts(x / c, d);
    var a, b, q, r := x / c, x % c, x / c / d, x / c % d;
    assert x == a * c + b && a == q * d + r;
    assert x == q * (c * d) + (r * c + b) by {
      assert (q * d + r) * c == q * (c * d) + r * c;
    }
    assert r * c + b < c * d by {
      IntScaleStrict(r, d, c);
    }
    assert c * d > 0;
    DivModUnique(x, c * d, q, r * c + b);
  }
}
