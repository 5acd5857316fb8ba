/** Why multiplying by a magic number divides.

`a` is the absolute value of the divisor, `power` is 2^p, and the multiplier `mu` overshoots
`power / a` by `e / a`.  `nc` is the largest dividend up to `top` with remainder `a - 1`, the one that
tolerates the least overshoot. */
module MagicTheory {
  import opened Words

  /** `nc` is the largest number not above `top` whose remainder by `a` is `a - 1`. */
  predicate Critical(a: int, top: int, nc: int) {
    0 < a && nc <= top < nc + a && nc % a == a - 1 && a - 1 <= nc && top <= 2 * nc
  }

  lemma CriticalOf(a: int, t: int)
    requires 1 <= a <= t
    ensures Critical(a, t - 1, t - 1 - t % a)
  {
    QuotientAtLeastOne(a, t);
    CriticalFrom(a, t, t / a, t % a);
  }

  lemma QuotientAtLeastOne(a: int, t: int)
    requires 1 <= a <= t
    ensures t / a >= 1 && t == (t / a) * a + t % a
  {
    CancelFactor(0, t / a, a) by {
      assert t == (t / a) * a + t % a;
    }
  }

  lemma CriticalFrom(a: int, t: int, q: int, r: int)
    requires 1 <= a && q >= 1 && t == q * a + r && 0 <= r < a
    ensures Critical(a, t - 1, t - 1 - r)
  {
    assert q * a - 1 == (q - 1) * a + (a - 1);
    DivModUnique(q * a - 1, a, q - 1, a - 1);
    MulAtMost(1, q, a);
  }

  /** The exit test compares 2^p with the critical product without ever forming it. */
  lemma ExitTest(power: int, nc: int, delta: int, q: int, r: int)
    requires power == q * nc + r && 0 <= r < nc
    ensures q < delta || (q == delta && r == 0) <==> power <= nc * delta
  {
    assert nc * delta == delta * nc;
    if q < delta {
      MulStep(q, delta, nc);
    } else if delta < q {
      MulStep(delta, q, nc);
    }
  }

  /** Congruent numbers less than the modulus apart are ordered like their quotients. */
  lemma CongruentAtMost(a: int, x: int, y: int)
    requires a > 0 && x % a == y % a && x < y + a
    ensures x <= y
  {
    assert x == (x / a) * a + x % a && y == (y / a) * a + y % a;
    if x / a > y / a {
      MulStep(y / a, x / a, a);
    } else {
      MulAtMost(x / a, y / a, a);
    }
  }

  /** A dividend up to `top` times the overshoot stays clear of the next multiple of `power`. */
  lemma OvershootBounded(a: int, top: int, nc: int, e: int, power: int, k: int)
    requires Critical(a, top, nc)
    requires 0 <= e && nc * e < power
    requires 0 <= k <= top
    ensures k * e < (a - k % a) * power
  {
    assert nc * e >= 0 by { MulAtMost(0, nc, e); }
    if k % a == a - 1 {
      CongruentAtMost(a, k, nc);
      MulAtMost(k, nc, e);
    } else {
      TwiceCritical(k, nc, e, power, a - k % a);
    }
  }

  /** The product lies strictly inside the quotient's bucket, given the bound on the overshoot. */
  lemma ProductInBucket(a: int, mu: int, e: int, power: int, k: int)
    requires a > 0 && power > 0 && mu * a == power + e
    ensures (mu * k - (k / a) * power) * a == (k % a) * power + k * e
  {
    var q, r := k / a, k % a;
    assert k == q * a + r;
    calc {
      (mu * k - q * power) * a;
      (mu * a) * k - (q * a) * power;
      (power + e) * k - (k - r) * power;
      r * power + k * e;
    }
  }

  lemma BucketBounds(a: int, power: int, rest: int, r: int, overshoot: int)
    requires a > 0 && power > 0 && 0 <= r && 0 <= overshoot < (a - r) * power
    requires rest * a == r * power + overshoot
    ensures 0 <= rest < power
  {
    assert (a - r) * power == a * power - r * power;
    assert power * a == a * power;
    MulAtMost(0, r, power);
    CancelFactor(rest, power, a);
    CancelFactor(-1, rest, a);
  }

  /** Non-negative dividends: the high part of the product is the quotient. */
  lemma MultiplierFloor(a: int, top: int, nc: int, mu: int, e: int, power: int, k: int)
    requires Critical(a, top, nc) && power > 0
    requires mu * a == power + e && 0 <= e && nc * e < power
    requires 0 <= k <= top
    ensures (mu * k) / power == k / a
  {
    var rest := mu * k - (k / a) * power;
    OvershootBounded(a, top, nc, e, power, k);
    ProductInBucket(a, mu, e, power, k);
    MulAtMost(0, k, e);
    BucketBounds(a, power, rest, k % a, k * e);
    DivModUnique(mu * k, power, k / a, rest);
  }

  /** Negated products: one below the negated quotient, so adding the sign bit truncates. */
  lemma MultiplierCeil(a: int, mu: int, e: int, power: int, k: int)
    requires a > 0 && power > 0
    requires mu * a == power + e && 1 <= e
    requires 1 <= k && k * e <= (a - k % a) * power
    ensures (-(mu * k)) / power == -(k / a) - 1
  {
    var rest := mu * k - (k / a) * power;
    ProductInBucket(a, mu, e, power, k);
    assert (a - k % a) * power == a * power - (k % a) * power;
    CancelFactor(rest, power + 1, a) by {
      assert rest * a <= power * a;
    }
    assert rest * a > 0 by {
      assert (k % a) * power >= 0 && k * e >= 1;
    }
    CancelFactor(0, rest, a);
    DivModUnique(-(mu * k), power, -(k / a) - 1, power - rest);
  }

  /** The one dividend above `top` that a positive divisor meets: the most negative word, whose
      absolute value divides `power`. */
  lemma OvershootAtMostNegative(a: int, t: int, nc: int, e: int, power: int, c: int)
    requires Critical(a, t - 1, nc) && t % 2 == 0
    requires power == c * t && c >= 1
    requires 1 <= e <= a && nc * e < power
    requires (power + e) % a == 0
    ensures t * e <= (a - t % a) * power
  {
    if t % a == a - 1 {
      OvershootDivides(a, t, e, power, c);
      MulAtMost(e, c, t);
      assert t * e == e * t;
    } else {
      TwiceCritical(t, nc, e, power, a - t % a);
    }
  }

  lemma TwiceCritical(k: int, nc: int, e: int, power: int, m: int)
    requires 0 <= e && k <= 2 * nc && 0 <= nc * e < power && 2 <= m
    ensures k * e < m * power
  {
    MulAtMost(k, 2 * nc, e);
    assert (2 * nc) * e == 2 * (nc * e);
    MulAtMost(2, m, power);
  }

  /** `t` is -1 modulo `a`, so `power` is -c and `e` is c modulo `a`; `e <= a` leaves only `e <= c`. */
  lemma OvershootDivides(a: int, t: int, e: int, power: int, c: int)
    requires 0 < a && t % a == a - 1 && power == c * t && c >= 1
    requires 1 <= e <= a && (power + e) % a == 0
    ensures e <= c
  {
    var x, y := t / a + 1, (power + e) / a;
    assert t == x * a - 1;
    assert power + e == y * a;
    assert c * t == c * (x * a) - c;
    assert c * (x * a) == (c * x) * a;
    assert (y - c * x) * a == e - c;
    if e > c {
      CancelFactor(0, y - c * x, a);
      MulAtMost(1, y - c * x, a);
    }
  }
}
