/** Unsigned division by a constant: a `w`-bit multiplier, possibly with an extra 2^w (`add`), and a shift.
The code generator has the instance w = 64. */
module UnsignedMagic {
  import opened Words
  import opened MagicTheory

  /** What the loop needs to know about the divisor and the critical dividend. */
  predicate SearchInput(w: nat, d: int, nc: int) {
    && w >= 2 && 1 <= d < Pow2(w) && d - 1 <= nc < Pow2(w) && Pow2(w) - 1 <= 2 * nc
  }

  /** While the loop goes on, either the first quotient is exact and 2^p does not exceed the critical
      product, or the first quotient has wrapped, which only a divisor above 2^(w-1) lets happen. */
  ghost predicate GoesOn(w: nat, d: int, nc: int, p: nat, quotient: int, rest: int)
    requires p >= w - 1 >= 0
  {
    if quotient < Pow2(w) then p == w - 1 || Pow2(p) <= nc * (d - 1 - rest) else d > Pow2(w - 1)
  }

  /** Wrapping before or after doubling gives the same word. */
  lemma WrapDouble(w: nat, x: int, c: int)
    ensures Wrap(w, 2 * Wrap(w, x) + c) == Wrap(w, 2 * x + c)
  {
    var k := x / Pow2(w);
    assert x == k * Pow2(w) + Wrap(w, x);
    Shifted(2 * Wrap(w, x) + c, Pow2(w), 2 * k);
    assert (2 * k) * Pow2(w) == 2 * (k * Pow2(w));
  }

  /** One doubling of the pair for 2^p; the quotient may wrap, the remainder may not. */
  method DoubleWrapped(w: nat, q: int, r: int, nc: int, ghost power: int, ghost exact: int)
    returns (q': int, r': int, ghost exact': int)
    requires 0 < nc < Pow2(w) && 0 <= r < nc && 0 <= exact
    requires power == exact * nc + r && q == Wrap(w, exact)
    ensures 2 * power == exact' * nc + r' && 0 <= r' < nc && q' == Wrap(w, exact')
    ensures 2 * exact <= exact' <= 2 * exact + 1
  {
    hide Pow2, Wrap;
    assert (2 * exact + 1) * nc == 2 * (exact * nc) + nc && (2 * exact) * nc == 2 * (exact * nc);
    if r >= nc - r {
      WrapDouble(w, exact, 1);
      WrapId(w, 2 * r - nc);
      exact' := 2 * exact + 1;
      q' := Wrap(w, 2 * q + 1);
      r' := Wrap(w, 2 * r - nc);
    } else {
      WrapDouble(w, exact, 0);
      WrapId(w, 2 * r);
      exact' := 2 * exact;
      q' := Wrap(w, 2 * q);
      r' := Wrap(w, 2 * r);
    }
  }

  /** One doubling of the pair for 2^p - 1; the indicator records that the multiplier needs another bit. */
  method DoubleIndicated(w: nat, q: int, r: int, d: int, ghost below: int)
    returns (q': int, r': int, add: int, ghost exact': int)
    requires w >= 2 && 0 < d < Pow2(w) && 0 <= r < d && 0 <= q && q + 1 < Pow2(w)
    requires below == q * d + r
    ensures 2 * below + 1 == exact' * d + r' && 0 <= r' < d && q' == Wrap(w, exact')
    ensures add == (if exact' + 1 >= Pow2(w) then 1 else 0) && 0 <= exact' && exact' + 1 < 2 * Pow2(w)
  {
    assert (2 * q + 1) * d == 2 * (q * d) + d && (2 * q) * d == 2 * (q * d);
    assert Pow2(w) == 2 * Pow2(w - 1);
    add := 0;
    if r + 1 >= d - r {
      WrapId(w, 2 * r + 1 - d);
      if q >= Pow2(w - 1) - 1 {
        add := 1;
      }
      exact' := 2 * q + 1;
      q' := Wrap(w, 2 * q + 1);
      r' := Wrap(w, 2 * r + 1 - d);
    } else {
      WrapId(w, 2 * r + 1);
      if q >= Pow2(w - 1) {
        add := 1;
      }
      exact' := 2 * q;
      q' := Wrap(w, 2 * q);
      r' := Wrap(w, 2 * r + 1);
    }
  }

  /** The exit test on a wrapped quotient is still safe: leaving the loop means 2^p beats the product. */
  lemma ExitIsSafe(w: nat, d: int, nc: int, p: nat, q: int, rest: int, exact: int, r1: int)
    requires SearchInput(w, d, nc) && w <= p <= 2 * w && 0 <= rest < d && 0 < nc
    requires Pow2(p) == exact * nc + r1 && 0 <= r1 < nc && 0 <= exact && q == Wrap(w, exact)
    ensures var delta := d - 1 - rest; var again := p < 2 * w && (q < delta || (q == delta && r1 == 0));
      && (!again ==> nc * delta < Pow2(p))
      && (again && exact < Pow2(w) ==> Pow2(p) <= nc * delta)
  {
    var delta := d - 1 - rest;
    if exact >= Pow2(w) {
      MulBelow(delta, exact, nc);
      assert nc * delta == delta * nc;
    } else {
      WrapId(w, exact);
      ExitTest(Pow2(p), nc, delta, q, r1);
      if p == 2 * w {
        Pow2Add(w, w);
        MulAtMost(delta, Pow2(w), nc);
        MulBelow(nc, Pow2(w), Pow2(w));
        assert nc * delta == delta * nc && Pow2(w) * nc == nc * Pow2(w);
      }
    }
  }

  /** If the loop goes on, the multiplier so far fits in `w` bits, so the indicator is still clear. */
  lemma MultiplierFits(w: nat, d: int, nc: int, p: nat, q1: int, q2: int, rest: int)
    requires SearchInput(w, d, nc) && w - 1 <= p < 2 * w
    requires Pow2(p) - 1 == q2 * d + rest && 0 <= rest < d && 0 <= q2
    requires GoesOn(w, d, nc, p, q1, rest)
    ensures q2 + 1 < Pow2(w)
  {
    if q1 < Pow2(w) && p == w - 1 {
      MulAtMost(1, d, q2);
      assert d * q2 == q2 * d;
    } else if q1 < Pow2(w) {
      BelowCritical(d, nc, rest, q2, Pow2(p));
    } else {
      Pow2Monotone(p, 2 * w - 1);
      Pow2Add(w, w - 1);
      BelowLargeDivisor(d, Pow2(w - 1), q2);
    }
  }

  lemma BelowCritical(d: int, nc: int, rest: int, q2: int, power: int)
    requires 0 < d && 0 <= nc && 0 <= rest && q2 * d < power <= nc * (d - 1 - rest)
    ensures q2 < nc
  {
    MulAtMost(d - 1 - rest, d, nc);
    assert d * nc == nc * d && (d - 1 - rest) * nc == nc * (d - 1 - rest);
    CancelFactor(q2, nc, d);
  }

  lemma BelowLargeDivisor(d: int, half: int, q2: int)
    requires half >= 2 && d > half && 0 <= q2 && q2 * d < (2 * half) * half
    ensures q2 + 1 < 2 * half
  {
    assert (2 * half - 1) * (half + 1) == (2 * half) * half + half - 1;
    MulAtMost(half + 1, d, q2);
    assert (half + 1) * q2 == q2 * (half + 1) && d * q2 == q2 * d;
    CancelFactor(q2, 2 * half - 1, half + 1);
  }

  /** A quotient that wraps when doubled betrays a divisor above 2^(w-1). */
  lemma WrapNeedsLargeDivisor(w: nat, d: int, nc: int, p: nat, exact: int, r1: int, rest: int)
    requires SearchInput(w, d, nc) && w - 1 <= p && 0 <= rest < d
    requires Pow2(p) == exact * nc + r1 && 0 <= r1 < nc
    requires GoesOn(w, d, nc, p, exact, rest)
    requires 2 * exact + 1 >= Pow2(w)
    ensures d > Pow2(w - 1)
  {
    if exact < Pow2(w) && p == w - 1 {
      Pow2Monotone(2, w);
      assert exact * nc == nc * exact;
      MulStep(1, nc, exact);
    } else if exact < Pow2(w) {
      BelowDivisor(d, nc, rest, exact, Pow2(p));
    }
  }

  lemma BelowDivisor(d: int, nc: int, rest: int, exact: int, power: int)
    requires 0 < nc && 0 <= rest && exact * nc <= power <= nc * (d - 1 - rest)
    ensures exact < d
  {
    MulBelow(d - 1 - rest, d, nc);
    assert (d - 1 - rest) * nc == nc * (d - 1 - rest);
    CancelFactor(exact, d, nc);
  }

  /** `q` and `r` are the wrapped quotient and the remainder of `x` by `a`. */
  ghost predicate Pair(w: nat, x: int, a: int, exact: int, q: int, r: int) {
    x == exact * a + r && 0 <= r < a && 0 <= exact && q == Wrap(w, exact)
  }

  /** What holds whenever the loop is about to run again. */
  ghost predicate Running(w: nat, d: int, nc: int, p: nat, exact1: int, exact2: int, rest: int) {
    w - 1 <= p < 2 * w && w >= 1 && GoesOn(w, d, nc, p, exact1, rest) && exact2 + 1 < Pow2(w)
  }

  method Step(w: nat, d: int, nc: int, p: nat, q1: int, r1: int, q2: int, r2: int,
              ghost exact1: int, ghost exact2: int)
    returns (p': nat, q1': int, r1': int, q2': int, r2': int, indicated: int, again: bool,
             ghost exact1': int, ghost exact2': int)
    requires SearchInput(w, d, nc) && 0 < nc && Running(w, d, nc, p, exact1, exact2, r2)
    requires Pair(w, Pow2(p), nc, exact1, q1, r1) && Pair(w, Pow2(p) - 1, d, exact2, q2, r2)
    ensures p' == p + 1
    ensures Pair(w, Pow2(p'), nc, exact1', q1', r1') && Pair(w, Pow2(p') - 1, d, exact2', q2', r2')
    ensures indicated == (if exact2' + 1 >= Pow2(w) then 1 else 0) && exact2' + 1 < 2 * Pow2(w)
    ensures if again then Running(w, d, nc, p', exact1', exact2', r2') else nc * (d - 1 - r2') < Pow2(p')
  {
    p' := p + 1;
    q1', r1', exact1' := DoubleWrapped(w, q1, r1, nc, Pow2(p), exact1);
    WrapId(w, exact2);
    q2', r2', indicated, exact2' := DoubleIndicated(w, q2, r2, d, Pow2(p) - 1);
    var delta := d - 1 - r2';
    again := p' < 2 * w && (q1' < delta || (q1' == delta && r1' == 0));
    ExitIsSafe(w, d, nc, p', q1', r2', exact1', r1');
    if again {
      if exact1' >= Pow2(w) {
        WrapNeedsLargeDivisor(w, d, nc, p, exact1, r1, r2);
      }
      MultiplierFits(w, d, nc, p', exact1', exact2', r2');
    }
  }

  method SearchUnsigned(w: nat, d: int, nc: int) returns (m: int, p: nat, add: int)
    requires SearchInput(w, d, nc) && 0 < nc
    ensures w <= p <= 2 * w && IsUnsigned(w, m) && 0 <= add <= 1
    ensures Pow2(p) <= (add * Pow2(w) + m) * d < Pow2(p) + d
    ensures nc * ((add * Pow2(w) + m) * d - Pow2(p)) < Pow2(p)
  {
    var half := Pow2(w - 1);
    p := w - 1;
    add := 0;
    var q1, r1 := half / nc, half % nc;
    var q2, r2 := (half - 1) / d, (half - 1) % d;
    FirstQuotients(half, nc);
    FirstQuotients(half - 1, d);
    ghost var exact1, exact2 := q1, q2;
    WrapId(w, q1);
    WrapId(w, q2);
    var again := true;
    while again
      invariant w - 1 <= p <= 2 * w && (p == w - 1 ==> again)
      invariant Pair(w, Pow2(p), nc, exact1, q1, r1) && Pair(w, Pow2(p) - 1, d, exact2, q2, r2)
      invariant again ==> Running(w, d, nc, p, exact1, exact2, r2) && add == 0
      invariant !again ==> nc * (d - 1 - r2) < Pow2(p) && exact2 + 1 < 2 * Pow2(w)
      invariant !again ==> add == if exact2 + 1 >= Pow2(w) then 1 else 0
      decreases 2 * w - p, again
    {
      var indicated;
      p, q1, r1, q2, r2, indicated, again, exact1, exact2 :=
        Step(w, d, nc, p, q1, r1, q2, r2, exact1, exact2);
      if indicated == 1 {
        add := 1;
      }
    }
    m := Wrap(w, q2 + 1);
    RoundedUp(w, exact2);
    assert (exact2 + 1) * d == exact2 * d + d;
  }

  lemma FirstQuotients(x: nat, a: int)
    requires a > 0
    ensures x == (x / a) * a + x % a && 0 <= x / a <= x
  {
    CancelFactor(-1, x / a, a);
    MulAtMost(1, a, x / a);
    assert a * (x / a) == (x / a) * a;
  }

  lemma RoundedUp(w: nat, x: int)
    requires 0 <= x && x + 1 < 2 * Pow2(w)
    ensures Wrap(w, Wrap(w, x) + 1) == if x + 1 >= Pow2(w) then x + 1 - Pow2(w) else x + 1
  {
    if x >= Pow2(w) {
      DivModUnique(x, Pow2(w), 1, x - Pow2(w));
      DivModUnique(x + 1 - Pow2(w), Pow2(w), 0, x + 1 - Pow2(w));
    } else {
      WrapId(w, x);
      DivModUnique(x + 1, Pow2(w), (if x + 1 >= Pow2(w) then 1 else 0), if x + 1 >= Pow2(w) then 0 else x + 1);
    }
  }

  lemma UnsignedCritical(w: nat, d: int)
    requires w >= 2 && 1 <= d < Pow2(w)
    ensures var nc := Wrap(w, Wrap(w, -1) - Wrap(w, -d) % d);
      Critical(d, Pow2(w) - 1, nc) && SearchInput(w, d, nc) && 0 < nc
  {
    hide *;
    UnsignedExpression(w, d);
    CriticalOf(d, Pow2(w));
    CriticalStarts(w, d, Pow2(w) - 1 - Pow2(w) % d);
  }

  lemma UnsignedExpression(w: nat, d: int)
    requires 1 <= d < Pow2(w)
    ensures Wrap(w, Wrap(w, -1) - Wrap(w, -d) % d) == Pow2(w) - 1 - Pow2(w) % d
  {
    hide Pow2, Wrap;
    UnsignedNegated(w, 1);
    UnsignedNegated(w, d);
    RemainderBelow(Pow2(w), d);
    WrapId(w, Pow2(w) - 1 - Pow2(w) % d);
  }

  lemma CriticalStarts(w: nat, d: int, nc: int)
    requires w >= 2 && 1 <= d < Pow2(w) && Critical(d, Pow2(w) - 1, nc)
    ensures SearchInput(w, d, nc) && 0 < nc
  {
    Pow2Monotone(2, w);
    assert Pow2(2) == 4;
  }

  lemma UnsignedNegated(w: nat, d: int)
    requires 1 <= d < Pow2(w)
    ensures Wrap(w, -d) == Pow2(w) - d
  {
    DivModUnique(-d, Pow2(w), -1, Pow2(w) - d);
  }

  lemma RemainderBelow(x: int, d: int)
    requires d > 0
    ensures (x - d) % d == x % d
  {
    Shifted(x, d, -1);
  }

  /** The returned multiplier, with 2^w added when `add` is set, divides every dividend.  `add` is set
      exactly when the multiplier does not fit in `w` bits. */
  method ComputeUnsignedMagicValues(w: nat, d: int) returns (m: int, s: nat, add: int)
    requires w >= 2 && 1 <= d < Pow2(w)
    ensures IsUnsigned(w, m) && s <= w && 0 <= add <= 1
    ensures add * Pow2(w) + m == (Pow2(w + s) - 1) / d + 1
    ensures forall n :: 0 <= n < Pow2(w) ==> (n * (add * Pow2(w) + m)) / Pow2(w + s) == n / d
  {
    UnsignedCritical(w, d);
    var nc := Wrap(w, Wrap(w, -1) - Wrap(w, -d) % d);
    var p;
    m, p, add := SearchUnsigned(w, d, nc);
    s := p - w;
    ghost var mu := add * Pow2(w) + m;
    assert (mu - 1) * d == mu * d - d;
    DivModUnique(Pow2(p) - 1, d, mu - 1, Pow2(p) - 1 - (mu * d - d));
    forall n | 0 <= n < Pow2(w)
      ensures (n * mu) / Pow2(w + s) == n / d
    {
      MultiplierFloor(d, Pow2(w) - 1, nc, mu, mu * d - Pow2(p), Pow2(p), n);
      assert n * mu == mu * n;
    }
  }
}
