/** Signed division by a constant: the magic multiplier and shift, and the instruction sequences that use
them.  `w` is the word width; the code generator has the instances 32 and 64. */
module MagicNumbers {
  import opened Words
  import opened MagicTheory

  /** The divisors the magic sequence is used for: signed words other than -1, 0 and 1. */
  predicate IsDivisor(w: nat, d: int) {
    w >= 3 && IsSigned(w, d) && Abs(d) >= 2
  }

  /** One more than the largest dividend magnitude that needs an exact quotient. */
  function Limit(w: nat, d: int): nat
    requires w >= 1
  {
    Pow2(w - 1) + (if d < 0 then 1 else 0)
  }

  function CriticalDividend(w: nat, d: int): int
    requires w >= 1 && d != 0
  {
    Limit(w, d) - 1 - Limit(w, d) % Abs(d)
  }

  /** `mu` overshoots `power / a` by at most one and by less than the critical dividend tolerates. */
  predicate Multiplier(a: int, nc: int, power: int, mu: int) {
    var e := mu * a - power;
    1 <= e <= a && nc * e < power
  }

  /** The signed word that stores a multiplier. */
  function Encoded(w: nat, d: int, mu: int): int
    requires w >= 1
  {
    WrapSigned(w, if d < 0 then -mu else mu)
  }

  predicate IsMultiplier(w: nat, d: int, mu: int, s: nat)
    requires w >= 1 && d != 0
  {
    0 < mu < Pow2(w) && Multiplier(Abs(d), CriticalDividend(w, d), Pow2(w + s), mu)
  }

  /** The word `m` stores such a multiplier for the shift `s`. */
  ghost predicate IsMagic(w: nat, d: int, m: int, s: nat)
    requires w >= 1 && d != 0
  {
    exists mu :: IsMultiplier(w, d, mu, s) && m == Encoded(w, d, mu)
  }

  // ----- the instruction sequences

  /** High word of the signed product. */
  function MulHigh(w: nat, m: int, n: int): int {
    (m * n) / Pow2(w)
  }

  /** The high word, corrected by the dividend when multiplier and divisor have opposite signs. */
  function Corrected(w: nat, n: int, d: int, m: int): int
    requires w >= 1
  {
    var h := MulHigh(w, m, n);
    if d > 0 && m < 0 then WrapSigned(w, h + n)
    else if d < 0 && m > 0 then WrapSigned(w, h - n)
    else h
  }

  function ShiftRight(x: int, s: nat): int {
    x / Pow2(s)
  }

  function SignBit(x: int): int {
    if x < 0 then 1 else 0
  }

  /** The x86 evaluator adds the sign bit of the shifted word. */
  function QuotientBySign(w: nat, n: int, d: int, m: int, s: nat): int
    requires w >= 1
  {
    var t := ShiftRight(Corrected(w, n, d, m), s);
    WrapSigned(w, t + SignBit(t))
  }

  /** The simplifier and the Power evaluator add the dividend's sign bit for a positive divisor. */
  function QuotientByDividendSign(w: nat, n: int, d: int, m: int, s: nat): int
    requires w >= 1
  {
    var t := ShiftRight(Corrected(w, n, d, m), s);
    WrapSigned(w, t + SignBit(if d > 0 then n else t))
  }

  // ----- the sequences divide

  lemma DivDiv(x: int, a: int, b: int)
    requires a > 0 && b > 0
    ensures a * b > 0 && (x / a) / b == x / (a * b)
  {
    var q, r := x / a, x % a;
    var q', r' := q / b, q % b;
    assert x == q * a + r && q == q' * b + r';
    assert (q' * b + r') * a == q' * (a * b) + r' * a;
    MulStep(r', b, a);
    MulAtMost(0, r', a);
    assert b * a == a * b;
    DivModUnique(x, a * b, q', r' * a + r);
  }

  lemma ProductBound(x: int, y: int, a: int, b: int)
    requires -a <= x <= a && -b <= y <= b
    ensures -(a * b) <= x * y <= a * b
  {
    if x >= 0 {
      MulAtMost(x, a, b);
      MulAtMost(y, b, x);
      MulAtMost(-b, y, x);
    } else {
      MulAtMost(-x, a, b);
      MulAtMost(y, b, -x);
      MulAtMost(-b, y, -x);
    }
  }

  lemma QuotientRange(x: int, m: int, b: int)
    requires m > 0 && -(b * m) <= x < b * m
    ensures -b <= x / m < b
  {
    assert x == (x / m) * m + x % m;
    CancelFactor(x / m, b, m);
    CancelFactor(-b - 1, x / m, m) by {
      assert (-b - 1) * m == -(b * m) - m;
    }
  }

  lemma HighWordInRange(half: int, mu: int, n: int)
    requires half > 0 && -half <= n < half && -(2 * half) < mu < 2 * half
    ensures -half <= (mu * n) / (2 * half) < half
  {
    ProductBound(mu, n, 2 * half - 1, half);
    assert (2 * half - 1) * half == half * (2 * half) - half;
    QuotientRange(mu * n, 2 * half, half);
  }

  /** The stored word differs from the multiplier by the modulus exactly when their signs differ. */
  lemma EncodedCases(w: nat, d: int, mu: int)
    requires IsDivisor(w, d) && 0 < mu < Pow2(w)
    ensures var m := Encoded(w, d, mu);
      if d > 0 then m == if m < 0 then mu - Pow2(w) else mu
      else m == if m > 0 then Pow2(w) - mu else -mu
  {
    if d > 0 {
      DivModUnique(mu, Pow2(w), 0, mu);
    } else {
      DivModUnique(-mu, Pow2(w), -1, Pow2(w) - mu);
    }
  }

  /** After the correction the word is the exact high part of the full multiplier's product. */
  lemma CorrectedIsHigh(w: nat, n: int, d: int, mu: int)
    requires IsDivisor(w, d) && IsSigned(w, n) && 0 < mu < Pow2(w)
    ensures Corrected(w, n, d, Encoded(w, d, mu)) == MulHigh(w, if d < 0 then -mu else mu, n)
  {
    EncodedCases(w, d, mu);
    CorrectedFrom(w, n, d, if d < 0 then -mu else mu, Encoded(w, d, mu));
  }

  lemma CorrectedFrom(w: nat, n: int, d: int, signed: int, m: int)
    requires w >= 1 && IsSigned(w, n) && -(Pow2(w) as int) < signed < Pow2(w)
    requires m == if d > 0 && m < 0 then signed - Pow2(w) else if d < 0 && m > 0 then signed + Pow2(w) else signed
    ensures Corrected(w, n, d, m) == MulHigh(w, signed, n)
  {
    hide Pow2, WrapSigned, MulHigh;
    HighWordIsSigned(w, signed, n);
    WrapSignedId(w, MulHigh(w, signed, n));
    if d > 0 && m < 0 {
      HighWordShifted(w, signed, m, n, -1);
    } else if d < 0 && m > 0 {
      HighWordShifted(w, signed, m, n, 1);
    }
  }

  lemma HighWordIsSigned(w: nat, mu: int, n: int)
    requires w >= 1 && IsSigned(w, n) && -(Pow2(w) as int) < mu < Pow2(w)
    ensures IsSigned(w, MulHigh(w, mu, n))
  {
    assert Pow2(w) == 2 * Pow2(w - 1);
    HighWordInRange(Pow2(w - 1), mu, n);
  }

  lemma HighWordShifted(w: nat, x: int, y: int, n: int, k: int)
    requires y == x + k * Pow2(w)
    ensures MulHigh(w, y, n) == MulHigh(w, x, n) + k * n
  {
    ShiftedProduct(x, y, n, Pow2(w), k);
  }

  lemma ShiftedProduct(x: int, y: int, n: int, full: int, k: int)
    requires full > 0 && y == x + k * full
    ensures (y * n) / full == (x * n) / full + k * n
  {
    assert y * n == x * n + (k * n) * full;
    Shifted(x * n, full, k * n);
  }

  lemma LimitCritical(w: nat, d: int)
    requires IsDivisor(w, d)
    ensures Critical(Abs(d), Limit(w, d) - 1, CriticalDividend(w, d))
    ensures 2 <= CriticalDividend(w, d) <= Pow2(w - 1)
  {
    assert Pow2(w - 1) == 4 * Pow2(w - 3);
    CriticalOf(Abs(d), Limit(w, d));
  }

  /** Where the quotient is not negative the shifted product is the quotient. */
  lemma ExactNonNegative(w: nat, d: int, mu: int, s: nat, k: nat)
    requires IsDivisor(w, d) && IsMultiplier(w, d, mu, s)
    requires k <= Pow2(w - 1) && (d > 0 ==> k < Pow2(w - 1))
    ensures (mu * k) / Pow2(w + s) == k / Abs(d)
  {
    LimitCritical(w, d);
    var e := mu * Abs(d) - Pow2(w + s);
    MultiplierFloor(Abs(d), Limit(w, d) - 1, CriticalDividend(w, d), mu, e, Pow2(w + s), k);
  }

  /** Where the quotient is not positive the shifted product is one too small. */
  lemma ExactNegative(w: nat, d: int, mu: int, s: nat, k: nat)
    requires IsDivisor(w, d) && IsMultiplier(w, d, mu, s)
    requires 1 <= k <= Pow2(w - 1)
    ensures (-(mu * k)) / Pow2(w + s) == -(k / Abs(d)) - 1
  {
    LimitCritical(w, d);
    if k < Limit(w, d) {
      CeilUpToLimit(Abs(d), Limit(w, d) - 1, CriticalDividend(w, d), mu, Pow2(w + s), k);
    } else {
      PowerIsMultiple(w, s);
      CeilOfMostNegative(Abs(d), Limit(w, d), CriticalDividend(w, d), mu, Pow2(w + s), Pow2(s + 1));
    }
  }

  lemma PowerIsMultiple(w: nat, s: nat)
    requires w >= 2
    ensures Pow2(w + s) == Pow2(s + 1) * Pow2(w - 1) && Pow2(w - 1) % 2 == 0
  {
    Pow2Add(s + 1, w - 1);
    assert Pow2(w - 1) == 2 * Pow2(w - 2);
  }

  lemma CeilUpToLimit(a: int, top: int, nc: int, mu: int, power: int, k: int)
    requires Critical(a, top, nc) && Multiplier(a, nc, power, mu) && 1 <= k <= top && power > 0
    ensures (-(mu * k)) / power == -(k / a) - 1
  {
    OvershootBounded(a, top, nc, mu * a - power, power, k);
    MultiplierCeil(a, mu, mu * a - power, power, k);
  }

  lemma CeilOfMostNegative(a: int, t: int, nc: int, mu: int, power: int, c: int)
    requires Critical(a, t - 1, nc) && Multiplier(a, nc, power, mu)
    requires t % 2 == 0 && t >= 2 && power == c * t && c >= 1 && power > 0
    ensures (-(mu * t)) / power == -(t / a) - 1
  {
    var e := mu * a - power;
    DivModUnique(power + e, a, mu, 0);
    OvershootAtMostNegative(a, t, nc, e, power, c);
    MultiplierCeil(a, mu, e, power, t);
  }

  lemma TwoShifts(x: int, w: nat, s: nat)
    ensures (x / Pow2(w)) / Pow2(s) == x / Pow2(w + s)
  {
    DivDiv(x, Pow2(w), Pow2(s));
    Pow2Add(w, s);
  }

  /** The shifted word before the sign bit is added. */
  lemma ShiftedWord(w: nat, d: int, mu: int, s: nat, n: int)
    requires IsDivisor(w, d) && IsMultiplier(w, d, mu, s) && IsSigned(w, n)
    ensures var t := ShiftRight(Corrected(w, n, d, Encoded(w, d, mu)), s);
      if n == 0 || (n < 0) == (d < 0) then t == Abs(n) / Abs(d) else t == -(Abs(n) / Abs(d)) - 1
  {
    ShiftedHighWord(w, d, mu, s, n);
    if n == 0 || (n < 0) == (d < 0) {
      ExactNonNegative(w, d, mu, s, Abs(n));
    } else {
      ExactNegative(w, d, mu, s, Abs(n));
    }
  }

  lemma ShiftedHighWord(w: nat, d: int, mu: int, s: nat, n: int)
    requires IsDivisor(w, d) && IsSigned(w, n) && 0 < mu < Pow2(w)
    ensures ShiftRight(Corrected(w, n, d, Encoded(w, d, mu)), s)
      == (if n == 0 || (n < 0) == (d < 0) then mu * Abs(n) else -(mu * Abs(n))) / Pow2(w + s)
  {
    CorrectedIsHigh(w, n, d, mu);
    var signed := if d < 0 then -mu else mu;
    TwoShifts(signed * n, w, s);
    assert signed * n == if n == 0 || (n < 0) == (d < 0) then mu * Abs(n) else -(mu * Abs(n));
  }

  /** A magic pair divides every dividend, in both sequences the evaluators emit. */
  lemma MagicDivides(w: nat, d: int, m: int, s: nat, n: int)
    requires IsDivisor(w, d) && IsMagic(w, d, m, s) && IsSigned(w, n)
    ensures QuotientBySign(w, n, d, m, s) == TruncDiv(n, d)
    ensures QuotientByDividendSign(w, n, d, m, s) == TruncDiv(n, d)
  {
    var mu :| IsMultiplier(w, d, mu, s) && m == Encoded(w, d, mu);
    var t := ShiftRight(Corrected(w, n, d, m), s);
    ShiftedWord(w, d, mu, s, n);
    QuotientAtMost(Abs(n), Abs(d), Pow2(w - 1));
    AddSign(w, n, d, t);
  }

  lemma AddSign(w: nat, n: int, d: int, t: int)
    requires w >= 1 && d != 0 && IsSigned(w, TruncDiv(n, d)) && Abs(n) / Abs(d) >= 0
    requires if n == 0 || (n < 0) == (d < 0) then t == Abs(n) / Abs(d) else t == -(Abs(n) / Abs(d)) - 1
    ensures WrapSigned(w, t + SignBit(t)) == TruncDiv(n, d)
    ensures WrapSigned(w, t + SignBit(if d > 0 then n else t)) == TruncDiv(n, d)
  {
    var q := Abs(n) / Abs(d);
    assert n == 0 ==> q == 0 by { if n == 0 { DivModUnique(0, Abs(d), 0, 0); } }
    WrapSignedId(w, TruncDiv(n, d));
  }

  lemma QuotientAtMost(k: nat, a: nat, bound: nat)
    requires a >= 2 && k <= bound && bound > 0
    ensures 0 <= k / a < bound
  {
    MulAtMost(2, a, bound);
    assert bound * a == a * bound;
    QuotientRange(k, a, bound);
    MulAtMost(1, a, k / a + 1);
    CancelFactor(-1, k / a, a);
  }

  // ----- the search

  /** What the search needs to know about |d| and the critical dividend. */
  predicate SearchInput(w: nat, a: int, nc: int) {
    && w >= 3 && 2 <= a <= Pow2(w - 1) && 2 <= nc <= Pow2(w - 1) && a < 2 * nc
    && (a == Pow2(w - 1) ==> nc == Pow2(w - 1) - 1)
    && (nc == Pow2(w - 1) ==> a % 2 == 1)
  }

  lemma HalvedProduct(a: int, q: int, x: int)
    requires a % 2 == 1 && q * a == 2 * x
    ensures (q / 2) * a == x
  {
    var b, z := a / 2, q / 2;
    assert q * a == q * (2 * b + 1) == 2 * (q * b) + q;
    assert (2 * z) * a == 2 * (z * a);
  }

  lemma {:induction false} OddNeverDividesPow2(a: int, p: nat, q: int)
    requires a >= 2 && a % 2 == 1
    ensures Pow2(p) != q * a
  {
    if Pow2(p) == q * a {
      CancelFactor(0, q, a);
      if p == 0 {
        MulAtMost(1, q, a);
      } else {
        HalvedProduct(a, q, Pow2(p - 1));
        OddNeverDividesPow2(a, p - 1, q / 2);
      }
    }
  }

  /** Two numbers up to `half`, not both equal to it, have a product below half squared; if the product
      is at least a power of two, that power is below half of the first number's multiple. */
  lemma ProductBelowSquare(w: nat, a: int, nc: int, p: nat)
    requires SearchInput(w, a, nc) && Pow2(p) <= nc * a
    ensures p <= 2 * w - 3
    ensures 2 * Pow2(p) < Pow2(w) * nc
  {
    if a == Pow2(w - 1) {
      SquareOfMostNegative(w, nc, p);
    } else {
      SmallerFactor(w, a, nc, p);
    }
  }

  lemma SmallerFactor(w: nat, a: int, nc: int, p: nat)
    requires w >= 1 && 0 < a < Pow2(w - 1) && 0 < nc <= Pow2(w - 1) && Pow2(p) <= nc * a
    ensures p <= 2 * w - 3 && 2 * Pow2(p) < Pow2(w) * nc
  {
    var half := Pow2(w - 1);
    assert nc * a == a * nc;
    MulBelow(a, half, nc);
    MulAtMost(nc, half, half);
    assert half * nc == nc * half;
    Pow2Add(w - 1, w - 1);
    Pow2Strict(p, 2 * w - 2);
    assert (2 * half) * nc == 2 * (half * nc);
  }

  lemma SquareOfMostNegative(w: nat, nc: int, p: nat)
    requires w >= 3 && nc == Pow2(w - 1) - 1 && Pow2(p) <= nc * Pow2(w - 1)
    ensures p <= 2 * w - 3 && 2 * Pow2(p) < Pow2(w) * nc
  {
    assert Pow2(w) == 2 * Pow2(w - 1) && Pow2(w - 1) == 2 * Pow2(w - 2) && Pow2(w - 2) == 2 * Pow2(w - 3);
    hide Pow2;
    var half := Pow2(w - 1);
    MulBelow(nc, half, half);
    Pow2Add(w - 1, w - 1);
    Pow2Strict(p, 2 * w - 2);
    Pow2Monotone(p, 2 * w - 3);
    Pow2Add(w - 2, w - 1);
    DoubledBelowProduct(Pow2(p), Pow2(w - 2), half, nc);
  }

  lemma DoubledBelowProduct(power: int, quarter: int, half: int, nc: int)
    requires power <= quarter * half && quarter < nc && 0 < half
    ensures 2 * power < (2 * half) * nc
  {
    MulBelow(quarter, nc, half);
    assert (2 * half) * nc == 2 * (nc * half);
  }

  /** Quotient and remainder of `power` by `a`. */
  predicate QuotientOf(power: int, a: int, q: int, r: int) {
    power == q * a + r && 0 <= r < a && 0 <= q
  }

  /** The exit test of the loop fails for this power. */
  predicate Small(power: int, nc: int, delta: int) {
    power <= nc * delta
  }

  /** Twice the power has a quotient by `a` below the bound. */
  predicate Doubles(power: int, bound: int, a: int) {
    2 * power < bound * a
  }

  /** While the exit test fails, 2^p is small: the next iteration stays within `w`-bit words. */
  lemma NextStepFits(w: nat, a: int, nc: int, p: nat, q: int, r: int)
    requires SearchInput(w, a, nc) && w - 1 <= p
    requires QuotientOf(Pow2(p), a, q, r)
    requires p == w - 1 || Small(Pow2(p), nc, a - r)
    ensures p <= 2 * w - 3
    ensures Doubles(Pow2(p), Pow2(w), nc)
    ensures Doubles(Pow2(p), Pow2(w) - 1, a)
  {
    hide *;
    if p == w - 1 {
      FirstFits(w, a, nc);
    } else {
      NeverBothEven(w, a, nc, p, q, r);
      LaterStepFits(w, a, nc, p, r);
    }
  }

  lemma FirstFits(w: nat, a: int, nc: int)
    requires SearchInput(w, a, nc)
    ensures w >= 3 && Doubles(Pow2(w - 1), Pow2(w), nc) && Doubles(Pow2(w - 1), Pow2(w) - 1, a)
  {
    assert Pow2(w) == 2 * Pow2(w - 1) && Pow2(w - 1) == 4 * Pow2(w - 3);
    hide Pow2;
    FirstStepFits(Pow2(w), Pow2(w - 1), a);
    FirstStepFits(Pow2(w), Pow2(w - 1), nc);
  }

  lemma NeverBothEven(w: nat, a: int, nc: int, p: nat, q: int, r: int)
    requires SearchInput(w, a, nc) && QuotientOf(Pow2(p), a, q, r)
    ensures 0 <= r < a && w >= 1 && (r == 0 ==> nc < Pow2(w - 1))
  {
    if r == 0 && nc == Pow2(w - 1) {
      OddNeverDividesPow2(a, p, q);
    }
  }

  lemma LaterStepFits(w: nat, a: int, nc: int, p: nat, r: int)
    requires SearchInput(w, a, nc) && 0 <= r < a && Small(Pow2(p), nc, a - r)
    requires r == 0 ==> nc < Pow2(w - 1)
    ensures p <= 2 * w - 3 && Doubles(Pow2(p), Pow2(w), nc) && Doubles(Pow2(p), Pow2(w) - 1, a)
  {
    DoubledBelow(Pow2(p), a, nc, Pow2(w - 1), r);
    ProductBelowSquare(w, a, nc, p);
  }

  lemma FirstStepFits(full: int, half: int, a: int)
    requires half >= 4 && full == 2 * half && a >= 2
    ensures 2 * half < (full - 1) * a < full * a
  {
    MulAtMost(2, a, full - 1);
    assert (full - 1) * a == a * (full - 1) == full * a - a;
  }

  lemma DoubledBelow(power: nat, a: int, nc: int, half: int, r: int)
    requires 0 < a < 2 * nc && 0 <= r && 0 < nc <= half && power <= nc * (a - r)
    requires r == 0 ==> nc < half
    ensures 2 * power < (2 * half - 1) * a && power <= nc * a
  {
    assert nc * (a - r) == nc * a - nc * r;
    MulAtMost(0, nc, r);
    assert (2 * half - 1) * a == 2 * (half * a) - a;
    if r == 0 {
      MulStep(nc, half, a);
    } else {
      MulAtMost(nc, half, a);
      MulAtMost(1, r, nc);
      assert nc * r == r * nc;
    }
  }

  /** One doubling of a quotient/remainder pair by `a`, in `w`-bit unsigned arithmetic. */
  method DoublePair(w: nat, q: int, r: int, a: int, ghost power: int, ghost bound: int)
    returns (q': int, r': int)
    requires 0 < a && 2 * a <= Pow2(w) && bound <= Pow2(w)
    requires QuotientOf(power, a, q, r) && Doubles(power, bound, a)
    ensures QuotientOf(2 * power, a, q', r') && q' < bound
  {
    assert (2 * q + 1) * a == 2 * (q * a) + a && (2 * q) * a == 2 * (q * a);
    CancelFactor(2 * q, bound, a);
    if 2 * r >= a {
      CancelFactor(2 * q + 1, bound, a);
      WrapId(w, 2 * q + 1);
      WrapId(w, 2 * r - a);
    }
    WrapId(w, 2 * q);
    WrapId(w, 2 * r);
    q' := Wrap(w, 2 * q);
    r' := Wrap(w, 2 * r);
    if r' >= a {
      q' := Wrap(w, q' + 1);
      r' := Wrap(w, r' - a);
    }
  }

  /** The first pair: quotient and remainder of 2^(w-1). */
  method FirstPair(w: nat, a: int) returns (q: int, r: int)
    requires w >= 1 && 0 < a < Pow2(w)
    ensures QuotientOf(Pow2(w - 1), a, q, r)
  {
    var half := Pow2(w - 1);
    q := half / a;
    assert half == q * a + half % a;
    CancelFactor(-1, q, a);
    MulAtMost(0, q, a);
    WrapId(w, q * a);
    WrapId(w, half % a);
    r := Wrap(w, half - Wrap(w, q * a));
  }

  /** The doubling loop: the first p at which the rounded-up quotient of 2^p is a multiplier. */
  method Search(w: nat, ad: int, anc: int) returns (mu: int, p: nat)
    requires SearchInput(w, ad, anc)
    ensures w <= p <= 2 * w - 2 && 0 < mu < Pow2(w)
    ensures Multiplier(ad, anc, Pow2(p), mu)
  {
    assert Pow2(w) == 2 * Pow2(w - 1);
    hide Wrap, QuotientOf, Small, Doubles, Multiplier;
    p := w - 1;
    var q1, r1 := FirstPair(w, anc);
    var q2, r2 := FirstPair(w, ad);
    var again := true;
    while again
      invariant w - 1 <= p <= 2 * w - 2
      invariant QuotientOf(Pow2(p), anc, q1, r1) && QuotientOf(Pow2(p), ad, q2, r2)
      invariant p == w - 1 ==> again
      invariant p >= w ==> (again <==> Small(Pow2(p), anc, ad - r2)) && q2 < Pow2(w) - 1
      decreases 2 * w - p, again
    {
      NextStepFits(w, ad, anc, p, q2, r2);
      q1, r1 := DoublePair(w, q1, r1, anc, Pow2(p), Pow2(w));
      q2, r2 := DoublePair(w, q2, r2, ad, Pow2(p), Pow2(w) - 1);
      p := p + 1;
      RestIsWord(w, Pow2(p), ad, q2, r2);
      var delta := Wrap(w, ad - r2);
      ExitWhenSmall(Pow2(p), anc, delta, q1, r1);
      again := q1 < delta || (q1 == delta && r1 == 0);
    }
    mu := Wrap(w, q2 + 1);
    RoundedUp(ad, anc, Pow2(p), q2, r2);
    WrapId(w, q2 + 1);
  }

  lemma RestIsWord(w: nat, power: int, a: int, q: int, r: int)
    requires QuotientOf(power, a, q, r) && a < Pow2(w)
    ensures Wrap(w, a - r) == a - r
  {
    WrapId(w, a - r);
  }

  lemma ExitWhenSmall(power: int, nc: int, delta: int, q: int, r: int)
    requires QuotientOf(power, nc, q, r)
    ensures q < delta || (q == delta && r == 0) <==> Small(power, nc, delta)
  {
    ExitTest(power, nc, delta, q, r);
  }

  lemma RoundedUp(a: int, nc: int, power: int, q: int, r: int)
    requires QuotientOf(power, a, q, r) && !Small(power, nc, a - r)
    ensures q >= 0 && Multiplier(a, nc, power, q + 1)
  {
    assert (q + 1) * a == q * a + a;
  }

  lemma TopBit(w: nat, d: int)
    requires IsDivisor(w, d)
    ensures Wrap(w, d) / Pow2(w - 1) == if d < 0 then 1 else 0
    ensures d < 0 ==> Wrap(w, 0 - d) == -d
  {
    var half := Pow2(w - 1);
    DivModUnique(d, Pow2(w), if d < 0 then -1 else 0, if d < 0 then d + Pow2(w) else d);
    if d < 0 {
      DivModUnique(d + 2 * half, half, 1, d + half);
      WrapId(w, -d);
    } else {
      DivModUnique(d, half, 0, d);
    }
  }

  lemma DivisorStartsSearch(w: nat, d: int)
    requires IsDivisor(w, d)
    ensures SearchInput(w, Abs(d), CriticalDividend(w, d))
  {
    LimitCritical(w, d);
    var a, nc, half := Abs(d), CriticalDividend(w, d), Pow2(w - 1);
    assert half == 4 * Pow2(w - 3);
    hide Pow2;
    if a == half {
      DivModUnique(a + 1, a, 1, 1);
    }
    if nc == half {
      CriticalAtHalf(a, 2 * Pow2(w - 3), nc);
    }
  }

  lemma CriticalAtHalf(a: int, h: int, nc: int)
    requires a > 0 && nc == 2 * h && nc % a == a - 1
    ensures a % 2 == 1
  {
    OddDivisor(a, h, nc / a + 1) by {
      assert nc == (nc / a) * a + nc % a;
      assert (nc / a + 1) * a == (nc / a) * a + a;
    }
  }

  lemma OddDivisor(a: int, h: int, y: int)
    requires 2 * h + 1 == y * a
    ensures a % 2 == 1
  {
    var b := a / 2;
    assert y * a == y * (2 * b + a % 2) == 2 * (y * b) + y * (a % 2);
  }

  lemma WrapSignedRange(w: nat, x: int)
    requires w >= 1
    ensures IsSigned(w, WrapSigned(w, x))
  {
    assert Pow2(w) == 2 * Pow2(w - 1);
  }

  lemma WrapSignedShifted(w: nat, x: int, y: int, k: int)
    requires w >= 1 && y == x + k * Pow2(w)
    ensures WrapSigned(w, x) == WrapSigned(w, y)
  {
    Shifted(x, Pow2(w), k);
  }

  /** Negating the stored word is the same as storing the negated multiplier. */
  lemma NegateTwice(w: nat, x: int)
    requires w >= 1 && 0 < x < Pow2(w)
    ensures WrapSigned(w, -WrapSigned(w, x)) == WrapSigned(w, -x)
    ensures IsSigned(w, WrapSigned(w, -x)) && IsSigned(w, WrapSigned(w, x))
  {
    WrapSignedRange(w, x);
    WrapSignedRange(w, -x);
    WrapId(w, x);
    hide Wrap;
    assert WrapSigned(w, x) == x || WrapSigned(w, x) == x - Pow2(w);
    hide WrapSigned;
    if WrapSigned(w, x) != x {
      WrapSignedShifted(w, -x, -WrapSigned(w, x), 1);
    }
  }

  /** The part of the magic-value functions after the cache: `w`-bit unsigned set-up, search, sign. */
  method SearchMagic(w: nat, d: int) returns (m: int, s: int)
    requires IsDivisor(w, d)
    ensures 0 <= s <= w - 2 && IsSigned(w, m)
    ensures IsMagic(w, d, m, s)
  {
    TopBit(w, d);
    DivisorStartsSearch(w, d);
    ghost var nc := CriticalDividend(w, d);
    WrapId(w, Limit(w, d));
    WrapId(w, Limit(w, d) - 1);
    WrapId(w, nc);
    var ad := if d >= 0 then d else Wrap(w, 0 - d);
    var t := Wrap(w, Pow2(w - 1) + Wrap(w, d) / Pow2(w - 1));
    var anc := Wrap(w, Wrap(w, t - 1) - t % ad);
    var mu, p := Search(w, ad, anc);
    m := WrapSigned(w, mu);
    if d < 0 {
      m := WrapSigned(w, -m);
    }
    s := p - w;
    assert IsMultiplier(w, d, mu, s);
    NegateTwice(w, mu);
  }

  // ----- the caches

  datatype CacheEntry = CacheEntry(denominator: int, magic: int, shift: nat)

  const CACHE_32: seq<CacheEntry> := [
    CacheEntry(3, 0x55555556, 0),
    CacheEntry(5, 0x66666667, 1),
    CacheEntry(7, 0x92492493, 2),
    CacheEntry(9, 0x38e38e39, 1),
    CacheEntry(10, 0x66666667, 2),
    CacheEntry(12, 0x2aaaaaab, 1),
    CacheEntry(24, 0x2aaaaaab, 2),
    CacheEntry(60, 0x88888889, 5),
    CacheEntry(100, 0x51eb851f, 5),
    CacheEntry(1000, 0x10624dd3, 6),
    CacheEntry(3600, 0x91a2b3c5, 11)]

  const CACHE_64: seq<CacheEntry> := [
    CacheEntry(3, 0x5555555555555556, 0),
    CacheEntry(5, 0x6666666666666667, 1),
    CacheEntry(7, 0x4924924924924925, 1),
    CacheEntry(9, 0x1c71c71c71c71c72, 0),
    CacheEntry(10, 0x6666666666666667, 2),
    CacheEntry(12, 0x2aaaaaaaaaaaaaab, 1)]

  predicate Sorted(cache: seq<CacheEntry>) {
    forall i, j :: 0 <= i < j < |cache| ==> cache[i].denominator < cache[j].denominator
  }

  /** Binary search for a denominator; `mid == |cache|` when it is not cached. */
  method FindCached(cache: seq<CacheEntry>, key: int) returns (mid: nat)
    requires Sorted(cache)
    ensures mid < |cache| ==> cache[mid].denominator == key
    ensures mid >= |cache| ==> forall i :: 0 <= i < |cache| ==> cache[i].denominator != key
  {
    var first, last := 0, |cache| - 1;
    while first <= last
      invariant 0 <= first <= |cache| && -1 <= last < |cache|
      invariant forall i :: 0 <= i < first ==> cache[i].denominator < key
      invariant forall i :: last < i < |cache| ==> key < cache[i].denominator
      decreases last - first
    {
      mid := (first + last) / 2;
      if cache[mid].denominator == key {
        return;
      } else if key > cache[mid].denominator {
        first := mid + 1;
      } else {
        last := mid - 1;
      }
    }
    mid := |cache|;
  }

  lemma Row32(d: int, mu: int, s: nat, scale: int)
    requires 2 <= d < 0x8000_0000 && 0 < mu < 0x1_0000_0000 && Pow2(s) == scale
    requires var e := mu * d - 0x1_0000_0000 * scale;
      1 <= e <= d && (0x7fff_ffff - 0x8000_0000 % d) * e < 0x1_0000_0000 * scale
    ensures IsMultiplier(32, d, mu, s)
  {
    hide Pow2;
    Pow2Values();
    Pow2Add(32, s);
    assert Pow2(32 + s) == 0x1_0000_0000 * scale;
    assert CriticalDividend(32, d) == 0x7fff_ffff - 0x8000_0000 % d;
  }

  lemma CachedAreMultipliers32(i: nat)
    requires i < |CACHE_32|
    ensures IsMultiplier(32, CACHE_32[i].denominator, CACHE_32[i].magic, CACHE_32[i].shift)
  {
    assert Pow2(5) == 32 && Pow2(6) == 64;
    Pow2Add(6, 5);
    if i == 0 { Row32(3, 0x55555556, 0, 1); }
    else if i == 1 { Row32(5, 0x66666667, 1, 2); }
    else if i == 2 { Row32(7, 0x92492493, 2, 4); }
    else if i == 3 { Row32(9, 0x38e38e39, 1, 2); }
    else if i == 4 { Row32(10, 0x66666667, 2, 4); }
    else if i == 5 { Row32(12, 0x2aaaaaab, 1, 2); }
    else if i == 6 { Row32(24, 0x2aaaaaab, 2, 4); }
    else if i == 7 { Row32(60, 0x88888889, 5, 32); }
    else if i == 8 { Row32(100, 0x51eb851f, 5, 32); }
    else if i == 9 { Row32(1000, 0x10624dd3, 6, 64); }
    else if i == 10 { Row32(3600, 0x91a2b3c5, 11, 2048); }
  }

  lemma Row64(d: int, mu: int, s: nat, scale: int)
    requires 2 <= d < 0x8000_0000 && 0 < mu < 0x1_0000_0000_0000_0000 && Pow2(s) == scale
    requires var e := mu * d - 0x1_0000_0000_0000_0000 * scale;
      1 <= e <= d && (0x7fff_ffff_ffff_ffff - 0x8000_0000_0000_0000 % d) * e < 0x1_0000_0000_0000_0000 * scale
    ensures IsMultiplier(64, d, mu, s)
  {
    hide Pow2;
    Pow2Values();
    Pow2Add(64, s);
    assert Pow2(64 + s) == 0x1_0000_0000_0000_0000 * scale;
    assert CriticalDividend(64, d) == 0x7fff_ffff_ffff_ffff - 0x8000_0000_0000_0000 % d;
  }

  lemma CachedAreMultipliers64(i: nat)
    requires i < |CACHE_64|
    ensures IsMultiplier(64, CACHE_64[i].denominator, CACHE_64[i].magic, CACHE_64[i].shift)
  {
    assert Pow2(1) == 2 && Pow2(2) == 4;
    if i == 0 { Row64(3, 0x5555555555555556, 0, 1); }
    else if i == 1 { Row64(5, 0x6666666666666667, 1, 2); }
    else if i == 2 { Row64(7, 0x4924924924924925, 1, 2); }
    else if i == 3 { Row64(9, 0x1c71c71c71c71c72, 0, 1); }
    else if i == 4 { Row64(10, 0x6666666666666667, 2, 4); }
    else if i == 5 { Row64(12, 0x2aaaaaaaaaaaaaab, 1, 2); }
  }

  lemma HitIsMagic32(hit: nat, d: int)
    requires hit < |CACHE_32| && IsSigned(32, d) && Wrap(32, d) == CACHE_32[hit].denominator
    ensures d == CACHE_32[hit].denominator && IsSigned(32, WrapSigned(32, CACHE_32[hit].magic))
    ensures IsMagic(32, d, WrapSigned(32, CACHE_32[hit].magic), CACHE_32[hit].shift)
  {
    hide Pow2;
    Pow2Values();
    if d < 0 {
      DivModUnique(d, Pow2(32), -1, d + Pow2(32));
    } else {
      DivModUnique(d, Pow2(32), 0, d);
    }
    hide Wrap;
    CachedAreMultipliers32(hit);
    NegateTwice(32, CACHE_32[hit].magic);
    assert IsMultiplier(32, d, CACHE_32[hit].magic, CACHE_32[hit].shift);
  }

  /** The cache is searched with the divisor converted to an unsigned word, as its entries are. */
  method Compute32BitMagicValues(d: int) returns (m: int, s: int)
    requires IsDivisor(32, d)
    ensures 0 <= s <= 30 && IsSigned(32, m)
    ensures forall n :: IsSigned(32, n) ==> QuotientBySign(32, n, d, m, s) == TruncDiv(n, d)
    ensures forall n :: IsSigned(32, n) ==> QuotientByDividendSign(32, n, d, m, s) == TruncDiv(n, d)
  {
    var hit := FindCached(CACHE_32, Wrap(32, d));
    if hit < |CACHE_32| {
      m := WrapSigned(32, CACHE_32[hit].magic);
      s := CACHE_32[hit].shift;
      HitIsMagic32(hit, d);
    } else {
      m, s := SearchMagic(32, d);
    }
    forall n | IsSigned(32, n)
      ensures QuotientBySign(32, n, d, m, s) == TruncDiv(n, d)
      ensures QuotientByDividendSign(32, n, d, m, s) == TruncDiv(n, d)
    {
      MagicDivides(32, d, m, s, n);
    }
  }

  /** The 64-bit cache is signed, so the divisor is compared as it is. */
  method Compute64BitMagicValues(d: int) returns (m: int, s: int)
    requires IsDivisor(64, d)
    ensures 0 <= s <= 62 && IsSigned(64, m)
    ensures forall n :: IsSigned(64, n) ==> QuotientBySign(64, n, d, m, s) == TruncDiv(n, d)
    ensures forall n :: IsSigned(64, n) ==> QuotientByDividendSign(64, n, d, m, s) == TruncDiv(n, d)
  {
    var hit := FindCached(CACHE_64, d);
    if hit < |CACHE_64| {
      m := CACHE_64[hit].magic;
      s := CACHE_64[hit].shift;
      Pow2Values();
      CachedAreMultipliers64(hit);
      WrapSignedId(64, m);
      assert IsMagic(64, d, m, s);
    } else {
      m, s := SearchMagic(64, d);
    }
    forall n | IsSigned(64, n)
      ensures QuotientBySign(64, n, d, m, s) == TruncDiv(n, d)
      ensures QuotientByDividendSign(64, n, d, m, s) == TruncDiv(n, d)
    {
      MagicDivides(64, d, m, s, n);
    }
  }
}
