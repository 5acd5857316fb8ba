/** Fixed-width machine words as mathematical integers.

A `w`-bit word is an integer; `Wrap` and `WrapSigned` give the value that a `w`-bit unsigned or two's
complement register holds after an operation whose exact result is `x`. */
module Words {

  function Pow2(n: nat): (r: nat)
    ensures r > 0
  {
    if n == 0 then 1 else 2 * Pow2(n - 1)
  }

  /** The unsigned `w`-bit word congruent to `x`. */
  function Wrap(w: nat, x: int): int {
    x % Pow2(w)
  }

  /** The two's complement `w`-bit word congruent to `x`. */
  function WrapSigned(w: nat, x: int): int
    requires w >= 1
  {
    var u := Wrap(w, x);
    if u < Pow2(w - 1) then u else u - Pow2(w)
  }

  predicate IsUnsigned(w: nat, x: int) {
    0 <= x < Pow2(w)
  }

  predicate IsSigned(w: nat, x: int)
    requires w >= 1
  {
    -(Pow2(w - 1) as int) <= x < Pow2(w - 1)
  }

  function Abs(x: int): nat {
    if x < 0 then -x else x
  }

  /** C's division: the quotient truncated toward zero. */
  function TruncDiv(n: int, d: int): int
    requires d != 0
  {
    var q := Abs(n) / Abs(d);
    if (n < 0) == (d < 0) then q else -q
  }

  lemma MulAssociative(x: int, y: int, z: int)
    ensures x * (y * z) == (x * y) * z
  {
  }

  lemma {:induction false} Pow2Add(a: nat, b: nat)
    ensures Pow2(a + b) == Pow2(a) * Pow2(b)
  {
    if a > 0 {
      Pow2Add(a - 1, b);
      MulAssociative(2, Pow2(a - 1), Pow2(b));
    }
  }

  lemma {:induction false} Pow2Monotone(a: nat, b: nat)
    requires a <= b
    ensures Pow2(a) <= Pow2(b)
    ensures a < b ==> 2 * Pow2(a) <= Pow2(b)
  {
    if a < b {
      Pow2Monotone(a, b - 1);
    }
  }

  lemma Pow2Strict(a: nat, b: nat)
    requires Pow2(a) < Pow2(b)
    ensures a < b
  {
    if b <= a {
      Pow2Monotone(b, a);
    }
  }

  lemma WrapId(w: nat, x: int)
    requires IsUnsigned(w, x)
    ensures Wrap(w, x) == x
  {
    DivModUnique(x, Pow2(w), 0, x);
  }

  lemma WrapSignedId(w: nat, x: int)
    requires w >= 1 && IsSigned(w, x)
    ensures WrapSigned(w, x) == x
  {
    if x < 0 {
      DivModUnique(x, Pow2(w), -1, x + Pow2(w));
    } else {
      DivModUnique(x, Pow2(w), 0, x);
    }
  }

  /** Adding a multiple of the modulus changes nothing. */
  lemma Shifted(x: int, m: int, k: int)
    requires m > 0
    ensures (x + k * m) % m == x % m
    ensures (x + k * m) / m == x / m + k
  {
    assert (x / m + k) * m == (x / m) * m + k * m;
    DivModUnique(x + k * m, m, x / m + k, x % m);
  }

  lemma MulAtMost(x: int, y: int, z: int)
    requires x <= y && 0 <= z
    ensures x * z <= y * z
  {
  }

  lemma MulBelow(x: int, y: int, z: int)
    requires x < y && 0 < z
    ensures x * z < y * z
  {
  }

  lemma MulStep(x: int, y: int, z: int)
    requires x < y && 0 <= z
    ensures x * z + z <= y * z
  {
    assert (x + 1) * z == x * z + z;
    MulAtMost(x + 1, y, z);
  }

  lemma CancelFactor(x: int, y: int, z: int)
    requires 0 < z && x * z < y * z
    ensures x < y
  {
    if y <= x {
      MulAtMost(y, x, z);
    }
  }

  lemma DivModUnique(x: int, m: int, q: int, r: int)
    requires m > 0 && 0 <= r < m
    requires x == q * m + r
    ensures x / m == q && x % m == r
  {
    var q', r' := x / m, x % m;
    assert x == q' * m + r';
    if q < q' {
      MulStep(q, q', m);
    } else if q' < q {
      MulStep(q', q, m);
    }
  }

  lemma Pow2Values()
    ensures Pow2(8) == 0x100
    ensures Pow2(31) == 0x8000_0000
    ensures Pow2(32) == 0x1_0000_0000
    ensures Pow2(63) == 0x8000_0000_0000_0000
    ensures Pow2(64) == 0x1_0000_0000_0000_0000
  {
    assert Pow2(4) == 16;
    Pow2Add(4, 4);
    Pow2Add(8, 8);
    Pow2Add(16, 16);
    Pow2Add(32, 32);
    assert Pow2(32) == 2 * Pow2(31);
    assert Pow2(64) == 2 * Pow2(63);
  }
}
