/** Recognising a positive or negative power of two, and what a multiplication by one amounts to. */
module PowerOfTwo {
  import opened Words

  /** `x & -x`: the lowest set bit of the two's complement representation. */
  function LowestBit(x: int): (r: nat)
    ensures x != 0 ==> 0 < r <= Abs(x)
    decreases Abs(x)
  {
    if x == 0 then 0 else if x % 2 == 1 then 1 else 2 * LowestBit(x / 2)
  }

  predicate IsNonNegativePowerOf2(w: nat, x: int)
    requires w >= 1
  {
    x != -(Pow2(w - 1) as int) && WrapSigned(w, LowestBit(x)) == x
  }

  predicate IsNonPositivePowerOf2(w: nat, x: int)
    requires w >= 1
  {
    WrapSigned(w, LowestBit(x)) == WrapSigned(w, -x)
  }

  lemma {:induction false} LowestBitOfPower(n: nat)
    ensures LowestBit(Pow2(n)) == Pow2(n) && LowestBit(-(Pow2(n) as int)) == Pow2(n)
  {
    if n > 0 {
      LowestBitOfPower(n - 1);
      assert Pow2(n) / 2 == Pow2(n - 1) && (-(Pow2(n) as int)) / 2 == -(Pow2(n - 1) as int);
    }
  }

  lemma {:induction false} LowestBitIsPower(x: int) returns (n: nat)
    requires x != 0
    ensures LowestBit(x) == Pow2(n)
    decreases Abs(x)
  {
    if x % 2 == 1 {
      n := 0;
    } else {
      n := LowestBitIsPower(x / 2);
      n := n + 1;
    }
  }

  /** The bit tricks recognise exactly 0 and the powers of two in range. */
  lemma RecognisedPowers(w: nat, x: int)
    requires w >= 1 && IsSigned(w, x)
    ensures IsNonNegativePowerOf2(w, x) <==> x >= 0 && LowestBit(x) == x
    ensures IsNonPositivePowerOf2(w, x) <==> x <= 0 && LowestBit(x) == -x
  {
    var half, bit := Pow2(w - 1), LowestBit(x);
    if bit < half {
      WrapSignedId(w, bit);
    } else {
      DivModUnique(half, 2 * half, 0, half);
    }
    if -x < half {
      WrapSignedId(w, -x);
    } else {
      DivModUnique(half, 2 * half, 0, half);
    }
  }

  /** The unsigned word of the negation of a non-positive word, the most negative one included. */
  lemma NegatedWord(w: nat, x: int)
    requires w >= 1 && IsSigned(w, x) && x <= 0
    ensures IsSigned(w, WrapSigned(w, -x)) && Wrap(w, WrapSigned(w, -x)) == -x
  {
    var full := Pow2(w);
    DivModUnique(-x, full, 0, -x);
    if -x == Pow2(w - 1) {
      DivModUnique(x, full, -1, -x);
    }
  }

  lemma LowestBitOfNegated(x: int)
    requires LowestBit(x) == -x
    ensures LowestBit(-x) == -x
  {
    if x != 0 {
      var n := LowestBitIsPower(x);
      LowestBitOfPower(n);
    }
  }

  /** n if `value` is 2^n or -2^n, and -1 if it is neither; 0 also counts as 2^0 here. */
  method CheckPositiveOrNegativePowerOfTwo(w: nat, value: int) returns (shift: int)
    requires w >= 1 && IsSigned(w, value)
    ensures -1 <= shift < w
    ensures shift > 0 ==> value == Pow2(shift) || value == -(Pow2(shift) as int)
    ensures shift == 0 <==> -1 <= value <= 1
    ensures shift == -1 ==> forall n: nat :: value != Pow2(n) && value != -(Pow2(n) as int)
  {
    RecognisedPowers(w, value);
    if IsNonNegativePowerOf2(w, value) {
      WrapId(w, value);
      shift := CountShifts(w, value);
    } else if IsNonPositivePowerOf2(w, value) {
      NegatedWord(w, value);
      LowestBitOfNegated(value);
      shift := CountShifts(w, WrapSigned(w, -value));
    } else {
      shift := -1;
      forall n: nat
        ensures value != Pow2(n) && value != -(Pow2(n) as int)
      {
        LowestBitOfPower(n);
      }
    }
  }

  /** Shift an unsigned word right until nothing is left. */
  method CountShifts(w: nat, word: int) returns (shift: int)
    requires w >= 1 && IsSigned(w, word) && LowestBit(Wrap(w, word)) == Wrap(w, word)
    ensures 0 <= shift < w
    ensures Wrap(w, word) == 0 ==> shift == 0
    ensures Wrap(w, word) != 0 ==> Wrap(w, word) == Pow2(shift)
  {
    var value: nat := Wrap(w, word) / 2;
    shift := 0;
    ghost var n := 0;
    if Wrap(w, word) != 0 {
      n := LowestBitIsPower(Wrap(w, word));
      Pow2Strict(n, w);
    }
    while value != 0
      invariant 0 <= shift < w && (Wrap(w, word) == 0 ==> value == 0 && shift == 0)
      invariant Wrap(w, word) != 0 ==> shift <= n && value == (if shift == n then 0 else Pow2(n - shift - 1))
    {
      value := value / 2;
      shift := shift + 1;
    }
  }

  lemma WrapTimes(w: nat, x: int, y: int)
    ensures Wrap(w, x * Wrap(w, y)) == Wrap(w, x * y)
  {
    var k := y / Pow2(w);
    assert y == k * Pow2(w) + Wrap(w, y);
    assert x * y == x * Wrap(w, y) + (x * k) * Pow2(w) by {
      MulAssociative(x, k, Pow2(w));
    }
    Shifted(x * Wrap(w, y), Pow2(w), x * k);
  }

  lemma WrapNegated(w: nat, x: int)
    ensures Wrap(w, -Wrap(w, x)) == Wrap(w, -x)
  {
    var k := x / Pow2(w);
    assert x == k * Pow2(w) + Wrap(w, x);
    assert -x == -Wrap(w, x) + (-k) * Pow2(w);
    Shifted(-Wrap(w, x), Pow2(w), -k);
  }

  /** Multiplying by 2^n is shifting left by n; multiplying by -2^n is negating that. */
  lemma TimesPower(w: nat, x: int, v: int, n: nat)
    requires v == Pow2(n) || v == -(Pow2(n) as int)
    ensures v > 0 ==> Wrap(w, x * Wrap(w, v)) == Wrap(w, x * Pow2(n))
    ensures v < 0 ==> Wrap(w, x * Wrap(w, v)) == Wrap(w, -Wrap(w, x * Pow2(n)))
  {
    WrapTimes(w, x, v);
    if v < 0 {
      assert x * v == -(x * Pow2(n));
      WrapNegated(w, x * Pow2(n));
    }
  }
}
