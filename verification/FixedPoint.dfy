/** 16.16 fixed point (m_fixed.c). */
module FixedPoint {
  import opened CArith

  const FRACUNIT := 0x1_0000

  /** The 64-bit product, shifted right (rounding down) and cut to 32 bits. */
  function FixedMul(a: int, b: int): (r: int)
    ensures IsInt32(r)
  {
    Wrap32(a * b / FRACUNIT)
  }

  /** abs() on a two's complement int: INT_MIN has no positive counterpart and stays put. */
  function CAbs(x: int): int {
    if x == INT_MIN then INT_MIN else Abs(x)
  }

  /** The guard in front of the division. */
  predicate Saturates(a: int, b: int) {
    CAbs(a) / 0x4000 >= CAbs(b)
  }

  function FixedDiv(a: int, b: int): (r: int)
    requires IsInt32(a) && IsInt32(b)
    requires !(a == INT_MIN && b == 0)
    ensures IsInt32(r)
  {
    if Saturates(a, b) then
      if (a < 0) != (b < 0) then INT_MIN else INT_MAX
    else
      Wrap32(TruncDiv(a * FRACUNIT, b))
  }

  /** The division is reached with a zero divisor for one pair of inputs only. */
  lemma DividesByZeroOnlyAtMin(a: int, b: int)
    requires IsInt32(a) && IsInt32(b)
    ensures !Saturates(a, b) && b == 0 <==> a == INT_MIN && b == 0
  {
  }

  /** What the guard means: it fires exactly when the true quotient is at least 2^14 in
      magnitude, half of what the format can hold. */
  lemma GuardBoundsQuotient(a: int, b: int)
    requires INT_MIN < a <= INT_MAX && INT_MIN < b <= INT_MAX
    ensures Saturates(a, b) <==> Abs(a) >= 0x4000 * Abs(b)
  {
  }

  /** Past the guard nothing is lost in the cut to 32 bits: the result is the quotient
      truncated toward zero and needs fewer than 31 bits. */
  lemma QuotientFits(a: int, b: int)
    requires INT_MIN < a <= INT_MAX && INT_MIN < b <= INT_MAX
    requires !Saturates(a, b)
    ensures b != 0
    ensures Abs(FixedDiv(a, b)) < 0x4000_0000
    ensures FixedDiv(a, b) == TruncDiv(a * FRACUNIT, b)
  {
    GuardBoundsQuotient(a, b);
    QuotientBelow(a * FRACUNIT, b, 0x4000_0000);
  }

  /** Which way it saturates: up when the operands are on the same side, with zero among the
      positive ones, and down otherwise. */
  lemma SaturatesBySign(a: int, b: int)
    requires IsInt32(a) && IsInt32(b) && !(a == INT_MIN && b == 0)
    requires Saturates(a, b) || (a != INT_MIN && b != INT_MIN && Abs(a) >= 0x4000 * Abs(b))
    ensures (a < 0 && b < 0) || (a >= 0 && b >= 0) ==> FixedDiv(a, b) == 0x7fff_ffff
    ensures (a < 0 && b >= 0) || (a >= 0 && b < 0) ==> FixedDiv(a, b) == -0x8000_0000
    ensures a > 0 && b != 0 ==> FixedDiv(a, b) * b > 0
    ensures a < 0 && b != 0 ==> FixedDiv(a, b) * b < 0
  {
    if a != INT_MIN && b != INT_MIN {
      GuardBoundsQuotient(a, b);
    }
  }

  /** A divisor of INT_MIN always saturates, whatever the dividend. */
  lemma MinDivisorSaturates(a: int)
    requires IsInt32(a)
    ensures FixedDiv(a, INT_MIN) == if a < 0 then INT_MAX else INT_MIN
  {
  }

  /** A dividend of INT_MIN slips past the guard, so its quotient is cut to 32 bits, and survives
      that only when the divisor is large enough. */
  lemma MinDividendExact(b: int)
    requires INT_MIN < b <= INT_MAX && b != 0
    ensures !Saturates(INT_MIN, b)
    ensures (FixedDiv(INT_MIN, b) - TruncDiv(INT_MIN * FRACUNIT, b)) % TWO32 == 0
    ensures FixedDiv(INT_MIN, b) == TruncDiv(INT_MIN * FRACUNIT, b) <==> b >= FRACUNIT || b < -FRACUNIT
  {
    var n := INT_MIN * FRACUNIT;
    if b >= FRACUNIT {
      QuotientBelow(n, b, 0x8000_0001);
    } else if b < -FRACUNIT {
      QuotientBelow(n, b, 0x8000_0000);
    } else if b > 0 {
      QuotientAbove(n, b, 0x8000_0001);
    } else {
      QuotientAbove(n, b, 0x8000_0000);
    }
  }

  /** A product is rounded down and cut to 32 bits; one that fits is only rounded. */
  lemma MulRounds(a: int, b: int)
    ensures (a * b - FRACUNIT * FixedMul(a, b)) % (FRACUNIT * TWO32) < FRACUNIT
    ensures -0x8000_0000 * FRACUNIT <= a * b < 0x8000_0000 * FRACUNIT ==>
      FRACUNIT * FixedMul(a, b) <= a * b < FRACUNIT * FixedMul(a, b) + FRACUNIT
  {
    var product := a * b;
    var q, r := product / FRACUNIT, FixedMul(a, b);
    var lap := (q - r) / TWO32;
    assert q == r + lap * TWO32;
    assert product - FRACUNIT * r == FRACUNIT * TWO32 * lap + product % FRACUNIT;
  }

  /** The divisors for which a dividend of INT_MIN is not lost. */
  predicate Holds(a: int, b: int) {
    a == INT_MIN ==> b >= FRACUNIT || b <= -FRACUNIT
  }

  /** Multiplying the quotient back gives the dividend to within |b|/65536 + 1. */
  predicate Recovers(a: int, b: int)
    requires IsInt32(a) && IsInt32(b) && b != 0
  {
    FRACUNIT * Abs(FixedMul(FixedDiv(a, b), b) - a) < Abs(b) + FRACUNIT
  }

  lemma MulBack(a: int, b: int)
    requires IsInt32(a) && IsInt32(b) && b != 0 && FixedDiv(a, b) == TruncDiv(a * FRACUNIT, b)
    ensures Recovers(a, b)
  {
    var p := TruncDiv(a * FRACUNIT, b) * b;
    TruncDivProduct(a * FRACUNIT, b);
    assert Abs(a * FRACUNIT - p) < Abs(b);
    assert FRACUNIT * (p / FRACUNIT) <= p < FRACUNIT * (p / FRACUNIT) + FRACUNIT;
    assert FixedMul(FixedDiv(a, b), b) == p / FRACUNIT;
  }

  /** A product of any 32-bit number with a divisor this small is far from INT_MIN. */
  lemma MinDividendLost(b: int)
    requires -FRACUNIT < b < FRACUNIT && b != 0
    ensures FixedMul(FixedDiv(INT_MIN, b), b) - INT_MIN >= 0x8000
    ensures !Recovers(INT_MIN, b)
  {
    var q := FixedDiv(INT_MIN, b);
    MulBound(q, b, 0x8000_0000, FRACUNIT - 1);
    assert -0x8000_0000 + 0x8000 <= q * b / FRACUNIT <= 0x8000_0000 - 0x8000;
  }

  /** Whenever the division is reached, multiplying back recovers the dividend exactly unless a
      dividend of INT_MIN met a divisor below 1.0. */
  lemma MulUndoesDiv(a: int, b: int)
    requires IsInt32(a) && IsInt32(b) && !Saturates(a, b) && b != 0
    ensures Recovers(a, b) <==> Holds(a, b)
  {
    if a > INT_MIN {
      QuotientFits(a, b);
      MulBack(a, b);
    } else if -FRACUNIT < b < FRACUNIT {
      MinDividendLost(b);
    } else if b == -FRACUNIT {
      assert FixedDiv(INT_MIN, b) == INT_MIN;
    } else {
      MinDividendExact(b);
      MulBack(a, b);
    }
  }
}
