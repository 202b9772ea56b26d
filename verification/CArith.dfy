/** C integer arithmetic: 32-bit ranges, two's complement wrap-around, and the division that
    truncates toward zero. An arithmetic shift right by n is Dafny's division by 2^n. */
module CArith {

  const INT_MIN := -0x8000_0000
  const INT_MAX := 0x7fff_ffff
  const TWO32 := 0x1_0000_0000

  predicate IsInt32(x: int) {
    INT_MIN <= x <= INT_MAX
  }

  /** Conversion of any integer to a 32-bit signed one. */
  function Wrap32(x: int): (r: int)
    ensures IsInt32(r)
    ensures IsInt32(x) ==> r == x
    ensures (r - x) % TWO32 == 0
  {
    (x + 0x8000_0000) % TWO32 - 0x8000_0000
  }

  function Abs(x: int): (r: nat)
    ensures r == x || r == -x
  {
    if x < 0 then -x else x
  }

  function Min(x: int, y: int): (r: int)
    ensures r <= x && r <= y && (r == x || r == y)
  {
    if x < y then x else y
  }

  function Max(x: int, y: int): (r: int)
    ensures r >= x && r >= y && (r == x || r == y)
  {
    if x > y then x else y
  }

  function NatDiv(a: nat, c: nat): (q: nat)
    requires c > 0
    ensures q * c <= a < q * c + c
  {
    assert a == c * (a / c) + a % c;
    a / c
  }

  /** C's `/`: rounds toward zero. */
  function TruncDiv(n: int, d: int): (q: int)
    requires d != 0
    ensures Abs(q) == NatDiv(Abs(n), Abs(d))
    ensures if (n >= 0) == (d > 0) then q >= 0 else q <= 0
  {
    var q: int := NatDiv(Abs(n), Abs(d));
    if (n >= 0) == (d > 0) then q else -q
  }

  /** The quotient times the divisor lies between 0 and the dividend, less than |d| short of it. */
  lemma TruncDivProduct(n: int, d: int)
    requires d != 0
    ensures Abs(n - TruncDiv(n, d) * d) < Abs(d)
    ensures n >= 0 ==> 0 <= TruncDiv(n, d) * d <= n
    ensures n <= 0 ==> n <= TruncDiv(n, d) * d <= 0
  {
    var p, q := NatDiv(Abs(n), Abs(d)), TruncDiv(n, d);
    if n >= 0 {
      assert q * d == p * Abs(d);
    } else {
      assert q * d == -(p * Abs(d));
    }
  }

  lemma QuotientBelow(n: int, d: int, k: nat)
    requires d != 0 && Abs(n) < k * Abs(d)
    ensures Abs(TruncDiv(n, d)) < k
  {
    if NatDiv(Abs(n), Abs(d)) >= k {
      MulMono(k, NatDiv(Abs(n), Abs(d)), Abs(d));
    }
  }

  lemma MulMono(a: int, b: int, c: int)
    requires a <= b && 0 <= c
    ensures a * c <= b * c
  {
  }

  lemma MulStep(a: int, b: int, c: int)
    requires a < b && 0 <= c
    ensures a * c + c <= b * c
  {
    MulMono(a + 1, b, c);
    assert (a + 1) * c == a * c + c;
  }

  lemma QuotientAbove(n: int, d: int, k: nat)
    requires d != 0 && Abs(n) >= k * Abs(d)
    ensures Abs(TruncDiv(n, d)) >= k
  {
    if NatDiv(Abs(n), Abs(d)) < k {
      MulStep(NatDiv(Abs(n), Abs(d)), k, Abs(d));
    }
  }

  lemma MulBound(a: int, b: int, m: nat, n: nat)
    requires Abs(a) <= m && Abs(b) <= n
    ensures Abs(a * b) <= m * n
  {
    MulMono(Abs(a), m, Abs(b));
    MulMono(Abs(b), n, m);
    assert Abs(a * b) == Abs(a) * Abs(b);
  }
}
