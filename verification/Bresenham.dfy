/** The pixels of a line as AM_drawFline (am_map.c) steps through them. */
module Bresenham {
  import opened CArith
  import opened Clip
  import opened ClipMeaning

  /** How far the minor axis has moved after k of n major steps, m being the whole of it: the
      nearest whole number to k * m / n, halves rounded up. */
  function Minor(k: nat, n: nat, m: nat): nat {
    if n == 0 then 0 else NatDiv(2 * (k * m) + n, 2 * n)
  }

  lemma MinorNearest(k: nat, n: nat, m: nat)
    requires n > 0
    ensures 0 - n < 2 * (Minor(k, n, m) * n) - 2 * (k * m) <= n
  {
    var q := Minor(k, n, m);
    assert q * (2 * n) == 2 * (q * n);
  }

  lemma MinorIs(k: nat, n: nat, m: nat, q: int)
    requires n > 0 && 0 - n < 2 * (q * n) - 2 * (k * m) <= n
    ensures Minor(k, n, m) == q
  {
    MinorNearest(k, n, m);
    var p := Minor(k, n, m);
    if p < q {
      MulStep(p, q, n);
    } else if q < p {
      MulStep(q, p, n);
    }
  }

  lemma MinorEnds(n: nat, m: nat)
    ensures Minor(0, n, m) == 0
    ensures n > 0 ==> Minor(n, n, m) == m
  {
    if n > 0 {
      MinorIs(0, n, m, 0);
      MinorIs(n, n, m, m);
    }
  }

  /** The decision variable tells whether the next step moves the minor axis. */
  lemma MinorNext(k: nat, n: nat, m: nat)
    requires n > 0 && m <= n
    ensures var d := 2 * (k * m) + 2 * m - n - 2 * (Minor(k, n, m) * n);
      Minor(k + 1, n, m) == if d >= 0 then Minor(k, n, m) + 1 else Minor(k, n, m)
    ensures (k + 1) * m == k * m + m
    ensures (Minor(k, n, m) + 1) * n == Minor(k, n, m) * n + n
  {
    MinorNearest(k, n, m);
    var q := Minor(k, n, m);
    var d := 2 * (k * m) + 2 * m - n - 2 * (q * n);
    assert (k + 1) * m == k * m + m && (q + 1) * n == q * n + n;
    MinorIs(k + 1, n, m, if d >= 0 then q + 1 else q);
  }

  lemma {:induction false} MinorGrows(k: nat, n: nat, m: nat)
    requires k <= n && m <= n
    ensures Minor(k, n, m) <= m
    decreases n - k
  {
    MinorEnds(n, m);
    if k == n {
    } else {
      MinorNext(k, n, m);
      MinorGrows(k + 1, n, m);
    }
  }

  // ---- Pixels ----

  function Toward(from: int, to: int, steps: nat): int {
    if to < from then from - steps else from + steps
  }

  predicate Steep(l: Segment) {
    Abs(l.b.x - l.a.x) <= Abs(l.b.y - l.a.y)
  }

  /** One step for every pixel of the longer axis. */
  function Steps(l: Segment): nat {
    if Steep(l) then Abs(l.b.y - l.a.y) else Abs(l.b.x - l.a.x)
  }

  function Pixel(l: Segment, k: nat): Point {
    var dx, dy := Abs(l.b.x - l.a.x), Abs(l.b.y - l.a.y);
    if Steep(l) then Point(Toward(l.a.x, l.b.x, Minor(k, dy, dx)), Toward(l.a.y, l.b.y, k))
    else Point(Toward(l.a.x, l.b.x, k), Toward(l.a.y, l.b.y, Minor(k, dx, dy)))
  }

  /** The line starts at a, ends exactly at b, and never leaves its bounding box. */
  lemma PixelsInBox(l: Segment, k: nat)
    requires k <= Steps(l)
    ensures InBox(Pixel(l, k), l)
    ensures Pixel(l, 0) == l.a && Pixel(l, Steps(l)) == l.b
  {
    var dx, dy := Abs(l.b.x - l.a.x), Abs(l.b.y - l.a.y);
    if Steep(l) {
      MinorGrows(k, dy, dx);
      MinorEnds(dy, dx);
    } else {
      MinorGrows(k, dx, dy);
      MinorEnds(dx, dy);
    }
  }

  lemma MajorExact(a: int, b: int, k: nat, n: nat, t: real)
    requires n == Abs(b - a) && t * n as real == k as real
    ensures Lerp(a as real, b as real, t) == Toward(a, b, k) as real
  {
    LerpForward(a as real, b as real, t, k as real);
  }

  lemma HalfOff(q: real, k: real, n: real, m: real, t: real)
    requires n > 0.0 && t * n == k && 0.0 - n < 2.0 * (q * n) - 2.0 * (k * m) <= n
    ensures Within(q, t * m, 0.5)
  {
    var e := q - t * m;
    calc {
      e * n;
      q * n - (t * m) * n;
      { assert (t * m) * n == (t * n) * m; }
      q * n - k * m;
    }
    MulNonneg(e - 0.5, n);
    MulNonneg(-e - 0.5, n);
  }

  lemma HalfQuotient(q: nat, k: nat, n: nat, m: nat, t: real)
    requires n > 0 && t * n as real == k as real && 0 - n < 2 * (q * n) - 2 * (k * m) <= n
    ensures Within(q as real, t * m as real, 0.5)
  {
    RealMul(q, n);
    RealMul(k, m);
    HalfOff(q as real, k as real, n as real, m as real, t);
  }

  lemma MinorHalf(a: int, b: int, k: nat, n: nat, t: real)
    requires n > 0 && t * n as real == k as real
    ensures Within(Toward(a, b, Minor(k, n, Abs(b - a))) as real, Lerp(a as real, b as real, t), 0.5)
  {
    hide Lerp, Minor;
    var m := Abs(b - a);
    MinorNearest(k, n, m);
    HalfQuotient(Minor(k, n, m), k, n, m, t);
    LerpForward(a as real, b as real, t, t * m as real);
  }

  /** Every pixel is exact on the longer axis and within half a pixel of the true segment on the
      other. */
  lemma PixelNear(l: Segment, k: nat)
    requires k <= Steps(l)
    ensures Near(Pixel(l, k).x as real, Pixel(l, k).y as real, l, 0.5)
  {
    hide Minor, Lerp;
    var p, n := Pixel(l, k), Steps(l);
    if n == 0 {
      PixelsInBox(l, k);
      NearItself(l);
      NearWider(l.a.x as real, l.a.y as real, l, 0.0, 0.5);
    } else {
      var t := RealFraction(k, n);
      if Steep(l) {
        MajorExact(l.a.y, l.b.y, k, n, t);
        MinorHalf(l.a.x, l.b.x, k, n, t);
      } else {
        MajorExact(l.a.x, l.b.x, k, n, t);
        MinorHalf(l.a.y, l.b.y, k, n, t);
      }
      assert NearAt(p.x as real, p.y as real, l, t, 0.5);
    }
  }
}
