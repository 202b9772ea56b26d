/** What the integer clip loop means for the true segment: the drawn part stays close to it, and
    no part of it well inside the window is lost. Distances are the larger of the two axes, in
    pixels. */
module ClipMeaning {
  import opened CArith
  import opened Clip

  /** The value a fraction t of the way from a to b. */
  function Lerp(a: real, b: real, t: real): real {
    a + t * (b - a)
  }

  function XAt(l: Segment, t: real): real {
    Lerp(l.a.x as real, l.b.x as real, t)
  }

  function YAt(l: Segment, t: real): real {
    Lerp(l.a.y as real, l.b.y as real, t)
  }

  predicate Within(a: real, b: real, k: real) {
    -k <= a - b <= k
  }

  /** (x, y) is within k of the point of the segment a fraction t along it. */
  predicate NearAt(x: real, y: real, l: Segment, t: real, k: real) {
    0.0 <= t <= 1.0 && Within(x, XAt(l, t), k) && Within(y, YAt(l, t), k)
  }

  ghost predicate Near(x: real, y: real, l: Segment, k: real) {
    exists t :: NearAt(x, y, l, t, k)
  }

  // ---- Real arithmetic ----

  lemma LerpEnds(a: real, b: real)
    ensures Lerp(a, b, 0.0) == a && Lerp(a, b, 1.0) == b
  {
  }

  lemma LerpOfLerps(a: real, b: real, t1: real, t2: real, u: real)
    ensures Lerp(a, b, Lerp(t1, t2, u)) == Lerp(Lerp(a, b, t1), Lerp(a, b, t2), u)
  {
  }

  lemma LerpDifference(a: real, b: real, s: real, t: real)
    ensures Lerp(a, b, s) - Lerp(a, b, t) == (s - t) * (b - a)
  {
  }

  lemma MulNonneg(a: real, b: real)
    ensures a >= 0.0 && b >= 0.0 ==> a * b >= 0.0
    ensures a > 0.0 && b > 0.0 ==> a * b > 0.0
  {
  }

  /** Interpolating between close pairs keeps them close. */
  lemma LerpWithin(a: real, b: real, c: real, d: real, u: real, k: real)
    requires 0.0 <= u <= 1.0 && Within(a, c, k) && Within(b, d, k)
    ensures Within(Lerp(a, b, u), Lerp(c, d, u), k)
  {
    MulNonneg(1.0 - u, k - (a - c));
    MulNonneg(1.0 - u, k + (a - c));
    MulNonneg(u, k - (b - d));
    MulNonneg(u, k + (b - d));
  }

  lemma LerpInUnit(t1: real, t2: real, u: real)
    requires 0.0 <= t1 <= 1.0 && 0.0 <= t2 <= 1.0 && 0.0 <= u <= 1.0
    ensures 0.0 <= Lerp(t1, t2, u) <= 1.0
  {
    LerpWithin(t1, t2, 0.5, 0.5, u, 0.5);
  }

  lemma RealMul(a: int, b: int)
    ensures (a * b) as real == a as real * b as real
  {
  }

  // ---- Segments ----

  /** Points between two points near a segment are as near to it. */
  lemma NearBetween(x1: real, y1: real, t1: real, x2: real, y2: real, t2: real, u: real, l: Segment, k: real)
    requires NearAt(x1, y1, l, t1, k) && NearAt(x2, y2, l, t2, k) && 0.0 <= u <= 1.0
    ensures NearAt(Lerp(x1, x2, u), Lerp(y1, y2, u), l, Lerp(t1, t2, u), k)
  {
    hide Lerp;
    LerpWithin(x1, x2, XAt(l, t1), XAt(l, t2), u, k);
    LerpWithin(y1, y2, YAt(l, t1), YAt(l, t2), u, k);
    LerpOfLerps(l.a.x as real, l.b.x as real, t1, t2, u);
    LerpOfLerps(l.a.y as real, l.b.y as real, t1, t2, u);
    LerpInUnit(t1, t2, u);
  }

  ghost predicate EndsNear(m: Segment, l: Segment, k: real) {
    Near(m.a.x as real, m.a.y as real, l, k) && Near(m.b.x as real, m.b.y as real, l, k)
  }

  lemma NearWider(x: real, y: real, l: Segment, k: real, k': real)
    requires Near(x, y, l, k) && k <= k'
    ensures Near(x, y, l, k')
  {
    var t :| NearAt(x, y, l, t, k);
    assert NearAt(x, y, l, t, k');
  }

  /** What is within j of a segment whose ends are within k of `l` is within j + k of `l`. */
  lemma NearThrough(x: real, y: real, m: Segment, l: Segment, j: real, k: real)
    requires Near(x, y, m, j) && EndsNear(m, l, k)
    ensures Near(x, y, l, j + k)
  {
    hide Lerp;
    var u :| NearAt(x, y, m, u, j);
    var t1 :| NearAt(m.a.x as real, m.a.y as real, l, t1, k);
    var t2 :| NearAt(m.b.x as real, m.b.y as real, l, t2, k);
    NearBetween(m.a.x as real, m.a.y as real, t1, m.b.x as real, m.b.y as real, t2, u, l, k);
    assert NearAt(x, y, l, Lerp(t1, t2, u), j + k);
  }

  // ---- One cut ----

  predicate IsRatio(t: real, num: int, den: int) {
    t * den as real == num as real
  }

  lemma QuotientClose(q: real, d: real, num: real, den: real, t: real)
    requires den > 0.0 && -den < d * num - q * den < den && t * den == num
    ensures -1.0 < q - t * d < 1.0
  {
    assert d * num - q * den == (t * d - q) * den by {
      assert d * (t * den) == t * d * den;
    }
    MulNonneg(q - t * d - 1.0, den);
    MulNonneg(t * d - q - 1.0, den);
  }

  /** The rounded quotient is within 1 of the true product. */
  lemma InterpolateClose(q: int, d: int, num: int, den: int, t: real)
    requires den != 0 && Abs(d * num - q * den) < Abs(den) && IsRatio(t, num, den)
    ensures Within(q as real, t * d as real, 1.0)
  {
    RealMul(d, num);
    RealMul(q, den);
    if den > 0 {
      QuotientClose(q as real, d as real, num as real, den as real, t);
    } else {
      QuotientClose(q as real, d as real, -(num as real), -(den as real), t);
    }
  }

  lemma RealFraction(num: int, den: int) returns (t: real)
    requires Fraction(num, den)
    ensures 0.0 <= t <= 1.0 && IsRatio(t, num, den)
  {
    t := num as real / den as real;
  }

  /** (x, y) lies at least m pixels inside the window. */
  predicate Deep(x: real, y: real, win: Window, m: real) {
    m <= x <= (win.w - 1) as real - m && m <= y <= (win.h - 1) as real - m
  }

  /** The side that the line is cut at, and how far along the line that is. */
  predicate CutAt(l: Segment, win: Window, t: real)
    requires Reachable(l, win) && Straddles(l, win)
  {
    var o := Outside(l, win);
    && 0.0 <= t <= 1.0
    && (if o.top then YAt(l, t) == 0.0
        else if o.bottom then YAt(l, t) == win.h as real
        else if o.right then XAt(l, t) == (win.w - 1) as real
        else XAt(l, t) == 0.0)
  }

  lemma LerpForward(a: real, b: real, t: real, num: real)
    ensures t * (b - a) == num ==> Lerp(a, b, t) == a + num
    ensures t * (a - b) == num ==> Lerp(a, b, t) == a - num
  {
  }

  lemma LerpOffset(a: int, b: int, t: real, q: int)
    requires Within(q as real, t * (b - a) as real, 1.0)
    ensures Within((a + q) as real, Lerp(a as real, b as real, t), 1.0)
  {
  }

  /** The coordinate that is divided out: rounding moves it by less than a pixel. */
  lemma RoundedCoordinate(a: int, b: int, num: int, den: int, t: real)
    requires Fraction(num, den) && IsRatio(t, num, den)
    ensures Within((a + Scaled(b - a, num, den)) as real, Lerp(a as real, b as real, t), 1.0)
  {
    hide Lerp, Scaled, IsRatio;
    Interpolate(b - a, num, den);
    InterpolateClose(Scaled(b - a, num, den), b - a, num, den, t);
    LerpOffset(a, b, t, Scaled(b - a, num, den));
  }

  /** The other coordinate is known exactly. */
  lemma ExactCoordinate(a: int, b: int, num: int, den: int, t: real)
    requires IsRatio(t, num, den)
    ensures den == b - a ==> Lerp(a as real, b as real, t) == (a + num) as real
    ensures den == a - b ==> Lerp(a as real, b as real, t) == (a - num) as real
  {
    LerpForward(a as real, b as real, t, num as real);
  }

  /** The moved endpoint is within a pixel of where the line crosses the side. */
  lemma CutIsClose(l: Segment, win: Window) returns (t: real)
    requires Reachable(l, win) && Straddles(l, win)
    ensures CutAt(l, win, t)
    ensures NearAt(Cut(l, win).x as real, Cut(l, win).y as real, l, t, 1.0)
  {
    hide Lerp, Scaled, IsRatio, Fraction;
    var o, f := Outside(l, win), Crossing(l, win);
    t := RealFraction(f.0, f.1);
    RoundedCoordinate(l.a.x, l.b.x, f.0, f.1, t);
    RoundedCoordinate(l.a.y, l.b.y, f.0, f.1, t);
    ExactCoordinate(l.a.x, l.b.x, f.0, f.1, t);
    ExactCoordinate(l.a.y, l.b.y, f.0, f.1, t);
  }

  lemma OrderBySlope(s: real, t: real, d: real)
    ensures d > 0.0 && (s - t) * d >= 0.0 ==> t <= s
    ensures d < 0.0 && (s - t) * d <= 0.0 ==> t <= s
    ensures d > 0.0 && (s - t) * d <= 0.0 ==> s <= t
    ensures d < 0.0 && (s - t) * d >= 0.0 ==> s <= t
  {
    assert (t - s) * d == -((s - t) * d) && (t - s) * -d == (s - t) * d && (s - t) * -d == -((s - t) * d);
    MulNonneg(t - s, d);
    MulNonneg(t - s, -d);
    MulNonneg(s - t, d);
    MulNonneg(s - t, -d);
  }

  /** What the line has inside the window lies on the part that is kept. */
  lemma InsideIsKept(l: Segment, win: Window, t: real, s: real)
    requires Reachable(l, win) && Straddles(l, win) && CutAt(l, win, t)
    requires 0.0 <= s <= 1.0 && Deep(XAt(l, s), YAt(l, s), win, 0.0)
    ensures if win.Code(l.a).Any() then t <= s else s <= t
  {
    hide Lerp;
    var o := Outside(l, win);
    LerpDifference(l.a.y as real, l.b.y as real, s, t);
    LerpDifference(l.a.x as real, l.b.x as real, s, t);
    OrderBySlope(s, t, l.b.y as real - l.a.y as real);
    OrderBySlope(s, t, l.b.x as real - l.a.x as real);
  }

  // ---- The whole loop ----

  lemma NearItself(l: Segment)
    ensures EndsNear(l, l, 0.0)
  {
    LerpEnds(l.a.x as real, l.b.x as real);
    LerpEnds(l.a.y as real, l.b.y as real);
    assert NearAt(l.a.x as real, l.a.y as real, l, 0.0, 0.0);
    assert NearAt(l.b.x as real, l.b.y as real, l, 1.0, 0.0);
  }

  lemma StepStaysNear(l: Segment, win: Window, orig: Segment, k: real)
    requires Reachable(l, win) && Straddles(l, win) && EndsNear(l, orig, k) && k >= 0.0
    ensures EndsNear(ClipStep(l, win), orig, k + 1.0)
  {
    hide NearAt, Cut;
    var t := CutIsClose(l, win);
    var c := Cut(l, win);
    NearThrough(c.x as real, c.y as real, l, orig, 1.0, k);
    NearWider(l.a.x as real, l.a.y as real, orig, k, k + 1.0);
    NearWider(l.b.x as real, l.b.y as real, orig, k, k + 1.0);
  }

  lemma {:induction false} LoopStaysNear(l: Segment, win: Window, orig: Segment, k: real)
    requires Reachable(l, win) && !win.Code(l.a).Shares(win.Code(l.b)) && EndsNear(l, orig, k) && k >= 0.0
    ensures ClipLoop(l, win).Some? ==> EndsNear(ClipLoop(l, win).value, orig, k + Rounds(l, win) as real)
    decreases Outs(l, win)
  {
    hide EndsNear, Outcode.Shares, ClipStep;
    if !Straddles(l, win) {
    } else {
      CutInBox(l, win);
      StepProgresses(l, win);
      StepStaysNear(l, win, orig, k);
      var l' := ClipStep(l, win);
      if !win.Code(l'.a).Shares(win.Code(l'.b)) {
        LoopStaysNear(l', win, orig, k + 1.0);
      }
    }
  }

  /** The drawn part lies within four pixels of the true segment, one for each round. */
  lemma ClippedIsNear(l: Segment, win: Window)
    requires Reachable(l, win) && !win.Code(l.a).Shares(win.Code(l.b))
    ensures ClipLoop(l, win).Some? ==> EndsNear(ClipLoop(l, win).value, l, Rounds(l, win) as real)
    ensures Rounds(l, win) <= 4
  {
    NearItself(l);
    LoopStaysNear(l, win, l, 0.0);
  }

  lemma LerpSplit(a: real, b: real, t: real, u: real)
    ensures Lerp(Lerp(a, b, t), b, u) == Lerp(a, b, t + u * (1.0 - t))
    ensures Lerp(a, Lerp(a, b, t), u) == Lerp(a, b, t * u)
  {
    var d, w := b - a, u * (1.0 - t);
    calc {
      u * (b - Lerp(a, b, t));
      u * (d - t * d);
      { assert d - t * d == (1.0 - t) * d; }
      u * ((1.0 - t) * d);
      w * d;
    }
    assert (t + w) * d == t * d + w * d;
    assert u * (t * d) == (t * u) * d;
  }

  lemma UnitQuotient(n: real, d: real) returns (u: real)
    requires 0.0 <= n <= d && 0.0 < d
    ensures 0.0 <= u <= 1.0 && u * d == n
  {
    u := n / d;
  }

  /** s as a fraction of the way from t to 1, and of the way from 0 to t. */
  lemma Refraction(s: real, t: real) returns (u: real, v: real)
    requires 0.0 <= s <= 1.0 && 0.0 <= t <= 1.0
    ensures t <= s ==> 0.0 <= u <= 1.0 && t + u * (1.0 - t) == s
    ensures s <= t ==> 0.0 <= v <= 1.0 && t * v == s
  {
    u, v := 1.0, 0.0;
    if t <= s && t < 1.0 {
      u := UnitQuotient(s - t, 1.0 - t);
    }
    if s <= t && 0.0 < t {
      v := UnitQuotient(s, t);
    }
  }

  /** A point that is inside the window by more than its distance k from the line stays within
      k + 1 of the line when the line is cut. */
  lemma StepKeepsPoint(x: real, y: real, l: Segment, win: Window, k: real)
    requires Reachable(l, win) && Straddles(l, win) && Near(x, y, l, k) && k >= 0.0 && Deep(x, y, win, k)
    ensures Near(x, y, ClipStep(l, win), k + 1.0)
  {
    hide Lerp, Cut;
    var s :| NearAt(x, y, l, s, k);
    var t := CutIsClose(l, win);
    InsideIsKept(l, win, t, s);
    var u, v := Refraction(s, t);
    var c, l' := Cut(l, win), ClipStep(l, win);
    var x0, x1, y0, y1 := l.a.x as real, l.b.x as real, l.a.y as real, l.b.y as real;
    if win.Code(l.a).Any() {
      LerpSplit(x0, x1, t, u);
      LerpSplit(y0, y1, t, u);
      LerpWithin(XAt(l, t), x1, c.x as real, x1, u, 1.0);
      LerpWithin(YAt(l, t), y1, c.y as real, y1, u, 1.0);
      assert NearAt(x, y, l', u, k + 1.0);
    } else {
      LerpSplit(x0, x1, t, v);
      LerpSplit(y0, y1, t, v);
      LerpWithin(x0, XAt(l, t), x0, c.x as real, v, 1.0);
      LerpWithin(y0, YAt(l, t), y0, c.y as real, v, 1.0);
      assert NearAt(x, y, l', v, k + 1.0);
    }
  }

  lemma LerpSide(a: int, b: int, u: real)
    requires 0.0 <= u <= 1.0
    ensures Min(a, b) as real <= Lerp(a as real, b as real, u) <= Max(a, b) as real
  {
    MulNonneg(u, b as real - a as real);
    MulNonneg(1.0 - u, b as real - a as real);
    MulNonneg(u, a as real - b as real);
    MulNonneg(1.0 - u, a as real - b as real);
  }

  /** A line whose ends share a side has no point in the window. */
  lemma SharedSideIsOutside(x: real, y: real, l: Segment, win: Window, k: real)
    requires win.Valid() && win.Code(l.a).Shares(win.Code(l.b)) && Near(x, y, l, k)
    ensures !Deep(x, y, win, k)
  {
    var u :| NearAt(x, y, l, u, k);
    LerpSide(l.a.x, l.b.x, u);
    LerpSide(l.a.y, l.b.y, u);
  }

  lemma {:induction false} LoopKeepsPoint(x: real, y: real, l: Segment, win: Window, k: nat, m: nat)
    requires Reachable(l, win) && !win.Code(l.a).Shares(win.Code(l.b))
    requires Near(x, y, l, k as real) && k + Rounds(l, win) <= m && Deep(x, y, win, m as real)
    ensures ClipLoop(l, win).Some?
    ensures Near(x, y, ClipLoop(l, win).value, (k + Rounds(l, win)) as real)
    decreases Outs(l, win)
  {
    hide Near, Outcode.Shares, ClipStep;
    if !Straddles(l, win) {
    } else {
      CutInBox(l, win);
      StepProgresses(l, win);
      StepKeepsPoint(x, y, l, win, k as real);
      var l' := ClipStep(l, win);
      if win.Code(l'.a).Shares(win.Code(l'.b)) {
        SharedSideIsOutside(x, y, l', win, (k + 1) as real);
      } else {
        LoopKeepsPoint(x, y, l', win, k + 1, m);
      }
    }
  }

  /** A segment that reaches four pixels into the window is never rejected, and the drawn part
      passes within four pixels of every such point of it. */
  lemma DeepPointsAreKept(l: Segment, win: Window, t: real)
    requires Reachable(l, win) && 0.0 <= t <= 1.0
    requires 4.0 <= XAt(l, t) <= (win.w - 5) as real && 4.0 <= YAt(l, t) <= (win.h - 5) as real
    ensures !win.Code(l.a).Shares(win.Code(l.b)) && ClipLoop(l, win).Some?
    ensures Near(XAt(l, t), YAt(l, t), ClipLoop(l, win).value, Rounds(l, win) as real)
  {
    var x, y := XAt(l, t), YAt(l, t);
    assert NearAt(x, y, l, t, 0.0);
    if win.Code(l.a).Shares(win.Code(l.b)) {
      SharedSideIsOutside(x, y, l, win, 0.0);
    }
    LoopKeepsPoint(x, y, l, win, 0, 4);
  }
}
