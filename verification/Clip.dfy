/** Clipping map lines to the automap window (AM_clipMline in am_map.c): an integer
    Cohen-Sutherland loop on frame-buffer coordinates. */
module Clip {
  import opened CArith
  import opened Wrappers

  datatype Point = Point(x: int, y: int)

  datatype Segment = Segment(a: Point, b: Point)

  /** The window: f_w by f_h pixels, small enough for 16-bit coordinates around it. */
  datatype Window = Window(w: int, h: int) {
    predicate Valid() {
      0 < w < 0x8000 && 0 < h < 0x8000
    }

    predicate Contains(p: Point) {
      0 <= p.x < w && 0 <= p.y < h
    }

    /** Where CXMTOF and CYMTOF can put a point. */
    predicate Reaches(p: Point) {
      -0x8000 <= p.x < 0x8000 && h - 0x7fff <= p.y <= h + 0x8000
    }

    /** DOOUTCODE. */
    function Code(p: Point): (o: Outcode)
      ensures !o.Any() <==> 0 <= p.x < w && 0 <= p.y < h
    {
      Outcode(p.y < 0, p.y >= 0 && p.y >= h, p.x < 0, p.x >= 0 && p.x >= w)
    }
  }

  /** The bits TOP, BOTTOM, LEFT and RIGHT. */
  datatype Outcode = Outcode(top: bool, bottom: bool, left: bool, right: bool) {
    predicate Any() {
      top || bottom || left || right
    }

    /** outcode1 & outcode2 */
    predicate Shares(o: Outcode) {
      (top && o.top) || (bottom && o.bottom) || (left && o.left) || (right && o.right)
    }
  }

  /** C's int multiplication, where it does not overflow. */
  function Mul32(a: int, b: int): (r: int)
    requires IsInt32(a) && IsInt32(b) && IsInt32(a * b)
    ensures r == a * b
  {
    a * b
  }

  predicate Between(v: int, a: int, b: int) {
    Min(a, b) <= v <= Max(a, b)
  }

  /** `p` lies in the bounding box of `l`. */
  predicate InBox(p: Point, l: Segment) {
    Between(p.x, l.a.x, l.b.x) && Between(p.y, l.a.y, l.b.y)
  }

  /** num/den is a fraction from 0 to 1. */
  predicate Fraction(num: int, den: int) {
    (0 < den && 0 <= num <= den) || (den < 0 && den <= num <= 0)
  }

  /** `d` times such a fraction, as the source computes it: multiply first, then divide. */
  function Scaled(d: int, num: int, den: int): int
    requires Fraction(num, den)
  {
    TruncDiv(d * num, den)
  }

  lemma Signs(a: int, b: int)
    ensures a > 0 && b > 0 ==> a * b > 0
    ensures a < 0 && b > 0 ==> a * b < 0
    ensures a > 0 && b < 0 ==> a * b < 0
    ensures a < 0 && b < 0 ==> a * b > 0
    ensures a == 0 || b == 0 ==> a * b == 0
  {
  }

  /** It is rounded toward zero and stays between 0 and d. */
  lemma Interpolate(d: int, num: int, den: int)
    requires Fraction(num, den)
    ensures Abs(d * num - Scaled(d, num, den) * den) < Abs(den)
    ensures Between(Scaled(d, num, den), 0, d)
  {
    var q := Scaled(d, num, den);
    TruncDivProduct(d * num, den);
    MulBound(d, num, Abs(d), Abs(den));
    assert (Abs(d) + 1) * Abs(den) == Abs(d) * Abs(den) + Abs(den);
    QuotientBelow(d * num, den, Abs(d) + 1);
    Signs(d, num);
  }

  /** Toward zero it is for falling lines as well. */
  lemma ScaledTowardZero(d: int, num: int, den: int)
    requires Fraction(num, den)
    ensures Abs(Scaled(d, num, den)) * Abs(den) <= Abs(d * num) < Abs(Scaled(d, num, den)) * Abs(den) + Abs(den)
  {
  }

  // ---- One round of the loop ----

  /** The loop is entered or goes on: an endpoint is outside, and the two share no side. */
  predicate Straddles(l: Segment, win: Window) {
    && (win.Code(l.a).Any() || win.Code(l.b).Any())
    && !win.Code(l.a).Shares(win.Code(l.b))
  }

  predicate Reachable(l: Segment, win: Window) {
    win.Valid() && win.Reaches(l.a) && win.Reaches(l.b)
  }

  /** The endpoint to be moved. */
  function Outside(l: Segment, win: Window): Outcode {
    if win.Code(l.a).Any() then win.Code(l.a) else win.Code(l.b)
  }

  /** The numerator and denominator the source divides by: how far along the line the crossing is. */
  function Crossing(l: Segment, win: Window): (f: (int, int))
    requires Reachable(l, win) && Straddles(l, win)
    ensures Fraction(f.0, f.1)
  {
    var o := Outside(l, win);
    if o.top then (l.a.y, l.a.y - l.b.y)
    else if o.bottom then (l.a.y - win.h, l.a.y - l.b.y)
    else if o.right then (win.w - 1 - l.a.x, l.b.x - l.a.x)
    else (-l.a.x, l.b.x - l.a.x)
  }

  /** Where the outside endpoint moves to. */
  function Cut(l: Segment, win: Window): Point
    requires Reachable(l, win) && Straddles(l, win)
  {
    var o, f := Outside(l, win), Crossing(l, win);
    if o.top then Point(l.a.x + Scaled(l.b.x - l.a.x, f.0, f.1), 0)
    else if o.bottom then Point(l.a.x + Scaled(l.b.x - l.a.x, f.0, f.1), win.h - 1)
    else if o.right then Point(win.w - 1, l.a.y + Scaled(l.b.y - l.a.y, f.0, f.1))
    else Point(0, l.a.y + Scaled(l.b.y - l.a.y, f.0, f.1))
  }

  function ClipStep(l: Segment, win: Window): Segment
    requires Reachable(l, win) && Straddles(l, win)
  {
    if win.Code(l.a).Any() then Segment(Cut(l, win), l.b) else Segment(l.a, Cut(l, win))
  }

  lemma CutInBox(l: Segment, win: Window)
    requires Reachable(l, win) && Straddles(l, win)
    ensures InBox(Cut(l, win), l)
    ensures Reachable(ClipStep(l, win), win)
  {
    var f := Crossing(l, win);
    Interpolate(l.b.x - l.a.x, f.0, f.1);
    Interpolate(l.b.y - l.a.y, f.0, f.1);
  }

  /** One round in the coordinates: the first endpoint outside moves to the top, bottom, right or
      left edge, in this order, and its other coordinate is divided toward zero. */
  lemma StepMoves(l: Segment, win: Window)
    requires Reachable(l, win) && Straddles(l, win)
    ensures var m := ClipStep(l, win);
      var inside := 0 <= l.a.x < win.w && 0 <= l.a.y < win.h;
      var p, c := if inside then l.b else l.a, if inside then m.b else m.a;
      var dx, dy := l.b.x - l.a.x, l.b.y - l.a.y;
      && (if inside then m.a == l.a else m.b == l.b)
      && (p.y < 0 ==> c.y == 0 && dy != 0 && c.x == l.a.x + TruncDiv(dx * l.a.y, 0 - dy))
      && (p.y >= win.h ==>
            c.y == win.h - 1 && dy != 0 && c.x == l.a.x + TruncDiv(dx * (l.a.y - win.h), 0 - dy))
      && (0 <= p.y < win.h && p.x >= win.w ==>
            c.x == win.w - 1 && dx != 0 && c.y == l.a.y + TruncDiv(dy * (win.w - 1 - l.a.x), dx))
      && (0 <= p.y < win.h && p.x < 0 ==>
            c.x == 0 && dx != 0 && c.y == l.a.y + TruncDiv(dy * (0 - l.a.x), dx))
  {
  }

  /** No product of a round leaves the 32-bit range. */
  lemma NoOverflow(l: Segment, win: Window)
    requires Reachable(l, win) && Straddles(l, win)
    ensures var o, f := Outside(l, win), Crossing(l, win);
      IsInt32((if o.top || o.bottom then l.b.x - l.a.x else l.b.y - l.a.y) * f.0)
  {
    var o, f := Outside(l, win), Crossing(l, win);
    if o.top || o.bottom {
      MulBound(l.b.x - l.a.x, f.0, 0xffff, 0x8000);
    } else {
      MulBound(l.b.y - l.a.y, f.0, win.h + 0x8000, 0x8000);
    }
  }

  // ---- Progress ----

  function Out(v: int, size: int): nat {
    if 0 <= v < size then 0 else 1
  }

  /** How many (endpoint, axis) pairs are out of range. */
  function Outs(l: Segment, win: Window): nat {
    Out(l.a.x, win.w) + Out(l.a.y, win.h) + Out(l.b.x, win.w) + Out(l.b.y, win.h)
  }

  /** Every round lowers that number, or ends in a rejection. */
  lemma StepProgresses(l: Segment, win: Window)
    requires Reachable(l, win) && Straddles(l, win)
    ensures var l' := ClipStep(l, win);
      win.Code(l'.a).Shares(win.Code(l'.b)) || Outs(l', win) < Outs(l, win)
  {
    CutInBox(l, win);
  }

  /** The whole loop; None is a rejection. */
  function ClipLoop(l: Segment, win: Window): (r: Option<Segment>)
    requires Reachable(l, win) && !win.Code(l.a).Shares(win.Code(l.b))
    ensures r.Some? ==> win.Contains(r.value.a) && win.Contains(r.value.b)
    ensures r.Some? ==> InBox(r.value.a, l) && InBox(r.value.b, l)
    ensures r.Some? && win.Contains(l.a) ==> r.value.a == l.a
    ensures r.Some? && win.Contains(l.b) ==> r.value.b == l.b
    decreases Outs(l, win)
  {
    if !Straddles(l, win) then Some(l)
    else
      CutInBox(l, win);
      StepProgresses(l, win);
      var l' := ClipStep(l, win);
      if win.Code(l'.a).Shares(win.Code(l'.b)) then None else ClipLoop(l', win)
  }

  /** How often the loop body runs. */
  function Rounds(l: Segment, win: Window): (n: nat)
    requires Reachable(l, win) && !win.Code(l.a).Shares(win.Code(l.b))
    ensures n <= Outs(l, win) <= 4
    decreases Outs(l, win)
  {
    if !Straddles(l, win) then 0
    else
      CutInBox(l, win);
      StepProgresses(l, win);
      var l' := ClipStep(l, win);
      if win.Code(l'.a).Shares(win.Code(l'.b)) then 1 else 1 + Rounds(l', win)
  }

  /** The two recursive functions, unfolded for one round and for none. */
  lemma ClipRound(l: Segment, win: Window)
    requires Reachable(l, win) && Straddles(l, win)
    ensures Reachable(ClipStep(l, win), win) && 1 <= Rounds(l, win) <= 4
    ensures var l' := ClipStep(l, win);
      if win.Code(l'.a).Shares(win.Code(l'.b)) then ClipLoop(l, win) == None && Rounds(l, win) == 1
      else ClipLoop(l, win) == ClipLoop(l', win) && Rounds(l, win) == 1 + Rounds(l', win)
  {
    CutInBox(l, win);
  }

  lemma ClipDone(l: Segment, win: Window)
    requires Reachable(l, win) && !win.Code(l.a).Any() && !win.Code(l.b).Any()
    ensures ClipLoop(l, win) == Some(l) && Rounds(l, win) == 0
  {
  }
}
