/** Drawing map lines on the automap (AM_clipMline, AM_drawFline and AM_drawMline in am_map.c). */
module AutomapLines {
  import opened CArith
  import opened FixedPoint
  import opened TicCommand
  import opened Grid
  import opened Wrappers
  import opened Clip
  import opened ClipMeaning
  import opened Bresenham

  class Automap {
    var f_x: int  // the window on the frame buffer, with its corner at the origin
    var f_y: int
    var f_w: int
    var f_h: int
    var m_x: int  // the window on the map
    var m_y: int
    var m_w: int
    var m_h: int
    var m_x2: int
    var m_y2: int
    var scale_mtof: int
    var scale_ftom: int
    var min_scale_mtof: int
    var max_scale_mtof: int
    var mtof_zoommul: int
    var fb: array<Byte>

    constructor (width: int, height: int, minScale: int, maxScale: int, fb: array<Byte>)
      requires Window(width, height).Valid() && fb.Length >= height * width && IsInt32(minScale) && IsInt32(maxScale)
      ensures Valid() && this.fb == fb && Win() == Window(width, height)
    {
      f_x, f_y, f_w, f_h := 0, 0, width, height;
      m_x, m_y, m_w, m_h, m_x2, m_y2 := 0, 0, 0, 0, 0, 0;
      scale_mtof, scale_ftom, mtof_zoommul := 0x3333, FixedDiv(FRACUNIT, 0x3333), FRACUNIT;
      min_scale_mtof, max_scale_mtof := minScale, maxScale;
      this.fb := fb;
    }

    ghost predicate Valid()
      reads `f_x, `f_y, `f_w, `f_h, `fb, `scale_mtof, `min_scale_mtof, `max_scale_mtof
    {
      && f_x == f_y == 0 && Win().Valid() && fb.Length >= f_h * f_w
      && IsInt32(scale_mtof) && IsInt32(min_scale_mtof) && IsInt32(max_scale_mtof)
    }

    function Win(): Window
      reads `f_w, `f_h
    {
      Window(f_w, f_h)
    }

    // ---- From map to frame-buffer coordinates ----

    function MTOF(v: int): (r: int)
      reads `scale_mtof
      ensures -0x8000 <= r < 0x8000
    {
      FixedMul(v, scale_mtof) / FRACUNIT
    }

    function ToFrame(p: Point): (q: Point)
      reads this
      ensures f_x == f_y == 0 ==> Win().Reaches(q)
    {
      Point(f_x + MTOF(Wrap32(p.x - m_x)), f_y + (f_h - MTOF(Wrap32(p.y - m_y))))
    }

    predicate Unwrapped(v: int)
      reads `scale_mtof
    {
      IsInt32(v) && IsInt32(v * scale_mtof / FRACUNIT)
    }

    lemma MTOFKeepsOrder(u: int, v: int)
      requires scale_mtof >= 0 && Unwrapped(u) && Unwrapped(v) && u <= v
      ensures MTOF(u) <= MTOF(v)
    {
      MulMono(u, v, scale_mtof);
    }

    /** MTOF reaches a row or column exactly when the product does, since it rounds down. */
    lemma MTOFReaches(v: int, f: int)
      requires Unwrapped(v)
      ensures MTOF(v) >= f <==> v * scale_mtof >= f * TWO32
    {
      hide Wrap32;
      var product := v * scale_mtof;
      assert FixedMul(v, scale_mtof) == product / FRACUNIT;
      assert product / FRACUNIT >= f * FRACUNIT <==> product >= f * TWO32;
    }

    lemma MTOFKeepsSign(v: int)
      requires scale_mtof > 0 && Unwrapped(v) && v < 0
      ensures MTOF(v) < 0
    {
      MulMono(v, -1, scale_mtof);
    }

    lemma ToFrameIs(p: Point)
      requires Valid() && Unwrapped(p.x - m_x) && Unwrapped(p.y - m_y)
      ensures ToFrame(p) == Point(MTOF(p.x - m_x), f_h - MTOF(p.y - m_y))
    {
    }

    /** Right on the map is right on the screen, and up is up, as long as nothing wraps. */
    lemma ToFrameKeepsOrder(p: Point, q: Point)
      requires scale_mtof >= 0
      requires Unwrapped(p.x - m_x) && Unwrapped(q.x - m_x) && Unwrapped(p.y - m_y) && Unwrapped(q.y - m_y)
      ensures p.x <= q.x ==> ToFrame(p).x <= ToFrame(q).x
      ensures p.y <= q.y ==> ToFrame(q).y <= ToFrame(p).y
    {
      if p.x <= q.x {
        MTOFKeepsOrder(p.x - m_x, q.x - m_x);
      }
      if p.y <= q.y {
        MTOFKeepsOrder(p.y - m_y, q.y - m_y);
      }
    }

    /** Nothing wraps while the line is moved to the frame buffer. */
    predicate Unwraps(ml: Segment)
      reads this
    {
      && Unwrapped(ml.a.x - m_x) && Unwrapped(ml.a.y - m_y)
      && Unwrapped(ml.b.x - m_x) && Unwrapped(ml.b.y - m_y)
    }

    function FrameLine(ml: Segment): Segment
      reads this
    {
      Segment(ToFrame(ml.a), ToFrame(ml.b))
    }

    /** The sides of the map window a point lies beyond. */
    function MapCode(p: Point): (o: Outcode)
      reads this
      ensures !o.Any() <==> m_x <= p.x <= m_x2 && m_y <= p.y <= m_y2
    {
      Outcode(p.y > m_y2, p.y <= m_y2 && p.y < m_y, p.x < m_x, p.x >= m_x && p.x > m_x2)
    }

    // ---- The window on the map ----

    /** The map window comes to the frame's, less three pixels at most at its top and right. */
    predicate WindowFits()
      reads `m_x, `m_y, `m_x2, `m_y2, `f_w, `f_h, `scale_mtof
    {
      && Unwrapped(m_x2 - m_x) && MTOF(m_x2 - m_x) >= f_w - 3
      && Unwrapped(m_y2 - m_y) && MTOF(m_y2 - m_y) >= f_h - 3
    }

    /** A scale at which f pixels are fewer than 32768 map units and rounding costs three at most. */
    predicate Sound(f: int, scale: int) {
      4 < scale && 2 * f < scale && f * scale <= 3 * TWO32
    }

    predicate LimitsSound()
      reads `f_w, `f_h, `min_scale_mtof, `max_scale_mtof
    {
      && Sound(f_w, min_scale_mtof) && Sound(f_w, max_scale_mtof)
      && Sound(f_h, min_scale_mtof) && Sound(f_h, max_scale_mtof)
    }

    /** For a window of 320 by 168 pixels every scale above 640 is sound, up to the greatest the map
        allows, at which the window is as high as the player is wide. */
    lemma OriginalScalesAreSound(scale: int)
      requires 640 < scale <= 0x54000
      ensures Sound(320, scale) && Sound(168, scale)
    {
    }

    lemma OriginalLimitsAreSound()
      requires f_w == 320 && f_h == 168 && 640 < min_scale_mtof && max_scale_mtof == 0x54000
      requires min_scale_mtof <= max_scale_mtof
      ensures Win().Valid() && LimitsSound()
    {
      OriginalScalesAreSound(min_scale_mtof);
      OriginalScalesAreSound(max_scale_mtof);
    }

    lemma Shortfall(f: nat, q: int, scale: int)
      requires Sound(f, scale) && 0 <= q && 0 <= TWO32 - q * scale < scale
      ensures 0 <= f * q < 0x8000_0000 && (f - 3) * TWO32 < f * q * scale <= f * TWO32
    {
      var rest := TWO32 - q * scale;
      assert f * q * scale == f * (q * scale) == f * TWO32 - rest * f;
      if f > 0 {
        MulStep(rest, scale, f);
      }
      MulMono(0, rest, f);
      MulMono(0, q, f);
      if f * q >= 0x8000_0000 {
        MulMono(0x8000_0000, f * q, scale);
      }
    }

    lemma FtomFits(f: nat, scale: int)
      requires f < 0x8000 && IsInt32(scale) && Sound(f, scale)
      ensures var m := FixedMul(f * FRACUNIT, FixedDiv(FRACUNIT, scale));
        && IsInt32(m * scale / FRACUNIT) && f - 3 <= FixedMul(m, scale) / FRACUNIT <= f
        && m * scale <= f * TWO32
    {
      hide FixedDiv, TruncDiv;
      QuotientFits(FRACUNIT, scale);
      TruncDivProduct(TWO32, scale);
      var q := FixedDiv(FRACUNIT, scale);
      Shortfall(f, q, scale);
      assert f * FRACUNIT * q == f * q * FRACUNIT;
    }

    /** Equal but for 32-bit wrap-around. */
    predicate Congruent(u: int, v: int) {
      (u - v) % TWO32 == 0
    }

    lemma CongruentMeans(u: int, v: int)
      ensures IsInt32(u) && IsInt32(v) ==> (Congruent(u, v) <==> u == v)
      ensures Congruent(u + TWO32, v) <==> Congruent(u, v)
    {
    }

    lemma Recentre(x: int, h: int, h': int)
      ensures Congruent(Wrap32(Wrap32(x + h) - h') + h', x + h)
    {
      var y := Wrap32(x + h);
      var j, k := (x + h + 0x8000_0000) / TWO32, (y - h' + 0x8000_0000) / TWO32;
      assert y == x + h - TWO32 * j && Wrap32(y - h') == y - h' - TWO32 * k;
      assert TWO32 * (0 - j - k) % TWO32 == 0;
    }

    function Half(m: int): (r: int)
      ensures m >= 0 ==> m - 1 <= 2 * r <= m
      ensures m <= 0 ==> m <= 2 * r <= m + 1
    {
      TruncDiv(m, 2)
    }

    function FTOM(v: int): (r: int)
      reads `scale_ftom
      ensures IsInt32(r)
    {
      FixedMul(v * FRACUNIT, scale_ftom)
    }

    /** The map window has the frame's size at a sound scale. */
    ghost predicate Scaled()
      reads `m_x, `m_y, `m_x2, `m_y2, `f_w, `f_h, `scale_mtof, `scale_ftom
    {
      && IsInt32(scale_mtof) && scale_ftom == FixedDiv(FRACUNIT, scale_mtof)
      && Sound(f_w, scale_mtof) && Sound(f_h, scale_mtof)
      && m_x2 - m_x == FTOM(f_w) && m_y2 - m_y == FTOM(f_h)
    }

    lemma ScaledWindowFits()
      requires Valid() && Scaled()
      ensures WindowFits()
    {
      hide FixedMul, FixedDiv;
      FtomFits(f_w, scale_mtof);
      FtomFits(f_h, scale_mtof);
    }

    /** AM_activateNewScale keeps the window's centre, up to 32-bit wrap-around, and when the scale
        is sound and the window lies within 32-bit coordinates, the window has the frame's size. */
    method ActivateNewScale()
      requires Valid() && scale_ftom == FixedDiv(FRACUNIT, scale_mtof)
      modifies `m_x, `m_y, `m_w, `m_h, `m_x2, `m_y2
      ensures Valid()
      ensures m_w == FTOM(f_w) && m_h == FTOM(f_h) && m_x2 == Wrap32(m_x + m_w) && m_y2 == Wrap32(m_y + m_h)
      ensures Congruent(m_x + Half(m_w), old(m_x + Half(m_w)))
      ensures Congruent(m_y + Half(m_h), old(m_y + Half(m_h)))
      ensures Sound(f_w, scale_mtof) && Sound(f_h, scale_mtof) && IsInt32(m_x + m_w) && IsInt32(m_y + m_h) ==>
        Scaled()
    {
      hide FixedMul, FixedDiv, Half, Wrap32, Sound, Congruent, FTOM, Window.Valid, IsInt32;
      Recentre(m_x, Half(m_w), Half(FTOM(f_w)));
      Recentre(m_y, Half(m_h), Half(FTOM(f_h)));
      m_x, m_y := Wrap32(m_x + Half(m_w)), Wrap32(m_y + Half(m_h));
      m_w, m_h := FTOM(f_w), FTOM(f_h);
      m_x, m_y := Wrap32(m_x - Half(m_w)), Wrap32(m_y - Half(m_h));
      m_x2, m_y2 := Wrap32(m_x + m_w), Wrap32(m_y + m_h);
    }

    method MinOutWindowScale()
      requires Valid()
      modifies `scale_mtof, `scale_ftom, `m_x, `m_y, `m_w, `m_h, `m_x2, `m_y2
      ensures Valid() && scale_mtof == min_scale_mtof && scale_ftom == FixedDiv(FRACUNIT, scale_mtof)
      ensures Sound(f_w, scale_mtof) && Sound(f_h, scale_mtof) && IsInt32(m_x + m_w) && IsInt32(m_y + m_h) ==>
        Scaled()
    {
      scale_mtof := min_scale_mtof;
      scale_ftom := FixedDiv(FRACUNIT, scale_mtof);
      ActivateNewScale();
    }

    method MaxOutWindowScale()
      requires Valid()
      modifies `scale_mtof, `scale_ftom, `m_x, `m_y, `m_w, `m_h, `m_x2, `m_y2
      ensures Valid() && scale_mtof == max_scale_mtof && scale_ftom == FixedDiv(FRACUNIT, scale_mtof)
      ensures Sound(f_w, scale_mtof) && Sound(f_h, scale_mtof) && IsInt32(m_x + m_w) && IsInt32(m_y + m_h) ==>
        Scaled()
    {
      scale_mtof := max_scale_mtof;
      scale_ftom := FixedDiv(FRACUNIT, scale_mtof);
      ActivateNewScale();
    }

    /** Zooming, whatever the factor: the scale is brought back between its limits, or to one of
        them when they are the wrong way round, and between sound limits the window keeps the
        frame's size. */
    method ChangeWindowScale()
      requires Valid()
      modifies `scale_mtof, `scale_ftom, `m_x, `m_y, `m_w, `m_h, `m_x2, `m_y2
      ensures Valid() && scale_ftom == FixedDiv(FRACUNIT, scale_mtof)
      ensures var zoomed := FixedMul(old(scale_mtof), mtof_zoommul);
        if min_scale_mtof <= max_scale_mtof then
          scale_mtof == Max(min_scale_mtof, Min(max_scale_mtof, zoomed))
        else
          scale_mtof == if zoomed < min_scale_mtof then min_scale_mtof else max_scale_mtof
      ensures LimitsSound() && IsInt32(m_x + m_w) && IsInt32(m_y + m_h) ==> Scaled()
    {
      hide FixedMul, FixedDiv, Scaled;
      scale_mtof := FixedMul(scale_mtof, mtof_zoommul);
      scale_ftom := FixedDiv(FRACUNIT, scale_mtof);
      if scale_mtof < min_scale_mtof {
        MinOutWindowScale();
      } else if scale_mtof > max_scale_mtof {
        MaxOutWindowScale();
      } else {
        ActivateNewScale();
        if LimitsSound() {
          MulMono(scale_mtof, max_scale_mtof, f_w);
          MulMono(scale_mtof, max_scale_mtof, f_h);
        }
      }
    }

    // ---- Clipping ----

    /** What of a map line lies on the frame, in frame-buffer coordinates. */
    function OnFrame(ml: Segment): (r: Option<Segment>)
      reads this
      requires Valid()
      ensures r.Some? ==> Win().Contains(r.value.a) && Win().Contains(r.value.b)
    {
      var fl := FrameLine(ml);
      if Win().Code(fl.a).Shares(Win().Code(fl.b)) then None else ClipLoop(fl, Win())
    }

    /** What of it is drawn. */
    function Visible(ml: Segment): (r: Option<Segment>)
      reads this
      requires Valid()
      ensures r.Some? ==> Win().Contains(r.value.a) && Win().Contains(r.value.b)
    {
      if MapCode(ml.a).Shares(MapCode(ml.b)) then None else OnFrame(ml)
    }

    /** The branch on the side that `outside` names: multiply, divide, and pin the other coordinate. */
    method CutOutside(fl: Segment, outside: Outcode) returns (tmp: Point)
      requires Valid() && Reachable(fl, Win()) && Straddles(fl, Win()) && outside == Outside(fl, Win())
      ensures tmp == Cut(fl, Win())
    {
      NoOverflow(fl, Win());
      ghost var f := Crossing(fl, Win());
      if outside.top {
        var dy := fl.a.y - fl.b.y;
        var dx := fl.b.x - fl.a.x;
        tmp := Point(fl.a.x + TruncDiv(Mul32(dx, fl.a.y), dy), 0);
      } else if outside.bottom {
        var dy := fl.a.y - fl.b.y;
        var dx := fl.b.x - fl.a.x;
        tmp := Point(fl.a.x + TruncDiv(Mul32(dx, fl.a.y - f_h), dy), f_h - 1);
      } else if outside.right {
        var dy := fl.b.y - fl.a.y;
        var dx := fl.b.x - fl.a.x;
        tmp := Point(f_w - 1, fl.a.y + TruncDiv(Mul32(dy, f_w - 1 - fl.a.x), dx));
      } else if outside.left {
        var dy := fl.b.y - fl.a.y;
        var dx := fl.b.x - fl.a.x;
        tmp := Point(0, fl.a.y + TruncDiv(Mul32(dy, -fl.a.x), dx));
      } else {
        tmp := Point(0, 0);
      }
    }

    /** Clips in place; the body of the loop runs at most four times, never divides by zero, and
        never leaves 32 bits. */
    method ClipMline(ml: Segment) returns (visible: bool, fl: Segment, ghost rounds: nat)
      requires Valid()
      ensures visible <==> Visible(ml).Some?
      ensures visible ==> fl == Visible(ml).value
      ensures rounds <= 4
    {
      hide ClipLoop, Rounds, Cut, Outs;
      rounds := 0;
      fl := ml;
      var outcode1 := MapCode(ml.a).(left := false, right := false);
      var outcode2 := MapCode(ml.b).(left := false, right := false);
      if outcode1.Shares(outcode2) {
        return false, fl, 0;
      }
      outcode1, outcode2 := MapCode(ml.a), MapCode(ml.b);
      if outcode1.Shares(outcode2) {
        return false, fl, 0;
      }
      var win := Win();
      fl := Segment(ToFrame(ml.a), ToFrame(ml.b));
      outcode1, outcode2 := win.Code(fl.a), win.Code(fl.b);
      if outcode1.Shares(outcode2) {
        return false, fl, 0;
      }
      ghost var frame := fl;
      while outcode1.Any() || outcode2.Any()
        invariant Reachable(fl, win)
        invariant outcode1 == win.Code(fl.a) && outcode2 == win.Code(fl.b) && !outcode1.Shares(outcode2)
        invariant ClipLoop(fl, win) == ClipLoop(frame, win)
        invariant rounds + Rounds(fl, win) == Rounds(frame, win)
        decreases Outs(fl, win)
      {
        CutInBox(fl, win);
        StepProgresses(fl, win);
        ClipRound(fl, win);
        var tmp := CutOutside(fl, if outcode1.Any() then outcode1 else outcode2);
        if outcode1.Any() {
          fl := fl.(a := tmp);
          outcode1 := win.Code(fl.a);
        } else {
          fl := fl.(b := tmp);
          outcode2 := win.Code(fl.b);
        }
        rounds := rounds + 1;
        if outcode1.Shares(outcode2) {
          return false, fl, rounds;
        }
      }
      ClipDone(fl, win);
      return true, fl, rounds;
    }

    // ---- Drawing ----

    ghost function At(p: Point): int
      reads `f_w
    {
      Idx(p.y, p.x, f_w)
    }

    /** The frame buffer after the first n pixels of the line were put down. */
    ghost predicate Plotted(before: seq<Byte>, l: Segment, n: nat, color: Byte)
      reads this, fb
    {
      && |before| == fb.Length
      && (forall k | 0 <= k < n :: 0 <= At(Pixel(l, k)) < fb.Length && fb[At(Pixel(l, k))] == color)
      && (forall i | 0 <= i < fb.Length && fb[i] != before[i] :: exists k | 0 <= k < n :: i == At(Pixel(l, k)))
    }

    lemma PlottedNothing(l: Segment, color: Byte)
      ensures Plotted(fb[..], l, 0, color)
    {
    }

    /** PUTDOT for the next pixel. */
    method PutDot(x: int, y: int, color: Byte, ghost before: seq<Byte>, ghost l: Segment, ghost k: nat)
      requires Valid() && Win().Contains(Point(x, y)) && Pixel(l, k) == Point(x, y)
      requires Plotted(before, l, k, color)
      modifies fb
      ensures Plotted(before, l, k + 1, color)
    {
      hide Pixel;
      IdxBound(y, x, f_h, f_w);
      fb[Idx(y, x, f_w)] := color;
      assert At(Pixel(l, k)) == Idx(y, x, f_w);
    }

    method DrawFlat(fl: Segment, color: Byte, ax: int, ay: int, sx: int, sy: int)
      requires Valid() && Win().Contains(fl.a) && Win().Contains(fl.b) && !Steep(fl)
      requires ax == 2 * Abs(fl.b.x - fl.a.x) && ay == 2 * Abs(fl.b.y - fl.a.y)
      requires sx == (if fl.b.x < fl.a.x then -1 else 1) && sy == (if fl.b.y < fl.a.y then -1 else 1)
      modifies fb
      ensures Plotted(old(fb[..]), fl, Steps(fl) + 1, color)
    {
      hide Minor, Plotted;
      ghost var before, n, m, k := fb[..], Abs(fl.b.x - fl.a.x), Abs(fl.b.y - fl.a.y), 0;
      MinorEnds(n, m);
      PlottedNothing(fl, color);
      var x, y := fl.a.x, fl.a.y;
      var d := ay - ax / 2;
      while true
        invariant k <= n && Point(x, y) == Pixel(fl, k)
        invariant d == 2 * (k * m) + 2 * m - n - 2 * (Minor(k, n, m) * n)
        invariant Plotted(before, fl, k, color)
        decreases n - k
      {
        PixelsInBox(fl, k);
        PutDot(x, y, color, before, fl, k);
        if x == fl.b.x {
          return;
        }
        MinorNext(k, n, m);
        if d >= 0 {
          y := y + sy;
          d := d - ax;
        }
        x := x + sx;
        d := d + ay;
        k := k + 1;
      }
    }

    method DrawSteep(fl: Segment, color: Byte, ax: int, ay: int, sx: int, sy: int)
      requires Valid() && Win().Contains(fl.a) && Win().Contains(fl.b) && Steep(fl)
      requires ax == 2 * Abs(fl.b.x - fl.a.x) && ay == 2 * Abs(fl.b.y - fl.a.y)
      requires sx == (if fl.b.x < fl.a.x then -1 else 1) && sy == (if fl.b.y < fl.a.y then -1 else 1)
      modifies fb
      ensures Plotted(old(fb[..]), fl, Steps(fl) + 1, color)
    {
      hide Minor, Plotted;
      ghost var before, n, m, k := fb[..], Abs(fl.b.y - fl.a.y), Abs(fl.b.x - fl.a.x), 0;
      MinorEnds(n, m);
      PlottedNothing(fl, color);
      var x, y := fl.a.x, fl.a.y;
      var d := ax - ay / 2;
      while true
        invariant k <= n && Point(x, y) == Pixel(fl, k)
        invariant d == 2 * (k * m) + 2 * m - n - 2 * (Minor(k, n, m) * n)
        invariant Plotted(before, fl, k, color)
        decreases n - k
      {
        PixelsInBox(fl, k);
        PutDot(x, y, color, before, fl, k);
        if y == fl.b.y {
          return;
        }
        MinorNext(k, n, m);
        if d >= 0 {
          x := x + sx;
          d := d - ay;
        }
        y := y + sy;
        d := d + ax;
        k := k + 1;
      }
    }

    /** Byte by byte: the buffer holds the rows of the window one after the other. */
    lemma PlottedBytes(before: seq<Byte>, l: Segment, n: nat, color: Byte)
      requires Plotted(before, l, n, color)
      ensures |before| == fb.Length
      ensures forall k | 0 <= k < n :: var p := Pixel(l, k);
        0 <= p.y * f_w + p.x < fb.Length && fb[p.y * f_w + p.x] == color
      ensures forall i | 0 <= i < fb.Length && fb[i] != before[i] ::
        exists k | 0 <= k < n :: i == Pixel(l, k).y * f_w + Pixel(l, k).x
    {
      hide Pixel;
      forall k | 0 <= k < n
        ensures At(Pixel(l, k)) == Pixel(l, k).y * f_w + Pixel(l, k).x
      {
      }
      forall i | 0 <= i < fb.Length && fb[i] != before[i]
        ensures exists k | 0 <= k < n :: i == Pixel(l, k).y * f_w + Pixel(l, k).x
      {
        var k :| 0 <= k < n && i == At(Pixel(l, k));
        assert i == Pixel(l, k).y * f_w + Pixel(l, k).x;
      }
    }

    /** Draws the pixels of the line and nothing else, unless an end lies outside the window. */
    method DrawFline(fl: Segment, color: Byte)
      requires Valid()
      modifies fb
      ensures if Win().Contains(fl.a) && Win().Contains(fl.b)
              then Plotted(old(fb[..]), fl, Steps(fl) + 1, color) else fb[..] == old(fb[..])
      ensures Win().Contains(fl.a) && Win().Contains(fl.b) ==> forall k | 0 <= k <= Steps(fl) ::
        var p := Pixel(fl, k);
        0 <= p.y * f_w + p.x < fb.Length && fb[p.y * f_w + p.x] == color
      ensures forall i | 0 <= i < fb.Length && fb[i] != old(fb[i]) ::
        exists k | 0 <= k <= Steps(fl) :: i == Pixel(fl, k).y * f_w + Pixel(fl, k).x
    {
      hide Minor, Plotted;
      ghost var before := fb[..];
      if fl.a.x < 0 || fl.a.x >= f_w || fl.a.y < 0 || fl.a.y >= f_h
         || fl.b.x < 0 || fl.b.x >= f_w || fl.b.y < 0 || fl.b.y >= f_h {
        return;
      }
      var dx := fl.b.x - fl.a.x;
      var ax := 2 * if dx < 0 then -dx else dx;
      var sx := if dx < 0 then -1 else 1;
      var dy := fl.b.y - fl.a.y;
      var ay := 2 * if dy < 0 then -dy else dy;
      var sy := if dy < 0 then -1 else 1;
      if ax > ay {
        DrawFlat(fl, color, ax, ay, sx, sy);
      } else {
        DrawSteep(fl, color, ax, ay, sx, sy);
      }
      PlottedBytes(before, fl, Steps(fl) + 1, color);
    }

    /** What lies past the window in the frame buffer is left alone. */
    lemma PlottedInWindow(before: seq<Byte>, l: Segment, n: nat, color: Byte)
      requires Valid() && Win().Contains(l.a) && Win().Contains(l.b) && n <= Steps(l) + 1
      requires Plotted(before, l, n, color)
      ensures fb[f_h * f_w..] == before[f_h * f_w..]
    {
      hide Pixel, Idx;
      forall k | 0 <= k < n
        ensures At(Pixel(l, k)) < f_h * f_w
      {
        PixelsInBox(l, k);
        IdxBound(Pixel(l, k).y, Pixel(l, k).x, f_h, f_w);
      }
    }

    /** Clipping then drawing: the early return of the drawing is never taken. */
    method DrawMline(ml: Segment, color: Byte)
      requires Valid()
      modifies fb
      ensures match Visible(ml)
              case None => fb[..] == old(fb[..])
              case Some(l) => Plotted(old(fb[..]), l, Steps(l) + 1, color)
      ensures Visible(ml).Some? ==> forall k | 0 <= k <= Steps(Visible(ml).value) ::
        var p := Pixel(Visible(ml).value, k);
        0 <= p.y * f_w + p.x < fb.Length && fb[p.y * f_w + p.x] == color
      ensures forall i | 0 <= i < fb.Length && fb[i] != old(fb[i]) ::
        && Visible(ml).Some?
        && exists k | 0 <= k <= Steps(Visible(ml).value) ::
             i == Pixel(Visible(ml).value, k).y * f_w + Pixel(Visible(ml).value, k).x
      ensures fb[f_h * f_w..] == old(fb[f_h * f_w..])
    {
      hide Plotted, Pixel, Visible, Win, Steps;
      var visible, fl, _ := ClipMline(ml);
      ghost var before := fb[..];
      if visible {
        DrawFline(fl, color);
        PlottedInWindow(before, fl, Steps(fl) + 1, color);
      }
    }

    /** Every pixel drawn for a map line is in the window and within 4.5 pixels of the true segment
        between its unclipped ends. */
    lemma DrawnNearSegment(ml: Segment, k: nat)
      requires Valid()
      ensures Visible(ml).Some? && k <= Steps(Visible(ml).value) ==>
        var p := Pixel(Visible(ml).value, k);
        Win().Contains(p) && Near(p.x as real, p.y as real, FrameLine(ml), 4.5)
    {
      hide ClipLoop, Rounds, Near, Pixel;
      if Visible(ml).Some? && k <= Steps(Visible(ml).value) {
        var fl, l := FrameLine(ml), Visible(ml).value;
        var p, n := Pixel(l, k), Rounds(fl, Win()) as real;
        PixelsInBox(l, k);
        PixelNear(l, k);
        ClippedIsNear(fl, Win());
        NearThrough(p.x as real, p.y as real, l, fl, 0.5, n);
        NearWider(p.x as real, p.y as real, fl, 0.5 + n, 4.5);
      }
    }

    /** The line is drawn, within four pixels of that point. */
    ghost predicate DrawnThrough(ml: Segment, t: real)
      requires Valid()
      reads this
    {
      Visible(ml).Some? && Near(XAt(FrameLine(ml), t), YAt(FrameLine(ml), t), Visible(ml).value, 4.0)
    }

    /** The line is turned away for lying beyond the top or the right of the map window. */
    predicate Beyond(ml: Segment)
      reads this
    {
      (MapCode(ml.a).top && MapCode(ml.b).top) || (MapCode(ml.a).right && MapCode(ml.b).right)
    }

    /** One turned away at the other two sides lies outside the frame as well. */
    lemma TurnedAwayIsOutside(ml: Segment)
      requires Valid() && scale_mtof > 0 && Unwraps(ml)
      requires MapCode(ml.a).Shares(MapCode(ml.b)) && !Beyond(ml)
      ensures Win().Code(FrameLine(ml).a).Shares(Win().Code(FrameLine(ml).b))
    {
      hide MTOF, Unwrapped, ToFrame;
      ToFrameIs(ml.a);
      ToFrameIs(ml.b);
      if MapCode(ml.a).left && MapCode(ml.b).left {
        MTOFKeepsSign(ml.a.x - m_x);
        MTOFKeepsSign(ml.b.x - m_x);
      } else {
        MTOFKeepsSign(ml.a.y - m_y);
        MTOFKeepsSign(ml.b.y - m_y);
      }
    }

    /** So, while nothing wraps, the test in map coordinates loses exactly the lines beyond the top
        or the right: whatever else lies on the frame is drawn. */
    lemma DrawnUnlessBeyond(ml: Segment)
      requires Valid() && scale_mtof > 0 && Unwraps(ml)
      ensures Visible(ml) == if Beyond(ml) then None else OnFrame(ml)
      ensures Beyond(ml) <==>
        || (ml.a.y > m_y2 && ml.b.y > m_y2)
        || (ml.a.x > m_x2 && ml.b.x > m_x2 && ml.a.x >= m_x && ml.b.x >= m_x)
    {
      hide ClipLoop, FrameLine;
      if MapCode(ml.a).Shares(MapCode(ml.b)) && !Beyond(ml) {
        TurnedAwayIsOutside(ml);
      }
    }

    /** And beyond the top or right of a window that fits, three pixels at most are in the frame. */
    lemma BeyondIsShallow(ml: Segment)
      requires Valid() && scale_mtof > 0 && Unwraps(ml) && WindowFits() && Beyond(ml)
      ensures var fl := FrameLine(ml); Min(fl.a.x, fl.b.x) >= f_w - 3 || Max(fl.a.y, fl.b.y) <= 3
    {
      hide MTOF, Unwrapped, ToFrame;
      ToFrameIs(ml.a);
      ToFrameIs(ml.b);
      if MapCode(ml.a).right && MapCode(ml.b).right {
        MTOFKeepsOrder(m_x2 - m_x, ml.a.x - m_x);
        MTOFKeepsOrder(m_x2 - m_x, ml.b.x - m_x);
      } else {
        MTOFKeepsOrder(m_y2 - m_y, ml.a.y - m_y);
        MTOFKeepsOrder(m_y2 - m_y, ml.b.y - m_y);
      }
    }

    /** A map line whose true segment reaches four pixels into the window is drawn, near every such
        point, exactly unless it lies beyond the top or the right; and when the window fits, none
        that lies there reaches so far. */
    lemma DeepLineIsDrawn(ml: Segment, t: real)
      requires Valid() && scale_mtof > 0 && Unwraps(ml) && 0.0 <= t <= 1.0
      requires 4.0 <= XAt(FrameLine(ml), t) <= (f_w - 5) as real
      requires 4.0 <= YAt(FrameLine(ml), t) <= (f_h - 5) as real
      ensures DrawnThrough(ml, t) <==> !Beyond(ml)
      ensures WindowFits() ==> !Beyond(ml)
    {
      hide Unwraps, ToFrame, MapCode, WindowFits, Lerp, ClipLoop, Rounds, Near;
      var fl, win := FrameLine(ml), Win();
      DrawnUnlessBeyond(ml);
      DeepPointsAreKept(fl, win, t);
      NearWider(XAt(fl, t), YAt(fl, t), OnFrame(ml).value, Rounds(fl, win) as real, 4.0);
      if WindowFits() && Beyond(ml) {
        BeyondIsShallow(ml);
        LerpSide(fl.a.x, fl.b.x, t);
        LerpSide(fl.a.y, fl.b.y, t);
      }
    }

    // ---- The top row ----

    lemma AboveTheWindow(p: Point)
      requires Valid() && Scaled()
      requires Unwrapped(p.x - m_x) && Unwrapped(p.y - m_y) && ToFrame(p).y <= 0
      ensures p.y >= m_y2
    {
      hide FixedMul, FixedDiv, Unwrapped, ToFrame, MTOF;
      ToFrameIs(p);
      MTOFReaches(p.y - m_y, f_h);
      FtomFits(f_h, scale_mtof);
      if p.y < m_y2 {
        MulStep(p.y - m_y, m_y2 - m_y, scale_mtof);
      }
    }

    /** The window's lower edge is sent to the row below the frame, so the top row is the band of the
        map just past the upper edge: of the lines with both ends in that row or above, none is
        drawn unless an end lies on the very edge. */
    lemma TopRowIsLost(ml: Segment)
      requires Valid() && Scaled() && Unwraps(ml)
      requires ToFrame(ml.a).y <= 0 && ToFrame(ml.b).y <= 0 && ml.a.y != m_y2 && ml.b.y != m_y2
      ensures Beyond(ml) && Visible(ml) == None
    {
      hide Scaled, Unwrapped, ToFrame, ClipLoop;
      AboveTheWindow(ml.a);
      AboveTheWindow(ml.b);
    }

    /** The map window has exactly the frame's size: the scale divides without a rest. */
    predicate Exact()
      reads `m_x, `m_y, `m_x2, `m_y2, `f_w, `f_h, `scale_mtof
    {
      (m_x2 - m_x) * scale_mtof == f_w * TWO32 && (m_y2 - m_y) * scale_mtof == f_h * TWO32
    }

    lemma ExactSize(v: int, m: int, f: int)
      requires Unwrapped(v) && scale_mtof > 0 && m * scale_mtof == f * TWO32 && v > m
      ensures MTOF(v) >= f
    {
      hide MTOF;
      MulMono(m, v, scale_mtof);
      MTOFReaches(v, f);
    }

    /** When nothing is rounded, that is all that is lost. */
    lemma OnlyTopRowIsLost(ml: Segment)
      requires Valid() && scale_mtof > 0 && Unwraps(ml) && Exact() && OnFrame(ml).Some?
      ensures Visible(ml) == None <==> ml.a.y > m_y2 && ml.b.y > m_y2
      ensures Visible(ml) == None ==> ToFrame(ml.a).y <= 0 && ToFrame(ml.b).y <= 0
    {
      hide MTOF, Unwrapped, ToFrame, Visible, ClipLoop;
      DrawnUnlessBeyond(ml);
      ToFrameIs(ml.a);
      ToFrameIs(ml.b);
      if ml.a.y > m_y2 && ml.b.y > m_y2 {
        ExactSize(ml.a.y - m_y, m_y2 - m_y, f_h);
        ExactSize(ml.b.y - m_y, m_y2 - m_y, f_h);
      } else if MapCode(ml.a).right && MapCode(ml.b).right {
        ExactSize(ml.a.x - m_x, m_x2 - m_x, f_w);
        ExactSize(ml.b.x - m_x, m_x2 - m_x, f_w);
      }
    }

    /** Such lines there are: a window of 320 by 168 pixels at scale 1.0, and a line one map unit
        above it. */
    lemma TopRowLine(ml: Segment)
      requires Valid() && f_w == 320 && f_h == 168 && scale_mtof == FRACUNIT && m_x == m_y == 0
      requires m_x2 == 320 * FRACUNIT && m_y2 == 168 * FRACUNIT
      requires ml == Segment(Point(100 * FRACUNIT, m_y2 + 1), Point(200 * FRACUNIT, m_y2 + 1))
      ensures Unwraps(ml) && WindowFits() && Exact()
      ensures OnFrame(ml) == Some(Segment(Point(100, 0), Point(200, 0)))
      ensures Visible(ml) == None
    {
    }
  }
}
