/** Integer line and circle drawing into a frame buffer: DrawLine in both of its variants, and DrawCircle. */
module Raster {
  import opened Arith

  datatype Point = Point(x: int, y: int)

  const WORD: int := 0x1_0000_0000_0000_0000

  /** Conversion to an unsigned 64-bit word. */
  function U64(x: int): (r: nat) { x % 0x1_0000_0000_0000_0000 }

  // ---- the frame buffer

  /** A view of the memory: rows of `pitch` pixels, of which the first `width` are visible. */
  datatype Screen = Screen(width: nat, height: nat, pitch: nat)

  ghost predicate Fits(s: Screen, size: nat)
  {
    && s.width <= s.pitch && s.height * s.pitch <= size
    && s.width < 0x8000_0000_0000_0000 && s.height < 0x8000_0000_0000_0000
  }

  predicate Visible(s: Screen, p: Point) { 0 <= p.x < s.width && 0 <= p.y < s.height }

  lemma IndexInRange(s: Screen, p: Point, size: nat)
    requires Fits(s, size) && Visible(s, p)
    ensures 0 <= p.y * s.pitch + p.x < size
  {
    MulMono(p.y + 1, s.height, s.pitch);
    Distribute(p.y, 1, s.pitch);
    MulNonNeg(p.y, s.pitch);
  }

  /** Different visible points lie in different pixels. */
  lemma IndexInjective(s: Screen, p: Point, q: Point, size: nat)
    requires Fits(s, size) && Visible(s, p) && Visible(s, q) && p.y * s.pitch + p.x == q.y * s.pitch + q.x
    ensures p == q
  {
    DivModUnique(p.y * s.pitch + p.x, s.pitch, p.y, p.x);
    DivModUnique(q.y * s.pitch + q.x, s.pitch, q.y, q.x);
  }

  ghost function Plot(pix: seq<int>, s: Screen, p: Point, color: int): (r: seq<int>)
    requires Fits(s, |pix|)
    ensures |r| == |pix|
  {
    if Visible(s, p) then
      IndexInRange(s, p, |pix|);
      pix[p.y * s.pitch + p.x := color]
    else pix
  }

  ghost function PlotAll(pix: seq<int>, s: Screen, ps: seq<Point>, color: int): (r: seq<int>)
    requires Fits(s, |pix|)
    ensures |r| == |pix|
  {
    if ps == [] then pix else Plot(PlotAll(pix, s, ps[..|ps| - 1], color), s, ps[|ps| - 1], color)
  }

  /** After plotting, exactly the visible points of the list have the colour; all other memory is untouched. */
  lemma {:induction false} PlotAllMeaning(pix: seq<int>, s: Screen, ps: seq<Point>, color: int, i: nat)
    requires Fits(s, |pix|) && i < |pix|
    ensures PlotAll(pix, s, ps, color)[i] ==
              if exists k :: 0 <= k < |ps| && Visible(s, ps[k]) && ps[k].y * s.pitch + ps[k].x == i then color
              else pix[i]
  {
    if ps != [] {
      var init, last := ps[..|ps| - 1], ps[|ps| - 1];
      PlotAllMeaning(pix, s, init, color, i);
      if Visible(s, last) {
        IndexInRange(s, last, |pix|);
      }
      forall k | 0 <= k < |ps| && Visible(s, ps[k]) && ps[k].y * s.pitch + ps[k].x == i && k < |init|
        ensures exists j :: 0 <= j < |init| && Visible(s, init[j]) && init[j].y * s.pitch + init[j].x == i
      {
        assert init[k] == ps[k];
      }
      if exists k :: 0 <= k < |init| && Visible(s, init[k]) && init[k].y * s.pitch + init[k].x == i {
        var k :| 0 <= k < |init| && Visible(s, init[k]) && init[k].y * s.pitch + init[k].x == i;
        assert ps[k] == init[k];
      }
      if Visible(s, last) && last.y * s.pitch + last.x == i {
        assert ps[|ps| - 1] == last;
      }
    }
  }

  /** Seen from the screen: a visible point has the colour if it is in the list, and keeps its own otherwise. */
  lemma PointPainted(pix: seq<int>, s: Screen, ps: seq<Point>, color: int, p: Point)
    requires Fits(s, |pix|) && Visible(s, p)
    ensures 0 <= p.y * s.pitch + p.x < |pix|
    ensures PlotAll(pix, s, ps, color)[p.y * s.pitch + p.x] == if p in ps then color else pix[p.y * s.pitch + p.x]
  {
    var i := p.y * s.pitch + p.x;
    IndexInRange(s, p, |pix|);
    PlotAllMeaning(pix, s, ps, color, i);
    forall k | 0 <= k < |ps| && Visible(s, ps[k]) && ps[k].y * s.pitch + ps[k].x == i ensures ps[k] == p {
      IndexInjective(s, ps[k], p, |pix|);
    }
  }

  lemma PlotOneMore(pix: seq<int>, s: Screen, ps: seq<Point>, p: Point, color: int)
    requires Fits(s, |pix|)
    ensures PlotAll(pix, s, ps + [p], color) == Plot(PlotAll(pix, s, ps, color), s, p, color)
  {
    assert (ps + [p])[..|ps + [p]| - 1] == ps;
  }

  /** No visible point lies in pixel i. */
  ghost predicate Hidden(s: Screen, i: int)
  {
    forall p: Point :: Visible(s, p) ==> p.y * s.pitch + p.x != i
  }

  /** The colour of a visible point. */
  ghost function Pixel(pix: seq<int>, s: Screen, p: Point): (c: int)
    requires Fits(s, |pix|) && Visible(s, p)
  {
    IndexInRange(s, p, |pix|);
    pix[p.y * s.pitch + p.x]
  }

  /** Exactly the visible points of a set have the colour; the others and the memory beside the screen are untouched. */
  ghost predicate Repainted(pix0: seq<int>, pix: seq<int>, s: Screen, color: int, painted: iset<Point>)
  {
    && |pix| == |pix0| && Fits(s, |pix|)
    && (forall p: Point :: Visible(s, p) ==> Pixel(pix, s, p) == if p in painted then color else Pixel(pix0, s, p))
    && forall i :: 0 <= i < |pix| && Hidden(s, i) ==> pix[i] == pix0[i]
  }

  lemma ListRepaints(pix: seq<int>, s: Screen, ps: seq<Point>, color: int, painted: iset<Point>)
    requires Fits(s, |pix|) && forall p: Point :: Visible(s, p) ==> (p in ps <==> p in painted)
    ensures Repainted(pix, PlotAll(pix, s, ps, color), s, color, painted)
  {
    var r := PlotAll(pix, s, ps, color);
    forall p: Point | Visible(s, p) ensures Pixel(r, s, p) == if p in painted then color else Pixel(pix, s, p) {
      PointPainted(pix, s, ps, color, p);
    }
    forall i | 0 <= i < |r| && Hidden(s, i) ensures r[i] == pix[i] {
      PlotAllMeaning(pix, s, ps, color, i);
    }
  }

  /** PutPixel on unsigned 64-bit coordinates. */
  method PutPixel(fb: array<int>, s: Screen, x: nat, y: nat, color: int)
    requires Fits(s, fb.Length)
    modifies fb
    ensures fb[..] == Plot(old(fb[..]), s, Point(x, y), color)
    ensures x < s.width && y < s.height ==> 0 <= y * s.pitch + x < fb.Length && fb[y * s.pitch + x] == color
    ensures forall i :: 0 <= i < fb.Length && !(x < s.width && y < s.height && i == y * s.pitch + x) ==>
      fb[i] == old(fb[i])
  {
    if x >= s.width || y >= s.height {
      return;
    }
    IndexInRange(s, Point(x, y), fb.Length);
    fb[y * s.pitch + x] := color;
  }

  // ---- lines

  function Abs(v: int): (r: nat) { if v < 0 then -v else v }

  /** u / d to the nearest integer; a tie goes down in the strict variant and up in the other. */
  function Nearest(u: nat, d: nat, strict: bool): (b: nat)
    requires d > 0
  {
    if strict then (2 * u + d - 1) / (2 * d) else (2 * u + d) / (2 * d)
  }

  /** b * d is within half of d of u. */
  ghost predicate IsNearest(u: int, v: int, d: int, strict: bool)
  {
    if strict then 2 * u - d <= 2 * v < 2 * u + d else 2 * u - d < 2 * v <= 2 * u + d
  }

  lemma NearestMeaning(u: nat, d: nat, strict: bool)
    requires d > 0
    ensures IsNearest(u, Nearest(u, d, strict) * d, d, strict)
  {
    var b := Nearest(u, d, strict);
    DivIdentity(if strict then 2 * u + d - 1 else 2 * u + d, 2 * d);
    assert b * (2 * d) == 2 * (b * d);
  }

  lemma NearestUnique(u: nat, b: nat, d: nat, strict: bool)
    requires d > 0 && IsNearest(u, b * d, d, strict)
    ensures b == Nearest(u, d, strict)
  {
    var t := if strict then 2 * u + d - 1 else 2 * u + d;
    assert b * (2 * d) == 2 * (b * d);
    DivModUnique(t, 2 * d, b, t - 2 * (b * d));
  }

  /** n steps from a in the direction of b. */
  function Toward(a: int, b: int, n: int): (r: int) { if a < b then a + n else a - n }

  /** The k-th point of the ideal line: one step on the longer axis each time, rounded on the shorter. */
  function LinePoint(x0: int, y0: int, x1: int, y1: int, k: nat, strict: bool): (p: Point)
  {
    var dx, dy := Abs(x1 - x0), Abs(y1 - y0);
    if dx == 0 && dy == 0 then Point(x0, y0)
    else if dx >= dy then
      MulNonNeg(k, dy);
      Point(Toward(x0, x1, k), Toward(y0, y1, Nearest(k * dy, dx, strict)))
    else
      MulNonNeg(k, dx);
      Point(Toward(x0, x1, Nearest(k * dx, dy, strict)), Toward(y0, y1, k))
  }

  function LineLength(x0: int, y0: int, x1: int, y1: int): (n: nat)
  {
    if Abs(x1 - x0) >= Abs(y1 - y0) then Abs(x1 - x0) else Abs(y1 - y0)
  }

  function LinePoints(x0: int, y0: int, x1: int, y1: int, n: nat, strict: bool): (ps: seq<Point>)
    ensures |ps| == n
  {
    seq(n, k requires 0 <= k < n => LinePoint(x0, y0, x1, y1, k, strict))
  }

  /** State of the error term on the axes longer (d, k steps) and shorter (e, b steps): v = b * d, u = k * e. */
  ghost predicate LineError(d: int, e: int, u: int, v: int, err: int, strict: bool)
  {
    0 <= e <= d && d > 0 && IsNearest(u, v, d, strict) && err == (v + d) - (u + e)
  }

  /** The longer axis always steps. */
  lemma LongAxisSteps(d: int, e: int, u: int, v: int, err: int, strict: bool)
    requires LineError(d, e, u, v, err, strict) && (e == d ==> u == v)
    ensures if strict then 2 * err > -e else 2 * err >= -e
  {}

  /** The shorter axis steps exactly when that keeps it nearest. */
  lemma ShortAxisSteps(d: int, e: int, u: int, v: int, err: int, strict: bool)
    requires LineError(d, e, u, v, err, strict)
    ensures var step := if strict then 2 * err < d else 2 * err <= d;
            if step then IsNearest(u + e, v + d, d, strict) else IsNearest(u + e, v, d, strict)
  {}

  /** After k steps on the longer axis and b on the shorter: the error term and what it means. */
  ghost predicate LineState(dx: nat, dy: nat, k: nat, b: nat, err: int, strict: bool)
  {
    forall i: int {:trigger Open(i)} :: Open(i) ==>
      if dx == 0 && dy == 0 then k == 0 && b == 0
      else if dx >= dy then LineError(dx, dy, k * dy, b * dx, err, strict) && (dx == dy ==> k == b)
      else LineError(dy, dx, k * dx, b * dy, 0 - err, strict)
  }

  /** The two tests of the loop on e2 = 2 * err: strict in fb.c, not strict in fb.cpp. */
  predicate StepsX(dx: int, dy: int, e2: int, strict: bool) { if strict then e2 > -dy else e2 >= -dy }

  predicate StepsY(dx: int, dy: int, e2: int, strict: bool) { if strict then e2 < dx else e2 <= dx }

  /** One turn of the loop on a flat line, and one on a steep line. */
  lemma FlatStep(dx: nat, dy: nat, k: nat, b: nat, err: int, strict: bool)
    requires dx > 0 && dx >= dy && LineState(dx, dy, k, b, err, strict)
    ensures StepsX(dx, dy, 2 * err, strict)
    ensures if StepsY(dx, dy, 2 * err, strict) then LineState(dx, dy, k + 1, b + 1, err - dy + dx, strict)
            else LineState(dx, dy, k + 1, b, err - dy, strict)
  {
    assert Open(0);
    LongAxisSteps(dx, dy, k * dy, b * dx, err, strict);
    ShortAxisSteps(dx, dy, k * dy, b * dx, err, strict);
    Distribute(k, 1, dy);
    Distribute(b, 1, dx);
  }

  lemma SteepStep(dx: nat, dy: nat, k: nat, b: nat, err: int, strict: bool)
    requires dx < dy && LineState(dx, dy, k, b, err, strict)
    ensures StepsY(dx, dy, 2 * err, strict)
    ensures if StepsX(dx, dy, 2 * err, strict) then LineState(dx, dy, k + 1, b + 1, err - dy + dx, strict)
            else LineState(dx, dy, k + 1, b, err + dx, strict)
  {
    assert Open(0);
    LongAxisSteps(dy, dx, k * dx, b * dy, 0 - err, strict);
    ShortAxisSteps(dy, dx, k * dx, b * dy, 0 - err, strict);
    Distribute(k, 1, dx);
    Distribute(b, 1, dy);
  }

  /** The state describes the k-th point of the line. */
  lemma StatePoint(x0: int, y0: int, x1: int, y1: int, k: nat, b: nat, err: int, strict: bool)
    requires LineState(Abs(x1 - x0), Abs(y1 - y0), k, b, err, strict)
    ensures var dx, dy := Abs(x1 - x0), Abs(y1 - y0);
            LinePoint(x0, y0, x1, y1, k, strict) ==
              if dx >= dy then Point(Toward(x0, x1, k), Toward(y0, y1, b))
              else Point(Toward(x0, x1, b), Toward(y0, y1, k))
  {
    assert Open(0);
    var dx, dy := Abs(x1 - x0), Abs(y1 - y0);
    if dx > 0 && dx >= dy {
      MulNonNeg(k, dy);
      NearestUnique(k * dy, b, dx, strict);
    } else if dx < dy {
      MulNonNeg(k, dx);
      NearestUnique(k * dx, b, dy, strict);
    }
  }

  /** The rounded axis stays between its ends and reaches the far one with the last step. */
  lemma ShortAxisRange(d: nat, e: nat, k: nat, strict: bool)
    requires 0 < d && e <= d && k <= d
    ensures 0 <= k * e && 0 <= Nearest(k * e, d, strict) <= e
    ensures k == d ==> Nearest(k * e, d, strict) == e
  {
    MulNonNeg(k, e);
    MulMono(k, d, e);
    var b := Nearest(k * e, d, strict);
    NearestMeaning(k * e, d, strict);
    NearestAtMost(k * e, b, e, d, strict);
    if k == d {
      NearestUnique(d * e, e, d, strict);
    }
  }

  lemma NearestAtMost(u: nat, b: nat, e: nat, d: nat, strict: bool)
    requires 0 < d && u <= d * e && IsNearest(u, b * d, d, strict)
    ensures b <= e
  {
    if b > e {
      Distribute(e, 1, d);
      MulMono(e + 1, b, d);
    }
  }

  /** Every point lies in the bounding box, and the last one is the far end. */
  lemma LineInBox(x0: int, y0: int, x1: int, y1: int, k: nat, strict: bool)
    requires k <= LineLength(x0, y0, x1, y1)
    ensures var p := LinePoint(x0, y0, x1, y1, k, strict);
            && (x0 <= p.x <= x1 || x1 <= p.x <= x0) && (y0 <= p.y <= y1 || y1 <= p.y <= y0)
    ensures LinePoint(x0, y0, x1, y1, k, strict) == Point(x1, y1) <==> k == LineLength(x0, y0, x1, y1)
  {
    var dx, dy := Abs(x1 - x0), Abs(y1 - y0);
    if dx > 0 && dx >= dy {
      ShortAxisRange(dx, dy, k, strict);
    } else if dx < dy {
      ShortAxisRange(dy, dx, k, strict);
    }
  }

  lemma NearestHalf(d: nat, e: nat, k: nat, strict: bool)
    requires 0 < d
    ensures 0 <= k * e && 2 * Abs(Nearest(k * e, d, strict) * d - k * e) <= d
  {
    MulNonNeg(k, e);
    NearestMeaning(k * e, d, strict);
  }

  lemma SignsOut(s: int, t: int, a: int, b: int)
    requires (s == 1 || s == -1) && (t == 1 || t == -1)
    ensures (s * a) * (t * b) == if s == t then a * b else -(a * b)
  {
    if s == 1 {
      assert s * a == a;
    } else {
      assert s * a == -a;
    }
    if t == 1 {
      assert t * b == b;
    } else {
      assert t * b == -b;
    }
  }

  /** The same product with both factors' signs turned. */
  lemma SignedCross(sx: int, sy: int, b: nat, k: nat, d: nat, e: nat)
    requires (sx == 1 || sx == -1) && (sy == 1 || sy == -1)
    ensures Abs((sy * b) * (sx * d) - (sx * k) * (sy * e)) == Abs(b * d - k * e)
  {
    SignsOut(sy, sx, b, d);
    SignsOut(sx, sy, k, e);
  }

  /** How far a point is off the ideal line on the shorter axis, times the distance on the longer one. */
  function Deviation(x0: int, y0: int, x1: int, y1: int, p: Point): (v: int)
  {
    (p.y - y0) * (x1 - x0) - (p.x - x0) * (y1 - y0)
  }

  /** No point of the line is more than half a pixel away from the ideal line on the shorter axis. */
  lemma LineHalfPixel(x0: int, y0: int, x1: int, y1: int, k: nat, strict: bool)
    requires k <= LineLength(x0, y0, x1, y1)
    ensures 2 * Abs(Deviation(x0, y0, x1, y1, LinePoint(x0, y0, x1, y1, k, strict))) <= LineLength(x0, y0, x1, y1)
  {
    var dx, dy := Abs(x1 - x0), Abs(y1 - y0);
    var sx, sy := if x0 < x1 then 1 else -1, if y0 < y1 then 1 else -1;
    if dx > 0 && dx >= dy {
      NearestHalf(dx, dy, k, strict);
      SignedCross(sx, sy, Nearest(k * dy, dx, strict), k, dx, dy);
    } else if dx < dy {
      NearestHalf(dy, dx, k, strict);
      SignedCross(sy, sx, Nearest(k * dx, dy, strict), k, dy, dx);
    }
  }

  const SIGN: int := 0x8000_0000_0000_0000

  predicate Int64(v: int) { -SIGN <= v < SIGN }

  ghost predicate InLimits(x: int, y: int) { Int64(x) && Int64(y) }

  /** A third of the range: three times it, the most that the doubled error term can be, is still in 64 bits. */
  const DISTANCE: int := 0x2AAA_AAAA_AAAA_AAAA

  /** Ends whose distances the 64-bit arithmetic of the loop can carry. */
  ghost predicate LineFits(x0: int, y0: int, x1: int, y1: int)
  {
    InLimits(x0, y0) && InLimits(x1, y1) && Abs(x1 - x0) <= DISTANCE && Abs(y1 - y0) <= DISTANCE
  }

  /** A negative coordinate becomes a huge unsigned one; neither is visible. */
  lemma CastPoint(pix: seq<int>, s: Screen, x: int, y: int, color: int)
    requires Fits(s, |pix|) && InLimits(x, y)
    ensures Plot(pix, s, Point(U64(x), U64(y)), color) == Plot(pix, s, Point(x, y), color)
  {
    CastNegative(x);
    CastNegative(y);
  }

  lemma CastNegative(x: int)
    requires Int64(x)
    ensures x >= 0 ==> U64(x) == x
    ensures x < 0 ==> U64(x) >= 0x8000_0000_0000_0000
  {
    if x >= 0 {
      ModSmall(x, WORD);
    } else {
      DivModUnique(x, WORD, -1, x + WORD);
    }
  }

  /** Twice the error term stays within three times the longer distance, so 64 bits carry it and both updates. */
  lemma ErrorFits(dx: nat, dy: nat, k: nat, b: nat, err: int, strict: bool)
    requires LineState(dx, dy, k, b, err, strict) && (dx > 0 || dy > 0) && dx <= DISTANCE && dy <= DISTANCE
    ensures Int64(err) && Int64(2 * err) && Int64(err - dy) && Int64(err + dx) && Int64(err - dy + dx)
  {
    assert Open(0);
    if dx >= dy {
      ErrorRange(dx, dy, k * dy, b * dx, err, strict);
    } else {
      ErrorRange(dy, dx, k * dx, b * dy, 0 - err, strict);
    }
  }

  lemma ErrorRange(d: int, e: int, u: int, v: int, err: int, strict: bool)
    requires LineError(d, e, u, v, err, strict)
    ensures -3 * d <= 2 * err <= 3 * d
  {}

  /** After k turns of the loop, b of which moved the shorter axis: the current point and the error term. */
  ghost predicate AtTurn(x0: int, y0: int, x1: int, y1: int, strict: bool, k: nat, b: nat, x: int, y: int, err: int)
  {
    forall i: int {:trigger Open(i)} :: Open(i) ==>
      var dx, dy := Abs(x1 - x0), Abs(y1 - y0);
      && k <= LineLength(x0, y0, x1, y1) && LineState(dx, dy, k, b, err, strict)
      && x == Toward(x0, x1, if dx >= dy then k else b) && y == Toward(y0, y1, if dx >= dy then b else k)
  }

  lemma TurnStart(x0: int, y0: int, x1: int, y1: int, strict: bool)
    ensures AtTurn(x0, y0, x1, y1, strict, 0, 0, x0, y0, Abs(x1 - x0) - Abs(y1 - y0))
  {
    LineStart(Abs(x1 - x0), Abs(y1 - y0), strict);
  }

  /** The current point is the k-th point of the line: inside the box, and the far end only at the last turn. */
  lemma TurnPoint(x0: int, y0: int, x1: int, y1: int, strict: bool, k: nat, b: nat, x: int, y: int, err: int)
    requires AtTurn(x0, y0, x1, y1, strict, k, b, x, y, err)
    ensures Point(x, y) == LinePoint(x0, y0, x1, y1, k, strict)
    ensures (x0 <= x <= x1 || x1 <= x <= x0) && (y0 <= y <= y1 || y1 <= y <= y0)
    ensures k <= LineLength(x0, y0, x1, y1)
    ensures x == x1 && y == y1 <==> k == LineLength(x0, y0, x1, y1)
  {
    assert Open(0);
    StatePoint(x0, y0, x1, y1, k, b, err, strict);
    LineInBox(x0, y0, x1, y1, k, strict);
  }

  /** On the way the error term, its double and both its updates fit a signed 64-bit word. */
  lemma TurnFits(x0: int, y0: int, x1: int, y1: int, strict: bool, k: nat, b: nat, x: int, y: int, err: int)
    requires LineFits(x0, y0, x1, y1) && AtTurn(x0, y0, x1, y1, strict, k, b, x, y, err) && (x0 != x1 || y0 != y1)
    ensures var dx, dy := Abs(x1 - x0), Abs(y1 - y0);
            Int64(err) && Int64(2 * err) && Int64(err - dy) && Int64(err + dx) && Int64(err - dy + dx)
  {
    assert Open(0);
    ErrorFits(Abs(x1 - x0), Abs(y1 - y0), k, b, err, strict);
  }

  /** What the body of the loop does to the point and the error term. */
  lemma TurnStep(x0: int, y0: int, x1: int, y1: int, strict: bool, k: nat, b: nat, x: int, y: int, err: int)
    returns (b': nat, x': int, y': int, err': int)
    requires AtTurn(x0, y0, x1, y1, strict, k, b, x, y, err) && k < LineLength(x0, y0, x1, y1)
    ensures var dx, dy := Abs(x1 - x0), Abs(y1 - y0);
            var stepX, stepY := StepsX(dx, dy, 2 * err, strict), StepsY(dx, dy, 2 * err, strict);
            && x' == (if stepX then x + (if x0 < x1 then 1 else -1) else x)
            && y' == (if stepY then y + (if y0 < y1 then 1 else -1) else y)
            && err' == err - (if stepX then dy else 0) + (if stepY then dx else 0)
    ensures AtTurn(x0, y0, x1, y1, strict, k + 1, b', x', y', err')
  {
    assert Open(0);
    var dx, dy := Abs(x1 - x0), Abs(y1 - y0);
    LineTurn(dx, dy, k, b, err, strict);
    var stepX, stepY := StepsX(dx, dy, 2 * err, strict), StepsY(dx, dy, 2 * err, strict);
    b' := if (if dx >= dy then stepY else stepX) then b + 1 else b;
    x' := if stepX then x + (if x0 < x1 then 1 else -1) else x;
    y' := if stepY then y + (if y0 < y1 then 1 else -1) else y;
    err' := err - (if stepX then dy else 0) + (if stepY then dx else 0);
  }

  /** The set of points of a line. */
  ghost function Line(x0: int, y0: int, x1: int, y1: int, strict: bool): (points: iset<Point>)
  {
    iset k: nat | k <= LineLength(x0, y0, x1, y1) :: LinePoint(x0, y0, x1, y1, k, strict)
  }

  lemma LineShown(pix: seq<int>, s: Screen, x0: int, y0: int, x1: int, y1: int, strict: bool, color: int)
    requires Fits(s, |pix|)
    ensures var n := LineLength(x0, y0, x1, y1) + 1;
      Repainted(pix, PlotAll(pix, s, LinePoints(x0, y0, x1, y1, n, strict), color), s, color,
                Line(x0, y0, x1, y1, strict))
  {
    var ps := LinePoints(x0, y0, x1, y1, LineLength(x0, y0, x1, y1) + 1, strict);
    forall p: Point ensures p in ps <==> p in Line(x0, y0, x1, y1, strict) {
      if p in ps {
        var k :| 0 <= k < |ps| && ps[k] == p;
        assert p == LinePoint(x0, y0, x1, y1, k, strict);
      }
      if p in Line(x0, y0, x1, y1, strict) {
        var k: nat :| k <= LineLength(x0, y0, x1, y1) && p == LinePoint(x0, y0, x1, y1, k, strict);
        assert ps[k] == p;
      }
    }
    ListRepaints(pix, s, ps, color, Line(x0, y0, x1, y1, strict));
  }

  /** The two tests at the end of the loop, and what they move; no word leaves 64 bits. */
  method Advance(x: int, y: int, err: int, dx: int, dy: int, sx: int, sy: int, strict: bool)
    returns (x': int, y': int, err': int)
    requires Int64(2 * err) && Int64(err - dy) && Int64(err + dx) && Int64(err - dy + dx)
    ensures var stepX, stepY := StepsX(dx, dy, 2 * err, strict), StepsY(dx, dy, 2 * err, strict);
            && x' == (if stepX then x + sx else x) && y' == (if stepY then y + sy else y)
            && err' == err - (if stepX then dy else 0) + (if stepY then dx else 0)
  {
    x', y', err' := x, y, err;
    var e2 := 2 * err;
    assert Int64(e2);
    var stepX, stepY := StepsX(dx, dy, e2, strict), StepsY(dx, dy, e2, strict);
    if stepX {
      err' := err' - dy;
      assert Int64(err');
      x' := x' + sx;
    }
    if stepY {
      err' := err' + dx;
      assert Int64(err');
      y' := y' + sy;
    }
  }

  /**
   * DrawLine; strict selects the tests of fb.c, otherwise those of fb.cpp. The loop stops at the far end
   * after one point per step on the longer axis, and paints exactly the points of the ideal line.
   */
  method DrawLine(fb: array<int>, s: Screen, x0: int, y0: int, x1: int, y1: int, color: int, strict: bool)
    requires Fits(s, fb.Length) && LineFits(x0, y0, x1, y1)
    modifies fb
    ensures fb[..] == PlotAll(old(fb[..]), s, LinePoints(x0, y0, x1, y1, LineLength(x0, y0, x1, y1) + 1, strict), color)
    ensures Repainted(old(fb[..]), fb[..], s, color, Line(x0, y0, x1, y1, strict))
  {
    var dx: int, dy: int := Abs(x1 - x0), Abs(y1 - y0);
    var sx: int, sy: int := if x0 < x1 then 1 else -1, if y0 < y1 then 1 else -1;
    var err: int := dx - dy;
    var x, y := x0, y0;
    ghost var n, k, b, points: seq<Point> := LineLength(x0, y0, x1, y1), 0, 0, [];
    TurnStart(x0, y0, x1, y1, strict);
    NothingPainted(fb[..], s, color);
    while true
      invariant 0 <= k <= n && 0 <= b && AtTurn(x0, y0, x1, y1, strict, k, b, x, y, err)
      invariant Painted(old(fb[..]), fb[..], s, points, color) && Drawn(points, x0, y0, x1, y1, k, strict)
      decreases n - k
    {
      TurnPoint(x0, y0, x1, y1, strict, k, b, x, y, err);
      DrawnStep(points, x0, y0, x1, y1, k, strict);
      PutSigned(fb, s, x, y, color, old(fb[..]), points);
      points := points + [Point(x, y)];
      if x == x1 && y == y1 {
        break;
      }
      ghost var b', x', y', err' := TurnStep(x0, y0, x1, y1, strict, k, b, x, y, err);
      TurnFits(x0, y0, x1, y1, strict, k, b, x, y, err);
      x, y, err := Advance(x, y, err, dx, dy, sx, sy, strict);
      assert x == x' && y == y' && err == err';
      k, b := k + 1, b';
    }
    AllPainted(old(fb[..]), fb[..], s, points, x0, y0, x1, y1, strict, color);
    LineShown(old(fb[..]), s, x0, y0, x1, y1, strict, color);
  }

  /** One turn of the loop, flat or steep: the longer axis steps, the shorter one as rounding demands. */
  lemma LineTurn(dx: nat, dy: nat, k: nat, b: nat, err: int, strict: bool)
    requires (dx > 0 || dy > 0) && LineState(dx, dy, k, b, err, strict)
    ensures var stepX, stepY := StepsX(dx, dy, 2 * err, strict), StepsY(dx, dy, 2 * err, strict);
            var err' := err - (if stepX then dy else 0) + (if stepY then dx else 0);
            && (if dx >= dy then stepX else stepY)
            && LineState(dx, dy, k + 1, if (if dx >= dy then stepY else stepX) then b + 1 else b, err', strict)
  {
    if dx >= dy {
      FlatStep(dx, dy, k, b, err, strict);
    } else {
      SteepStep(dx, dy, k, b, err, strict);
    }
  }

  lemma LineStart(dx: nat, dy: nat, strict: bool)
    ensures LineState(dx, dy, 0, 0, dx - dy, strict)
  {}

  /** Marks the lists of points that a proof looks into. */
  ghost predicate Shown(points: seq<Point>, i: int) { true }

  /** pix is pix0 with the points painted over. */
  ghost predicate Painted(pix0: seq<int>, pix: seq<int>, s: Screen, points: seq<Point>, color: int)
  {
    forall i: int {:trigger Shown(points, i)} :: Shown(points, i) ==>
      Fits(s, |pix0|) && pix == PlotAll(pix0, s, points, color)
  }

  lemma NothingPainted(pix: seq<int>, s: Screen, color: int)
    requires Fits(s, |pix|)
    ensures Painted(pix, pix, s, [], color)
  {}

  lemma AllPainted(pix0: seq<int>, pix: seq<int>, s: Screen, points: seq<Point>,
                   x0: int, y0: int, x1: int, y1: int, strict: bool, color: int)
    requires Fits(s, |pix0|) && Painted(pix0, pix, s, points, color)
    requires Drawn(points, x0, y0, x1, y1, LineLength(x0, y0, x1, y1) + 1, strict)
    ensures pix == PlotAll(pix0, s, LinePoints(x0, y0, x1, y1, LineLength(x0, y0, x1, y1) + 1, strict), color)
  {
    assert Shown(points, 0);
  }

  /** PutPixel on signed coordinates, which the call converts to unsigned ones. */
  method PutSigned(fb: array<int>, s: Screen, x: int, y: int, color: int,
                   ghost pix0: seq<int>, ghost points: seq<Point>)
    requires Fits(s, fb.Length) && InLimits(x, y) && Painted(pix0, fb[..], s, points, color)
    modifies fb
    ensures Painted(pix0, fb[..], s, points + [Point(x, y)], color)
  {
    assert Shown(points, 0);
    CastPoint(fb[..], s, x, y, color);
    PutPixel(fb, s, U64(x), U64(y), color);
    PlotOneMore(pix0, s, points, Point(x, y), color);
  }

  /** The first k points of the line. */
  ghost predicate Drawn(points: seq<Point>, x0: int, y0: int, x1: int, y1: int, k: nat, strict: bool)
  {
    forall i: int {:trigger Shown(points, i)} :: Shown(points, i) ==> points == LinePoints(x0, y0, x1, y1, k, strict)
  }

  lemma DrawnStep(points: seq<Point>, x0: int, y0: int, x1: int, y1: int, k: nat, strict: bool)
    requires Drawn(points, x0, y0, x1, y1, k, strict)
    ensures Drawn(points + [LinePoint(x0, y0, x1, y1, k, strict)], x0, y0, x1, y1, k + 1, strict)
  {
    assert Shown(points, 0);
  }

  // ---- circles

  /** err = x^2 + y^2 - r^2 + 2y. */
  ghost function CircleError(r: int, x: int, y: int): (e: int) { x * x + y * y - r * r + 2 * y }

  /** x is the largest integer with x^2 + y^2 + 2y <= r^2. */
  ghost predicate Largest(r: int, x: int, y: int)
  {
    CircleError(r, x, y) <= 0 < CircleError(r, x + 1, y)
  }

  lemma LargestUnique(r: int, x: int, x': int, y: int)
    requires 0 <= x && 0 <= x' && Largest(r, x, y) && Largest(r, x', y)
    ensures x == x'
  {
    if x < x' {
      SquareMono(x + 1, x');
    } else if x' < x {
      SquareMono(x' + 1, x);
    }
  }

  lemma SquareMono(a: int, b: int)
    requires 0 <= a <= b
    ensures a * a <= b * b
  {
    MulMono(a, b, a);
    MulMono(a, b, b);
  }

  lemma SquareStep(a: int)
    ensures (a + 1) * (a + 1) == a * a + 2 * a + 1
    ensures (a - 1) * (a - 1) == a * a - 2 * a + 1
  {}

  /** The eight symmetric points of an octant point, as the unsigned coordinates that PutPixel is given. */
  function Eight(cx: int, cy: int, x: int, y: int): (ps: seq<Point>)
  {
    [Point(U64(cx + x), U64(cy + y)), Point(U64(cx + y), U64(cy + x)),
     Point(U64(cx - y), U64(cy + x)), Point(U64(cx - x), U64(cy + y)),
     Point(U64(cx - x), U64(cy - y)), Point(U64(cx - y), U64(cy - x)),
     Point(U64(cx + y), U64(cy - x)), Point(U64(cx + x), U64(cy - y))]
  }

  function EightAll(cx: int, cy: int, octant: seq<Point>): (ps: seq<Point>)
  {
    if octant == [] then []
    else EightAll(cx, cy, octant[..|octant| - 1]) + Eight(cx, cy, octant[|octant| - 1].x, octant[|octant| - 1].y)
  }

  /** The octant of radius r: row j holds its largest x, for every row with x >= y and no other. */
  ghost predicate Octant(r: int, octant: seq<Point>)
  {
    && (forall j :: 0 <= j < |octant| ==> octant[j].y == j <= octant[j].x && Largest(r, octant[j].x, j))
    && CircleError(r, |octant|, |octant|) > 0
  }

  /** One turn of the circle loop from a plotted point. */
  lemma CircleStep(r: int, x: int, y: int, err: int)
    requires 0 <= y <= x && err == CircleError(r, x, y) && Largest(r, x, y)
    ensures var e1 := err + 2 * (y + 1) + 1;
            && e1 == CircleError(r, x, y + 1)
            && (e1 <= 0 ==> Largest(r, x, y + 1))
            && (e1 > 0 ==>
                  && e1 - (2 * (x - 1) + 1) == CircleError(r, x - 1, y + 1)
                  && (x - 1 >= y + 1 ==> Largest(r, x - 1, y + 1))
                  && (x - 1 < y + 1 ==> CircleError(r, y + 1, y + 1) > 0))
  {
    SquareStep(y);
    SquareStep(x);
    if x - 1 < y + 1 {
      SquareMono(x, y + 1);
    }
  }

  method PlotEight(fb: array<int>, s: Screen, cx: nat, cy: nat, x: int, y: int, color: int)
    requires Fits(s, fb.Length)
    modifies fb
    ensures fb[..] == PlotAll(old(fb[..]), s, Eight(cx, cy, x, y), color)
  {
    var ps := Eight(cx, cy, x, y);
    for i := 0 to 8
      invariant fb[..] == PlotAll(old(fb[..]), s, ps[..i], color)
    {
      PutPixel(fb, s, ps[i].x, ps[i].y, color);
      PlotOneMore(old(fb[..]), s, ps[..i], ps[i], color);
      assert ps[..i + 1] == ps[..i] + [ps[i]];
    }
    assert ps[..8] == ps;
  }

  lemma {:induction false} PlotAllAppend(pix: seq<int>, s: Screen, ps: seq<Point>, qs: seq<Point>, color: int)
    requires Fits(s, |pix|)
    ensures PlotAll(pix, s, ps + qs, color) == PlotAll(PlotAll(pix, s, ps, color), s, qs, color)
  {
    if qs == [] {
      assert ps + qs == ps;
    } else {
      PlotAllAppend(pix, s, ps, qs[..|qs| - 1], color);
      assert (ps + qs)[..|ps + qs| - 1] == ps + qs[..|qs| - 1];
    }
  }

  /** The radii for which no step of the loop leaves 64 bits; one with its top bit set is taken for negative. */
  predicate RadiusFits(radius: nat)
  {
    radius <= SIGN / 2 || SIGN <= radius < WORD
  }

  /** In an octant the row stays well below the radius. */
  lemma RowBelowRadius(r: nat, x: int, y: int)
    requires 0 <= y <= x && CircleError(r, x, y) <= 0 && r >= 3
    ensures x <= r && y <= r - 2
  {
    if x > r {
      SquareMono(r + 1, x);
      SquareStep(r);
    }
    if y > r - 2 {
      SquareMono(r - 1, y);
      SquareMono(r - 1, x);
      SquareStep(r);
      MulMono(3, r, r);
    }
  }

  /** Everything that one turn computes, in the order in which it does: it all fits a signed 64-bit word. */
  lemma CircleFits(r: nat, x: int, y: int, err: int)
    requires 0 < r <= SIGN / 2 && 0 <= y <= x && err == CircleError(r, x, y) && Largest(r, x, y)
    ensures Int64(err) && Int64(2 * (y + 1) + 1) && Int64(err + (2 * (y + 1) + 1))
    ensures Int64(2 * (x - 1) + 1)
    ensures err + (2 * (y + 1) + 1) > 0 ==> Int64(err + (2 * (y + 1) + 1) - (2 * (x - 1) + 1))
  {
    SquareStep(x);
    if r >= 3 {
      RowBelowRadius(r, x, y);
    } else if x > 2 {
      SquareMono(3, x);
      SquareMono(r, 2);
    }
  }

  /** Between two turns: the rows so far, the next point, and where the error term stands; no row for a negative x. */
  ghost predicate AtRow(radius: nat, octant: seq<Point>, x: int, y: int, err: int)
  {
    forall i: int {:trigger Open(i)} :: Open(i) ==>
      && y == |octant|
      && (x >= y ==> radius < SIGN && Largest(radius, x, y))
      && (radius >= SIGN ==> octant == [])
      && (radius < SIGN ==>
            && err == CircleError(radius, x, y)
            && (x < y ==> CircleError(radius, y, y) > 0)
            && (forall j :: 0 <= j < |octant| ==> octant[j].y == j <= octant[j].x && Largest(radius, octant[j].x, j)))
  }

  lemma FirstRow(radius: nat)
    requires 0 < radius && RadiusFits(radius)
    ensures AtRow(radius, [], if radius < SIGN then radius else radius - WORD, 0, 0)
  {
    SquareStep(radius);
  }

  /** One turn goes on to the next row, and every word it computes on the way fits 64 bits. */
  lemma RowTurn(radius: nat, octant: seq<Point>, x: int, y: int, err: int)
    requires 0 < radius && RadiusFits(radius) && AtRow(radius, octant, x, y, err) && x >= y
    ensures var e1 := err + (2 * (y + 1) + 1);
            && err <= 0 && Int64(2 * (y + 1) + 1) && Int64(e1)
            && (e1 > 0 ==> Int64(2 * (x - 1) + 1) && Int64(e1 - (2 * (x - 1) + 1)))
            && if e1 <= 0 then AtRow(radius, octant + [Point(x, y)], x, y + 1, e1)
               else AtRow(radius, octant + [Point(x, y)], x - 1, y + 1, e1 - (2 * (x - 1) + 1))
  {
    assert Open(0);
    CircleStep(radius, x, y, err);
    CircleFits(radius, x, y, err);
  }

  lemma LastRow(radius: nat, octant: seq<Point>, x: int, y: int, err: int)
    requires 0 < radius && AtRow(radius, octant, x, y, err) && x < y
    ensures if radius < SIGN then Octant(radius, octant) else octant == []
  {
    assert Open(0);
  }

  lemma EightMore(pix: seq<int>, s: Screen, cx: int, cy: int, octant: seq<Point>, x: int, y: int, color: int)
    requires Fits(s, |pix|)
    ensures PlotAll(pix, s, EightAll(cx, cy, octant + [Point(x, y)]), color)
         == PlotAll(PlotAll(pix, s, EightAll(cx, cy, octant), color), s, Eight(cx, cy, x, y), color)
  {
    PlotAllAppend(pix, s, EightAll(cx, cy, octant), Eight(cx, cy, x, y), color);
    assert (octant + [Point(x, y)])[..|octant|] == octant;
  }

  // ---- the circle on the screen

  /** A coordinate of 64 bits taken for a signed number. */
  function AsSigned(c: nat): (v: int) { if c < SIGN then c else c - WORD }

  /** Coordinates from which no reflection of a circle wraps around into the screen. */
  predicate Near(c: nat) { c < WORD && AsSigned(c) >= -(SIGN / 2) }

  /** Offsets from the centre that belong to the circle: the smaller is a row, the larger the largest x of that row. */
  ghost predicate OnCircle(r: int, dx: int, dy: int)
  {
    if Abs(dx) >= Abs(dy) then Largest(r, Abs(dx), Abs(dy)) else Largest(r, Abs(dy), Abs(dx))
  }

  lemma WrapsAway(c: nat, d: int, v: int)
    requires Near(c) && -(SIGN / 2) <= d <= SIGN / 2 && 0 <= v < SIGN
    ensures U64(c + d) == v <==> AsSigned(c) + d == v
  {
    var x := AsSigned(c) + d;
    if x >= 0 {
      DivModUnique(c + d, WORD, if c < SIGN then 0 else 1, x);
    } else {
      DivModUnique(c + d, WORD, if c < SIGN then -1 else 0, x + WORD);
    }
  }

  /** One coordinate of a reflection. */
  ghost predicate Offset(c: nat, v: int, d: int) { Abs(v - AsSigned(c)) == d }

  lemma Reflected(c: nat, d: nat, v: int)
    requires Near(c) && d <= SIGN / 2 && 0 <= v < SIGN
    ensures (U64(c + d) == v || U64(c - d) == v) <==> Offset(c, v, d)
  {
    WrapsAway(c, d, v);
    WrapsAway(c, 0 - d, v);
  }

  /** The eight points are all the reflections of one. */
  lemma EightMeans(cx: nat, cy: nat, x: nat, y: nat, p: Point)
    requires Near(cx) && Near(cy) && x <= SIGN / 2 && y <= SIGN / 2 && 0 <= p.x < SIGN && 0 <= p.y < SIGN
    ensures p in Eight(cx, cy, x, y)
       <==> (Offset(cx, p.x, x) && Offset(cy, p.y, y)) || (Offset(cx, p.x, y) && Offset(cy, p.y, x))
  {
    Reflected(cx, x, p.x);
    Reflected(cx, y, p.x);
    Reflected(cy, x, p.y);
    Reflected(cy, y, p.y);
    EightPoints(cx, cy, x, y, p);
  }

  lemma EightPoints(cx: nat, cy: nat, x: nat, y: nat, p: Point)
    ensures p in Eight(cx, cy, x, y) <==>
            (  ((p.x == U64(cx + x) || p.x == U64(cx - x)) && (p.y == U64(cy + y) || p.y == U64(cy - y)))
            || ((p.x == U64(cx + y) || p.x == U64(cx - y)) && (p.y == U64(cy + x) || p.y == U64(cy - x))))
  {
    var e := Eight(cx, cy, x, y);
    assert e[0] in e && e[1] in e && e[2] in e && e[3] in e && e[4] in e && e[5] in e && e[6] in e && e[7] in e;
  }

  lemma {:induction false} EightAllMeans(cx: nat, cy: nat, octant: seq<Point>, p: Point)
    ensures p in EightAll(cx, cy, octant)
       <==> exists j :: 0 <= j < |octant| && p in Eight(cx, cy, octant[j].x, octant[j].y)
  {
    if octant != [] {
      var init := octant[..|octant| - 1];
      EightAllMeans(cx, cy, init, p);
      assert forall j :: 0 <= j < |init| ==> init[j] == octant[j];
      if p in EightAll(cx, cy, init) {
        var j :| 0 <= j < |init| && p in Eight(cx, cy, init[j].x, init[j].y);
        assert p in Eight(cx, cy, octant[j].x, octant[j].y);
      }
    }
  }

  lemma LargestWithin(r: nat, x: nat, y: nat)
    requires Largest(r, x, y)
    ensures x <= r
  {
    MulNonNeg(y, y);
    if x > r {
      SquareMono(r + 1, x);
      SquareStep(r);
    }
  }

  /** The octant holds every row that has a point at or right of the diagonal. */
  lemma OctantRows(r: nat, octant: seq<Point>, a: nat, b: nat)
    requires Octant(r, octant) && b <= a
    ensures Largest(r, a, b) <==> b < |octant| && octant[b].x == a
  {
    if Largest(r, a, b) {
      if b >= |octant| {
        SquareMono(|octant|, a);
        SquareMono(|octant|, b);
      } else {
        LargestUnique(r, a, octant[b].x, b);
      }
    }
  }

  lemma RowReflected(r: nat, octant: seq<Point>, cx: nat, cy: nat, j: nat, p: Point)
    requires 0 < r <= SIGN / 2 && Octant(r, octant) && j < |octant| && Near(cx) && Near(cy)
    requires 0 <= p.x < SIGN && 0 <= p.y < SIGN
    ensures p in Eight(cx, cy, octant[j].x, octant[j].y)
       <==> (Offset(cx, p.x, octant[j].x) && Offset(cy, p.y, j)) || (Offset(cx, p.x, j) && Offset(cy, p.y, octant[j].x))
  {
    LargestWithin(r, octant[j].x, j);
    EightMeans(cx, cy, octant[j].x, j, p);
  }

  /** The reflections of the octant are the points of the circle. */
  lemma CirclePoint(r: nat, octant: seq<Point>, cx: nat, cy: nat, p: Point)
    requires 0 < r <= SIGN / 2 && Octant(r, octant) && Near(cx) && Near(cy) && 0 <= p.x < SIGN && 0 <= p.y < SIGN
    ensures p in EightAll(cx, cy, octant) <==> OnCircle(r, p.x - AsSigned(cx), p.y - AsSigned(cy))
  {
    var dx, dy := Abs(p.x - AsSigned(cx)), Abs(p.y - AsSigned(cy));
    var a, b := if dx >= dy then dx else dy, if dx >= dy then dy else dx;
    EightAllMeans(cx, cy, octant, p);
    OctantRows(r, octant, a, b);
    if b < |octant| { RowReflected(r, octant, cx, cy, b, p); }
    forall j | 0 <= j < |octant| && p in Eight(cx, cy, octant[j].x, octant[j].y) ensures j == b && octant[j].x == a {
      RowReflected(r, octant, cx, cy, j, p);
    }
  }

  /** The set of points of a circle. */
  ghost function Circle(cx: nat, cy: nat, radius: nat): (points: iset<Point>)
  {
    iset p: Point | OnCircle(radius, p.x - AsSigned(cx), p.y - AsSigned(cy))
  }

  lemma CircleShown(pix: seq<int>, s: Screen, cx: nat, cy: nat, radius: nat, octant: seq<Point>, color: int)
    requires Fits(s, |pix|) && 0 < radius <= SIGN / 2 && Octant(radius, octant) && Near(cx) && Near(cy)
    ensures Repainted(pix, PlotAll(pix, s, EightAll(cx, cy, octant), color), s, color, Circle(cx, cy, radius))
  {
    forall p: Point | Visible(s, p) ensures p in EightAll(cx, cy, octant) <==> p in Circle(cx, cy, radius) {
      CirclePoint(radius, octant, cx, cy, p);
    }
    ListRepaints(pix, s, EightAll(cx, cy, octant), color, Circle(cx, cy, radius));
  }

  /**
   * DrawCircle: the octant comes out row by row, and the screen shows its eight reflections, which are exactly the
   * points of the circle.
   */
  method DrawCircle(fb: array<int>, s: Screen, cx: nat, cy: nat, radius: nat, color: int)
    returns (ghost octant: seq<Point>)
    requires Fits(s, fb.Length) && cx < WORD && cy < WORD && RadiusFits(radius)
    modifies fb
    ensures radius == 0 ==> fb[..] == Plot(old(fb[..]), s, Point(cx, cy), color)
    ensures 0 < radius < SIGN ==>
      Octant(radius, octant) && fb[..] == PlotAll(old(fb[..]), s, EightAll(cx, cy, octant), color)
    ensures 0 < radius < SIGN && Near(cx) && Near(cy) ==>
      Repainted(old(fb[..]), fb[..], s, color, Circle(cx, cy, radius))
    ensures radius >= SIGN ==> fb[..] == old(fb[..])
  {
    octant := [];
    if radius == 0 {
      PutPixel(fb, s, cx, cy, color);
      return;
    }
    var x: int, y: int, err: int := if radius < SIGN then radius else radius - WORD, 0, 0;
    FirstRow(radius);
    while x >= y
      invariant AtRow(radius, octant, x, y, err)
      invariant fb[..] == PlotAll(old(fb[..]), s, EightAll(cx, cy, octant), color)
      decreases x - y + 2
    {
      PlotEight(fb, s, cx, cy, x, y, color);
      EightMore(old(fb[..]), s, cx, cy, octant, x, y, color);
      RowTurn(radius, octant, x, y, err);
      octant := octant + [Point(x, y)];
      if err <= 0 {
        y := y + 1;
        assert Int64(2 * y + 1);
        err := err + (2 * y + 1);
        assert Int64(err);
      }
      if err > 0 {
        x := x - 1;
        assert Int64(2 * x + 1);
        err := err - (2 * x + 1);
        assert Int64(err);
      }
    }
    LastRow(radius, octant, x, y, err);
    if radius < SIGN && Near(cx) && Near(cy) {
      CircleShown(old(fb[..]), s, cx, cy, radius, octant, color);
    }
  }
}
