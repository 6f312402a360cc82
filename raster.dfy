/**
 * The pixel sequences the drawing routines of Core/Src/ssd1306_oled.c plot,
 * as functions of their arguments: Bresenham's line (drawLine), the
 * vertical and horizontal lines, and the midpoint circle (drawCircle).
 * The drawing methods of the driver plot these sequences pixel by pixel.
 */
module Raster {
  import opened Framebuffer
  import opened Seqs

  /** `int8_t` conversion of an int value (two's complement wrap-around). */
  function Int8(v: int): (r: int)
    ensures -128 <= r < 128
    ensures -128 <= v < 128 ==> r == v
  {
    ((v + 128) % 256) - 128
  }

  /** Sign step of a difference, as the driver computes it: 1 if positive, -1 otherwise. */
  function Sym(d: int): (s: int)
    ensures s == 1 || s == -1
    ensures d > 0 <==> s == 1
  {
    if d > 0 then 1 else -1
  }

  /** The distance from `a` to `aEnd` when stepping by `s`. */
  function Dist(a: int, aEnd: int, s: int): int
  {
    if s == 1 then aEnd - a else a - aEnd
  }

  /** `b` moved `n` steps in direction `s`. */
  function Toward(b: int, n: int, s: int): int
  {
    if s == 1 then b + n else b - n
  }

  /** `v` lies between `u` and `w`, whichever is larger. */
  predicate Between(v: int, u: int, w: int)
  {
    (u <= v <= w) || (w <= v <= u)
  }

  function Abs(v: int): (r: int)
    ensures r >= 0
  {
    if v < 0 then -v else v
  }

  function Max(u: int, v: int): int
  {
    if u < v then v else u
  }

  /** The point with major coordinate `a` and minor coordinate `b`. */
  function Pt(a: int, b: int, swap: bool): Point
  {
    if swap then Point(b, a) else Point(a, b)
  }

  function Major(q: Point, swap: bool): int
  {
    if swap then q.y else q.x
  }

  function Minor(q: Point, swap: bool): int
  {
    if swap then q.x else q.y
  }

  /**
   * One branch of drawLine's loop: plot (a, b), step the major coordinate
   * `a` by `sa`, and update the decision variable `p`; when `p` was not
   * negative the minor coordinate `b` also steps by `sb`. The loop stops
   * when `a` reaches `aEnd`, where the final pixel is plotted.
   */
  function Walk(a: int, b: int, aEnd: int, sa: int, sb: int, dA: int, dB: int, p: int, swap: bool): seq<Point>
    requires sa == 1 || sa == -1
    requires Dist(a, aEnd, sa) >= 0
    decreases Dist(a, aEnd, sa)
  {
    if a == aEnd then [Pt(a, b, swap)]
    else if p < 0 then [Pt(a, b, swap)] + Walk(a + sa, b, aEnd, sa, sb, dA, dB, p + 2 * dB, swap)
    else [Pt(a, b, swap)] + Walk(a + sa, b + sb, aEnd, sa, sb, dA, dB, p + 2 * dB - 2 * dA, swap)
  }

  /**
   * The pixels drawLine plots from (x1, y1) to (x2, y2), in order: x is
   * the major coordinate when |dx| >= |dy|, y otherwise. The driver takes
   * the magnitudes as the differences times their sign steps.
   */
  function LinePoints(x1: int, y1: int, x2: int, y2: int): seq<Point>
  {
    var sx := Sym(x2 - x1);
    var sy := Sym(y2 - y1);
    var dx := Abs(x2 - x1);
    var dy := Abs(y2 - y1);
    if dx >= dy then Walk(x1, y1, x2, sx, sy, dx, dy, 2 * dy - dx, false)
    else Walk(y1, x1, y2, sy, sx, dy, dx, 2 * dx - dy, true)
  }

  /** Consecutive pixels of a line touch (including diagonally) and differ. */
  predicate Neighbours(p: Point, q: Point)
  {
    p != q && -1 <= q.x - p.x <= 1 && -1 <= q.y - p.y <= 1
  }

  /** Facts the walk keeps: the decision variable's range and what it encodes. */
  predicate WalkInvariant(a: int, aEnd: int, sa: int, dA: int, dB: int, p: int, r: int)
  {
    (sa == 1 || sa == -1) && 0 <= dB <= dA &&
    Dist(a, aEnd, sa) >= 0 &&
    2 * dB - 2 * dA <= p < 2 * dB &&
    p + dA - 2 * dB == 2 * dA * r - 2 * dB * Dist(a, aEnd, sa)
  }

  /** At the end of the walk the decision variable says no minor step remains. */
  lemma NoStepLeft(dA: int, dB: int, p: int, r: int)
    requires 0 <= dB <= dA
    requires 2 * dB - 2 * dA <= p < 2 * dB
    requires p + dA - 2 * dB == 2 * dA * r
    ensures r == 0
  {
  }

  /** The invariant is preserved by one step of the walk. */
  lemma WalkStep(a: int, aEnd: int, sa: int, dA: int, dB: int, p: int, r: int)
    requires WalkInvariant(a, aEnd, sa, dA, dB, p, r)
    requires a != aEnd
    ensures p < 0 ==> WalkInvariant(a + sa, aEnd, sa, dA, dB, p + 2 * dB, r)
    ensures p >= 0 ==> WalkInvariant(a + sa, aEnd, sa, dA, dB, p + 2 * dB - 2 * dA, r - 1)
  {
    assert Dist(a + sa, aEnd, sa) == Dist(a, aEnd, sa) - 1;
  }

  /** The pixel drawLine's loop draws next: the first of the remaining walk. */
  lemma WalkHead(pts: seq<Point>, k: int, a: int, b: int, aEnd: int, sa: int, sb: int,
                 dA: int, dB: int, p: int, swap: bool)
    requires sa == 1 || sa == -1
    requires Dist(a, aEnd, sa) >= 0
    requires 0 <= k <= |pts| && pts[k..] == Walk(a, b, aEnd, sa, sb, dA, dB, p, swap)
    ensures k < |pts| && pts[k] == Pt(a, b, swap)
  {
    assert pts[k] == pts[k..][0];
  }

  /**
   * One step of drawLine's loop against the pixel list: when the pixels
   * from index k on are the walk from (a, b) with decision value p, the
   * pixels from k + 1 on are the walk from the position and decision
   * value (a', b', p') the loop body computes.
   */
  lemma WalkAdvance(pts: seq<Point>, k: int, a: int, b: int, aEnd: int, sa: int, sb: int,
                    dA: int, dB: int, p: int, swap: bool, a': int, b': int, p': int)
    requires sa == 1 || sa == -1
    requires Dist(a, aEnd, sa) > 0
    requires 0 <= k <= |pts| && pts[k..] == Walk(a, b, aEnd, sa, sb, dA, dB, p, swap)
    requires a' == a + sa
    requires p < 0 ==> b' == b && p' == p + 2 * dB
    requires p >= 0 ==> b' == b + sb && p' == p + 2 * dB - 2 * dA
    ensures Dist(a', aEnd, sa) >= 0
    ensures k + 1 <= |pts| && pts[k + 1..] == Walk(a', b', aEnd, sa, sb, dA, dB, p', swap)
  {
    var rest := Walk(a', b', aEnd, sa, sb, dA, dB, p', swap);
    assert pts[k..] == [Pt(a, b, swap)] + rest;
    assert pts[k + 1..] == pts[k..][1..];
  }

  /** A walk that has reached its end is its last pixel alone. */
  lemma WalkFinish(pts: seq<Point>, k: int, a: int, b: int, sa: int, sb: int,
                   dA: int, dB: int, p: int, swap: bool)
    requires sa == 1 || sa == -1
    requires 0 <= k <= |pts| && pts[k..] == Walk(a, b, a, sa, sb, dA, dB, p, swap)
    ensures k + 1 == |pts| && pts[k] == Pt(a, b, swap)
  {
    assert pts[k] == pts[k..][0];
  }

  /**
   * A walk that keeps the invariant plots one pixel per major step plus the
   * final one, starts at (a, b), and ends at aEnd with the minor coordinate
   * moved by exactly the `r` steps the decision variable encodes.
   */
  lemma {:induction false} WalkEnds(a: int, b: int, aEnd: int, sa: int, sb: int, dA: int, dB: int, p: int, swap: bool, r: int)
    requires sb == 1 || sb == -1
    requires WalkInvariant(a, aEnd, sa, dA, dB, p, r)
    ensures |Walk(a, b, aEnd, sa, sb, dA, dB, p, swap)| == Dist(a, aEnd, sa) + 1
    ensures 0 <= r <= Dist(a, aEnd, sa)
    ensures Walk(a, b, aEnd, sa, sb, dA, dB, p, swap)[0] == Pt(a, b, swap)
    ensures Walk(a, b, aEnd, sa, sb, dA, dB, p, swap)[Dist(a, aEnd, sa)] == Pt(aEnd, Toward(b, r, sb), swap)
    decreases Dist(a, aEnd, sa)
  {
    if a == aEnd {
      NoStepLeft(dA, dB, p, r);
    } else {
      WalkStep(a, aEnd, sa, dA, dB, p, r);
      if p < 0 {
        WalkEnds(a + sa, b, aEnd, sa, sb, dA, dB, p + 2 * dB, swap, r);
      } else {
        WalkEnds(a + sa, b + sb, aEnd, sa, sb, dA, dB, p + 2 * dB - 2 * dA, swap, r - 1);
        assert Toward(b + sb, r - 1, sb) == Toward(b, r, sb);
      }
    }
  }

  /**
   * Every pixel of the walk lies in the box spanned by its first and last
   * pixels.
   */
  lemma {:induction false} WalkBox(w: seq<Point>, a: int, b: int, aEnd: int, sa: int, sb: int, dA: int, dB: int, p: int, swap: bool, r: int)
    requires sb == 1 || sb == -1
    requires WalkInvariant(a, aEnd, sa, dA, dB, p, r)
    requires w == Walk(a, b, aEnd, sa, sb, dA, dB, p, swap)
    ensures forall i :: 0 <= i < |w| ==>
        Between(Major(w[i], swap), a, aEnd) && Between(Minor(w[i], swap), b, Toward(b, r, sb))
    decreases Dist(a, aEnd, sa)
  {
    WalkEnds(a, b, aEnd, sa, sb, dA, dB, p, swap, r);
    if a != aEnd {
      WalkStep(a, aEnd, sa, dA, dB, p, r);
      var b' := if p < 0 then b else b + sb;
      var p' := if p < 0 then p + 2 * dB else p + 2 * dB - 2 * dA;
      var r' := if p < 0 then r else r - 1;
      var rest := Walk(a + sa, b', aEnd, sa, sb, dA, dB, p', swap);
      assert w == [Pt(a, b, swap)] + rest;
      WalkBox(rest, a + sa, b', aEnd, sa, sb, dA, dB, p', swap, r');
      WalkEnds(a + sa, b', aEnd, sa, sb, dA, dB, p', swap, r');
      assert Toward(b', r', sb) == Toward(b, r, sb);
      assert Between(a + sa, a, aEnd) && Between(b', b, Toward(b, r, sb));
      BoxCons(w, rest, swap, a, a + sa, aEnd, b, b', Toward(b, r, sb));
    }
  }

  /** A pixel at a corner of a box in front of pixels in a smaller box inside it. */
  lemma BoxCons(w: seq<Point>, rest: seq<Point>, swap: bool, a: int, a': int, aEnd: int, b: int, b': int, t: int)
    requires w == [Pt(a, b, swap)] + rest
    requires Between(a', a, aEnd) && Between(b', b, t)
    requires forall i :: 0 <= i < |rest| ==> Between(Major(rest[i], swap), a', aEnd) && Between(Minor(rest[i], swap), b', t)
    ensures forall i :: 0 <= i < |w| ==> Between(Major(w[i], swap), a, aEnd) && Between(Minor(w[i], swap), b, t)
  {
    forall i | 0 <= i < |w|
      ensures Between(Major(w[i], swap), a, aEnd) && Between(Minor(w[i], swap), b, t)
    {
      if i > 0 {
        assert w[i] == rest[i - 1];
      }
    }
  }

  /**
   * Consecutive pixels of the walk are neighbours whose major coordinates
   * differ by exactly one step.
   */
  lemma {:induction false} WalkSteps(w: seq<Point>, a: int, b: int, aEnd: int, sa: int, sb: int, dA: int, dB: int, p: int, swap: bool, r: int)
    requires sb == 1 || sb == -1
    requires WalkInvariant(a, aEnd, sa, dA, dB, p, r)
    requires w == Walk(a, b, aEnd, sa, sb, dA, dB, p, swap)
    ensures forall i :: 0 <= i < |w| - 1 ==>
        Neighbours(w[i], w[i + 1]) && Major(w[i + 1], swap) == Major(w[i], swap) + sa
    decreases Dist(a, aEnd, sa)
  {
    if a != aEnd {
      WalkStep(a, aEnd, sa, dA, dB, p, r);
      var b' := if p < 0 then b else b + sb;
      var p' := if p < 0 then p + 2 * dB else p + 2 * dB - 2 * dA;
      var r' := if p < 0 then r else r - 1;
      var rest := Walk(a + sa, b', aEnd, sa, sb, dA, dB, p', swap);
      assert w == [Pt(a, b, swap)] + rest;
      WalkSteps(rest, a + sa, b', aEnd, sa, sb, dA, dB, p', swap, r');
      WalkEnds(a + sa, b', aEnd, sa, sb, dA, dB, p', swap, r');
      forall i | 0 <= i < |w| - 1
        ensures Neighbours(w[i], w[i + 1]) && Major(w[i + 1], swap) == Major(w[i], swap) + sa
      {
        if i > 0 {
          assert w[i] == rest[i - 1] && w[i + 1] == rest[i];
        }
      }
    }
  }

  /** The endpoint differences and the invariant hold at the start of drawLine's walk. */
  lemma LineStart(x1: int, y1: int, x2: int, y2: int)
    ensures var sx, sy := Sym(x2 - x1), Sym(y2 - y1);
      var dx, dy := Abs(x2 - x1), Abs(y2 - y1);
      Toward(y1, dy, sy) == y2 && Toward(x1, dx, sx) == x2 &&
      Dist(x1, x2, sx) == dx && Dist(y1, y2, sy) == dy &&
      (dx >= dy && dx > 0 ==> WalkInvariant(x1, x2, sx, dx, dy, 2 * dy - dx, dy)) &&
      (dx < dy ==> WalkInvariant(y1, y2, sy, dy, dx, 2 * dx - dy, dx))
  {
  }

  /**
   * drawLine plots max(|dx|, |dy|) + 1 pixels, the first at (x1, y1) and
   * the last at (x2, y2).
   */
  lemma LineEnds(x1: int, y1: int, x2: int, y2: int)
    ensures var pts := LinePoints(x1, y1, x2, y2);
      |pts| == Max(Abs(x2 - x1), Abs(y2 - y1)) + 1 &&
      pts[0] == Point(x1, y1) && pts[|pts| - 1] == Point(x2, y2)
  {
    LineStart(x1, y1, x2, y2);
    var sx, sy := Sym(x2 - x1), Sym(y2 - y1);
    var dx, dy := Abs(x2 - x1), Abs(y2 - y1);
    if dx == 0 && dy == 0 {
      assert x1 == x2 && y1 == y2;
    } else if dx >= dy {
      MajorWalkEnds(x1, y1, x2, y2, false);
    } else {
      MajorWalkEnds(y1, x1, y2, x2, true);
    }
  }

  /**
   * The walk drawLine makes along its major coordinate a, from (a, b) to
   * (aEnd, bEnd), has one pixel per major step plus one and ends at the
   * end point.
   */
  lemma MajorWalkEnds(a: int, b: int, aEnd: int, bEnd: int, swap: bool)
    requires Abs(aEnd - a) >= Abs(bEnd - b) && Abs(aEnd - a) > 0
    ensures var dA, dB := Abs(aEnd - a), Abs(bEnd - b);
      var w := Walk(a, b, aEnd, Sym(aEnd - a), Sym(bEnd - b), dA, dB, 2 * dB - dA, swap);
      |w| == dA + 1 && w[0] == Pt(a, b, swap) && w[dA] == Pt(aEnd, bEnd, swap)
  {
    LineStart(a, b, aEnd, bEnd);
    var dA, dB := Abs(aEnd - a), Abs(bEnd - b);
    WalkEnds(a, b, aEnd, Sym(aEnd - a), Sym(bEnd - b), dA, dB, 2 * dB - dA, swap, dB);
  }

  /** Every pixel drawLine plots lies in the rectangle spanned by the two endpoints. */
  lemma LineBox(x1: int, y1: int, x2: int, y2: int)
    ensures var pts := LinePoints(x1, y1, x2, y2);
      forall i :: 0 <= i < |pts| ==> Between(pts[i].x, x1, x2) && Between(pts[i].y, y1, y2)
  {
    LineStart(x1, y1, x2, y2);
    var sx, sy := Sym(x2 - x1), Sym(y2 - y1);
    var dx, dy := Abs(x2 - x1), Abs(y2 - y1);
    if dx == 0 && dy == 0 {
      assert x1 == x2 && y1 == y2;
    } else if dx >= dy {
      var w := Walk(x1, y1, x2, sx, sy, dx, dy, 2 * dy - dx, false);
      assert LinePoints(x1, y1, x2, y2) == w;
      WalkBox(w, x1, y1, x2, sx, sy, dx, dy, 2 * dy - dx, false, dy);
      assert Toward(y1, dy, sy) == y2;
      assert forall i :: 0 <= i < |w| ==> Major(w[i], false) == w[i].x && Minor(w[i], false) == w[i].y;
    } else {
      var w := Walk(y1, x1, y2, sy, sx, dy, dx, 2 * dx - dy, true);
      assert LinePoints(x1, y1, x2, y2) == w;
      WalkBox(w, y1, x1, y2, sy, sx, dy, dx, 2 * dx - dy, true, dx);
      assert Toward(x1, dx, sx) == x2;
      forall i | 0 <= i < |w|
        ensures Between(w[i].x, x1, x2) && Between(w[i].y, y1, y2)
      {
        assert Between(Major(w[i], true), y1, y2);
        assert Between(Minor(w[i], true), x1, Toward(x1, dx, sx));
      }
    }
  }

  /** Consecutive pixels drawLine plots are distinct neighbours. */
  lemma LineNeighbours(x1: int, y1: int, x2: int, y2: int)
    ensures var pts := LinePoints(x1, y1, x2, y2);
      forall i :: 0 <= i < |pts| - 1 ==> Neighbours(pts[i], pts[i + 1])
  {
    LineStart(x1, y1, x2, y2);
    var sx, sy := Sym(x2 - x1), Sym(y2 - y1);
    var dx, dy := Abs(x2 - x1), Abs(y2 - y1);
    if dx == 0 && dy == 0 {
      assert x1 == x2 && y1 == y2;
    } else if dx >= dy {
      var w := Walk(x1, y1, x2, sx, sy, dx, dy, 2 * dy - dx, false);
      assert LinePoints(x1, y1, x2, y2) == w;
      WalkSteps(w, x1, y1, x2, sx, sy, dx, dy, 2 * dy - dx, false, dy);
    } else {
      var w := Walk(y1, x1, y2, sy, sx, dy, dx, 2 * dx - dy, true);
      assert LinePoints(x1, y1, x2, y2) == w;
      WalkSteps(w, y1, x1, y2, sy, sx, dy, dx, 2 * dx - dy, true, dx);
    }
  }

  /** A line between two on-screen endpoints stays on screen. */
  lemma LineOnScreen(x1: int, y1: int, x2: int, y2: int)
    requires OnScreen(Point(x1, y1)) && OnScreen(Point(x2, y2))
    ensures forall q :: q in LinePoints(x1, y1, x2, y2) ==> OnScreen(q)
  {
    LineBox(x1, y1, x2, y2);
  }

  /** A line from a point to itself is that one pixel. */
  lemma LineSinglePoint(x: int, y: int)
    ensures LinePoints(x, y, x, y) == [Point(x, y)]
  {
  }

  /**
   * The pixels drawVerticalLine plots in column x: from y1 towards y2, one
   * row at a time, both ends included.
   */
  function VerticalPoints(x: int, y1: int, y2: int): seq<Point>
  {
    if y2 > y1 then seq(y2 - y1 + 1, i => Point(x, y1 + i))
    else seq(y1 - y2 + 1, i => Point(x, y1 - i))
  }

  /** The pixels drawHorizontalLine plots in row y: from x1 towards x2. */
  function HorizontalPoints(y: int, x1: int, x2: int): seq<Point>
  {
    if x2 > x1 then seq(x2 - x1 + 1, i => Point(x1 + i, y))
    else seq(x1 - x2 + 1, i => Point(x1 - i, y))
  }

  /**
   * drawVerticalLine plots |y2 - y1| + 1 pixels, starting at y1, and a
   * pixel is plotted exactly when it is in column x between y1 and y2;
   * so swapping the endpoints plots the same pixels.
   */
  lemma VerticalPointsCover(x: int, y1: int, y2: int)
    ensures |VerticalPoints(x, y1, y2)| == Abs(y2 - y1) + 1
    ensures VerticalPoints(x, y1, y2)[0] == Point(x, y1)
    ensures forall q :: q in VerticalPoints(x, y1, y2) <==> q.x == x && Between(q.y, y1, y2)
  {
    var pts := VerticalPoints(x, y1, y2);
    forall q: Point | q.x == x && Between(q.y, y1, y2)
      ensures q in pts
    {
      var i := if y2 > y1 then q.y - y1 else y1 - q.y;
      assert pts[i] == q;
    }
  }

  /** drawHorizontalLine plots exactly the pixels of row y between x1 and x2. */
  lemma HorizontalPointsCover(y: int, x1: int, x2: int)
    ensures |HorizontalPoints(y, x1, x2)| == Abs(x2 - x1) + 1
    ensures HorizontalPoints(y, x1, x2)[0] == Point(x1, y)
    ensures forall q :: q in HorizontalPoints(y, x1, x2) <==> q.y == y && Between(q.x, x1, x2)
  {
    var pts := HorizontalPoints(y, x1, x2);
    forall q: Point | q.y == y && Between(q.x, x1, x2)
      ensures q in pts
    {
      var i := if x2 > x1 then q.x - x1 else x1 - q.x;
      assert pts[i] == q;
    }
  }

  /** Pixel i of drawVerticalLine: i rows from y1, towards y2. */
  lemma VerticalPointAt(x: int, y1: int, y2: int, i: int)
    requires 0 <= i <= Abs(y2 - y1)
    ensures |VerticalPoints(x, y1, y2)| == Abs(y2 - y1) + 1
    ensures VerticalPoints(x, y1, y2)[i] == Point(x, if y2 > y1 then y1 + i else y1 - i)
  {
  }

  /** With both ends on screen, every pixel of drawVerticalLine is. */
  lemma VerticalOnScreen(x: int, y1: int, y2: int)
    requires OnScreen(Point(x, y1)) && OnScreen(Point(x, y2))
    ensures forall q :: q in VerticalPoints(x, y1, y2) ==> OnScreen(q)
  {
    VerticalPointsCover(x, y1, y2);
  }

  /** Pixel i of drawHorizontalLine: i columns from x1, towards x2. */
  lemma HorizontalPointAt(y: int, x1: int, x2: int, i: int)
    requires 0 <= i <= Abs(x2 - x1)
    ensures |HorizontalPoints(y, x1, x2)| == Abs(x2 - x1) + 1
    ensures HorizontalPoints(y, x1, x2)[i] == Point(if x2 > x1 then x1 + i else x1 - i, y)
  {
  }

  /** With both ends on screen, every pixel of drawHorizontalLine is. */
  lemma HorizontalOnScreen(y: int, x1: int, x2: int)
    requires OnScreen(Point(x1, y)) && OnScreen(Point(x2, y))
    ensures forall q :: q in HorizontalPoints(y, x1, x2) ==> OnScreen(q)
  {
    HorizontalPointsCover(y, x1, x2);
  }

  /** `[q]` when the guard holds, nothing otherwise. */
  function Guarded(g: bool, q: Point): seq<Point>
  {
    if g then [q] else []
  }

  /**
   * The pixels one pass of drawCircle's loop plots for the octant point
   * (x, y), each behind the bound check the driver makes for it.
   */
  function OctantPoints(cx: int, cy: int, x: int, y: int): seq<Point>
  {
    Guarded(cx + y <= 127 && cy - x >= 0, Point(cx + y, cy - x)) +
    Guarded(cx + x <= 127 && cy - y >= 0, Point(cx + x, cy - y)) +
    Guarded(cx - x >= 0 && cy - y >= 0, Point(cx - x, cy - y)) +
    Guarded(cx - y >= 0 && cy - x >= 0, Point(cx - y, cy - x)) +
    Guarded(cx - y >= 0 && cy + x <= 63, Point(cx - y, cy + x)) +
    Guarded(cx - x >= 0 && cy + y <= 63, Point(cx - x, cy + y)) +
    Guarded(cx + x <= 127 && cy + y <= 63, Point(cx + x, cy + y)) +
    Guarded(cx + y <= 127 && cy + x <= 63, Point(cx + y, cy + x))
  }

  /** The eight reflections of (x, y) about the centre, in the driver's octant order. */
  function Reflections(cx: int, cy: int, x: int, y: int): seq<Point>
  {
    [Point(cx + y, cy - x), Point(cx + x, cy - y), Point(cx - x, cy - y), Point(cx - y, cy - x),
     Point(cx - y, cy + x), Point(cx - x, cy + y), Point(cx + x, cy + y), Point(cx + y, cy + x)]
  }

  /** The on-screen points among the first `n` of `ps`, in order. */
  function VisibleUpTo(ps: seq<Point>, n: nat): seq<Point>
    requires n <= |ps|
  {
    if n == 0 then [] else VisibleUpTo(ps, n - 1) + Guarded(OnScreen(ps[n - 1]), ps[n - 1])
  }

  /** The on-screen points of `ps`, in order. */
  function Visible(ps: seq<Point>): seq<Point>
  {
    VisibleUpTo(ps, |ps|)
  }

  /** Visible keeps exactly the on-screen members of its argument. */
  lemma {:induction false} VisibleUpToMembers(ps: seq<Point>, n: nat)
    requires n <= |ps|
    ensures forall q :: q in VisibleUpTo(ps, n) <==> q in ps[..n] && OnScreen(q)
  {
    if n > 0 {
      VisibleUpToMembers(ps, n - 1);
      assert ps[..n] == ps[..n - 1] + [ps[n - 1]];
    }
  }

  lemma VisibleMembers(ps: seq<Point>)
    ensures forall q :: q in Visible(ps) <==> q in ps && OnScreen(q)
  {
    VisibleUpToMembers(ps, |ps|);
    assert ps[..|ps|] == ps;
  }

  /**
   * The driver's one-sided bound checks are exactly the on-screen test:
   * with the centre on screen and x, y >= 0, the loop plots the visible
   * reflections of (x, y), in order.
   */
  lemma OctantPointsVisible(cx: int, cy: int, x: int, y: int)
    requires OnScreen(Point(cx, cy)) && x >= 0 && y >= 0
    ensures OctantPoints(cx, cy, x, y) == Visible(Reflections(cx, cy, x, y))
  {
    var rs := Reflections(cx, cy, x, y);
    VisibleEight(rs);
    assert Guarded(cx + y <= 127 && cy - x >= 0, rs[0]) == Guarded(OnScreen(rs[0]), rs[0]);
    assert Guarded(cx + x <= 127 && cy - y >= 0, rs[1]) == Guarded(OnScreen(rs[1]), rs[1]);
    assert Guarded(cx - x >= 0 && cy - y >= 0, rs[2]) == Guarded(OnScreen(rs[2]), rs[2]);
    assert Guarded(cx - y >= 0 && cy - x >= 0, rs[3]) == Guarded(OnScreen(rs[3]), rs[3]);
    assert Guarded(cx - y >= 0 && cy + x <= 63, rs[4]) == Guarded(OnScreen(rs[4]), rs[4]);
    assert Guarded(cx - x >= 0 && cy + y <= 63, rs[5]) == Guarded(OnScreen(rs[5]), rs[5]);
    assert Guarded(cx + x <= 127 && cy + y <= 63, rs[6]) == Guarded(OnScreen(rs[6]), rs[6]);
    assert Guarded(cx + y <= 127 && cy + x <= 63, rs[7]) == Guarded(OnScreen(rs[7]), rs[7]);
  }

  /** The visible points among eight, one on-screen test each. */
  lemma VisibleEight(rs: seq<Point>)
    requires |rs| == 8
    ensures Visible(rs) ==
      Guarded(OnScreen(rs[0]), rs[0]) + Guarded(OnScreen(rs[1]), rs[1]) +
      Guarded(OnScreen(rs[2]), rs[2]) + Guarded(OnScreen(rs[3]), rs[3]) +
      Guarded(OnScreen(rs[4]), rs[4]) + Guarded(OnScreen(rs[5]), rs[5]) +
      Guarded(OnScreen(rs[6]), rs[6]) + Guarded(OnScreen(rs[7]), rs[7])
  {
    assert VisibleUpTo(rs, 1) == [] + Guarded(OnScreen(rs[0]), rs[0]);
    assert [] + Guarded(OnScreen(rs[0]), rs[0]) == Guarded(OnScreen(rs[0]), rs[0]);
    assert VisibleUpTo(rs, 2) == VisibleUpTo(rs, 1) + Guarded(OnScreen(rs[1]), rs[1]);
    assert VisibleUpTo(rs, 3) == VisibleUpTo(rs, 2) + Guarded(OnScreen(rs[2]), rs[2]);
    assert VisibleUpTo(rs, 4) == VisibleUpTo(rs, 3) + Guarded(OnScreen(rs[3]), rs[3]);
    assert VisibleUpTo(rs, 5) == VisibleUpTo(rs, 4) + Guarded(OnScreen(rs[4]), rs[4]);
    assert VisibleUpTo(rs, 6) == VisibleUpTo(rs, 5) + Guarded(OnScreen(rs[5]), rs[5]);
    assert VisibleUpTo(rs, 7) == VisibleUpTo(rs, 6) + Guarded(OnScreen(rs[6]), rs[6]);
  }

  /** Each pixel one pass of the loop plots is on screen. */
  lemma OctantPointsOnScreen(cx: int, cy: int, x: int, y: int)
    requires OnScreen(Point(cx, cy)) && x >= 0 && y >= 0
    ensures forall q :: q in OctantPoints(cx, cy, x, y) ==> OnScreen(q)
  {
    OctantPointsVisible(cx, cy, x, y);
    VisibleMembers(Reflections(cx, cy, x, y));
  }

  /**
   * The octant pixels drawCircle's loop plots from (x0, y0) with decision
   * value d0: while x0 < y0, step x0 (and y0 when d0 was not negative),
   * update d0 with int8_t wrap-around, and plot the octant points.
   */
  function CircleLoop(cx: int, cy: int, x0: int, y0: int, d0: int): seq<Point>
    decreases if x0 < y0 then y0 - x0 else 0
  {
    if x0 >= y0 then []
    else
      var x := x0 + 1;
      var y := if d0 < 0 then y0 else y0 - 1;
      var d := if d0 < 0 then Int8(d0 + 2 * x + 1) else Int8(d0 + 2 * (x - y) + 1);
      OctantPoints(cx, cy, x, y) + CircleLoop(cx, cy, x, y, d)
  }

  /**
   * One pass of drawCircle's loop against the pixel list: from (x0, y0, d0)
   * the body computes (x, y, d), and the pass plots the octant points of
   * (x, y) before the remaining passes.
   */
  lemma CircleLoopStep(cx: int, cy: int, x0: int, y0: int, d0: int, x: int, y: int, d: int)
    requires x0 < y0 && x == x0 + 1
    requires d0 < 0 ==> y == y0 && d == Int8(d0 + 2 * x + 1)
    requires d0 >= 0 ==> y == y0 - 1 && d == Int8(d0 + 2 * (x - y) + 1)
    ensures CircleLoop(cx, cy, x0, y0, d0) == OctantPoints(cx, cy, x, y) + CircleLoop(cx, cy, x, y, d)
  {
  }

  /** The octant points followed by `tail`, regrouped so that each guarded point comes off the front. */
  lemma OctantPointsSplit(cx: int, cy: int, x: int, y: int, tail: seq<Point>)
    ensures OctantPoints(cx, cy, x, y) + tail ==
      Guarded(cx + y <= 127 && cy - x >= 0, Point(cx + y, cy - x)) + (
      Guarded(cx + x <= 127 && cy - y >= 0, Point(cx + x, cy - y)) + (
      Guarded(cx - x >= 0 && cy - y >= 0, Point(cx - x, cy - y)) + (
      Guarded(cx - y >= 0 && cy - x >= 0, Point(cx - y, cy - x)) + (
      Guarded(cx - y >= 0 && cy + x <= 63, Point(cx - y, cy + x)) + (
      Guarded(cx - x >= 0 && cy + y <= 63, Point(cx - x, cy + y)) + (
      Guarded(cx + x <= 127 && cy + y <= 63, Point(cx + x, cy + y)) + (
      Guarded(cx + y <= 127 && cy + x <= 63, Point(cx + y, cy + x)) + tail)))))))
  {
    var g0 := Guarded(cx + y <= 127 && cy - x >= 0, Point(cx + y, cy - x));
    var g1 := Guarded(cx + x <= 127 && cy - y >= 0, Point(cx + x, cy - y));
    var g2 := Guarded(cx - x >= 0 && cy - y >= 0, Point(cx - x, cy - y));
    var g3 := Guarded(cx - y >= 0 && cy - x >= 0, Point(cx - y, cy - x));
    var g4 := Guarded(cx - y >= 0 && cy + x <= 63, Point(cx - y, cy + x));
    var g5 := Guarded(cx - x >= 0 && cy + y <= 63, Point(cx - x, cy + y));
    var g6 := Guarded(cx + x <= 127 && cy + y <= 63, Point(cx + x, cy + y));
    var g7 := Guarded(cx + y <= 127 && cy + x <= 63, Point(cx + y, cy + x));
    AppendAssoc(g0 + g1 + g2 + g3 + g4 + g5 + g6, g7, tail);
    AppendAssoc(g0 + g1 + g2 + g3 + g4 + g5, g6, g7 + tail);
    AppendAssoc(g0 + g1 + g2 + g3 + g4, g5, g6 + (g7 + tail));
    AppendAssoc(g0 + g1 + g2 + g3, g4, g5 + (g6 + (g7 + tail)));
    AppendAssoc(g0 + g1 + g2, g3, g4 + (g5 + (g6 + (g7 + tail))));
    AppendAssoc(g0 + g1, g2, g3 + (g4 + (g5 + (g6 + (g7 + tail)))));
    AppendAssoc(g0, g1, g2 + (g3 + (g4 + (g5 + (g6 + (g7 + tail))))));
  }

  /** The four axis pixels drawn after the loop, each behind its bound check. */
  function AxisPoints(cx: int, cy: int, radius: int): seq<Point>
  {
    Guarded(cx + radius <= 127, Point(cx + radius, cy)) +
    Guarded(cx - radius >= 0, Point(cx - radius, cy)) +
    Guarded(cy + radius <= 63, Point(cx, cy + radius)) +
    Guarded(cy - radius >= 0, Point(cx, cy - radius))
  }

  /** The axis points regrouped so that each guarded point comes off the front. */
  lemma AxisPointsSplit(cx: int, cy: int, radius: int)
    ensures AxisPoints(cx, cy, radius) ==
      Guarded(cx + radius <= 127, Point(cx + radius, cy)) + (
      Guarded(cx - radius >= 0, Point(cx - radius, cy)) + (
      Guarded(cy + radius <= 63, Point(cx, cy + radius)) + (
      Guarded(cy - radius >= 0, Point(cx, cy - radius)) + [])))
  {
    var g0 := Guarded(cx + radius <= 127, Point(cx + radius, cy));
    var g1 := Guarded(cx - radius >= 0, Point(cx - radius, cy));
    var g2 := Guarded(cy + radius <= 63, Point(cx, cy + radius));
    var g3 := Guarded(cy - radius >= 0, Point(cx, cy - radius));
    assert g3 + [] == g3;
    AppendAssoc(g0 + g1, g2, g3);
    AppendAssoc(g0, g1, g2 + g3);
  }

  /**
   * All pixels drawCircle plots, in order: the loop starts at x0 = 0,
   * y0 = radius and d0 = 1 - radius, both taken as int8_t.
   */
  function CirclePoints(cx: int, cy: int, radius: int): seq<Point>
  {
    CircleLoop(cx, cy, 0, Int8(radius), Int8(1 - radius)) + AxisPoints(cx, cy, radius)
  }

  /** Every pixel the loop plots is a visible reflection of a point with x, y >= 0. */
  lemma {:induction false} CircleLoopOnScreen(cx: int, cy: int, x0: int, y0: int, d0: int)
    requires OnScreen(Point(cx, cy)) && x0 >= 0
    ensures forall q :: q in CircleLoop(cx, cy, x0, y0, d0) ==> OnScreen(q)
    decreases if x0 < y0 then y0 - x0 else 0
  {
    if x0 < y0 {
      var x := x0 + 1;
      var y := if d0 < 0 then y0 else y0 - 1;
      var d := if d0 < 0 then Int8(d0 + 2 * x + 1) else Int8(d0 + 2 * (x - y) + 1);
      CircleLoopStep(cx, cy, x0, y0, d0, x, y, d);
      OctantPointsOnScreen(cx, cy, x, y);
      CircleLoopOnScreen(cx, cy, x, y, d);
      OnScreenAppend(OctantPoints(cx, cy, x, y), CircleLoop(cx, cy, x, y, d));
    }
  }

  /** Two lists of on-screen pixels make one. */
  lemma OnScreenAppend(a: seq<Point>, b: seq<Point>)
    requires forall q :: q in a ==> OnScreen(q)
    requires forall q :: q in b ==> OnScreen(q)
    ensures forall q :: q in a + b ==> OnScreen(q)
  {
  }

  /**
   * The axis checks are the on-screen test too: the axis pixels drawn are
   * the visible ones among the four points at distance `radius`.
   */
  lemma AxisPointsVisible(cx: int, cy: int, radius: int)
    requires OnScreen(Point(cx, cy)) && radius >= 0
    ensures AxisPoints(cx, cy, radius) ==
      Visible([Point(cx + radius, cy), Point(cx - radius, cy), Point(cx, cy + radius), Point(cx, cy - radius)])
  {
    var rs := [Point(cx + radius, cy), Point(cx - radius, cy), Point(cx, cy + radius), Point(cx, cy - radius)];
    assert VisibleUpTo(rs, 1) == [] + Guarded(cx + radius <= 127, rs[0]);
    assert [] + Guarded(cx + radius <= 127, rs[0]) == Guarded(cx + radius <= 127, rs[0]);
    assert VisibleUpTo(rs, 2) == VisibleUpTo(rs, 1) + Guarded(cx - radius >= 0, rs[1]);
    assert VisibleUpTo(rs, 3) == VisibleUpTo(rs, 2) + Guarded(cy + radius <= 63, rs[2]);
  }

  /** With its centre on screen, drawCircle never plots off screen. */
  lemma CircleOnScreen(cx: int, cy: int, radius: int)
    requires OnScreen(Point(cx, cy)) && radius >= 0
    ensures forall q :: q in CirclePoints(cx, cy, radius) ==> OnScreen(q)
  {
    CircleLoopOnScreen(cx, cy, 0, Int8(radius), Int8(1 - radius));
    AxisPointsVisible(cx, cy, radius);
    VisibleMembers([Point(cx + radius, cy), Point(cx - radius, cy), Point(cx, cy + radius), Point(cx, cy - radius)]);
  }

  /** A circle of radius 0 plots its centre four times, once per axis check. */
  lemma CircleRadiusZero(cx: int, cy: int)
    requires OnScreen(Point(cx, cy))
    ensures CirclePoints(cx, cy, 0) == [Point(cx, cy), Point(cx, cy), Point(cx, cy), Point(cx, cy)]
  {
  }

  /**
   * A radius of 128 or more is negative as int8_t, so the loop plots
   * nothing and only the axis pixels that fit are drawn.
   */
  lemma CircleLargeRadius(cx: int, cy: int, radius: int)
    requires 128 <= radius < 256
    ensures CirclePoints(cx, cy, radius) == AxisPoints(cx, cy, radius)
  {
  }
}
