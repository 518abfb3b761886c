/**
 * The closest point of one border edge to a query point (Border.closestPoint).
 * The edge runs from `a` to `b`; the perpendicular foot through `p` is
 * computed, rounded to integers, and kept when it lies in the box spanned by
 * the edge; otherwise an endpoint is returned.
 */
module Edges {
  import opened Geometry
  import opened JavaMath

  /** `lo <= v <= hi` in either order of the two bounds. */
  predicate Between(v: int, a: int, b: int)
  {
    (a <= v <= b) || (b <= v <= a)
  }

  /** The axis-aligned box spanned by the edge. */
  predicate InEdgeBox(q: Point, a: Point, b: Point)
  {
    Between(q.x, a.x, b.x) && Between(q.y, a.y, b.y)
  }

  /** The foot of the perpendicular from p to the line through a and b: exact for
      vertical and horizontal edges, otherwise from the slope-intercept forms
      of the line and of its perpendicular, rounded half up. */
  function Foot(a: Point, b: Point, p: Point): Point
  {
    if a.x == b.x then Point(a.x, p.y)
    else if a.y == b.y then Point(p.x, a.y)
    else
      var m1 := (b.y - a.y) as real / (b.x - a.x) as real;
      var c1 := a.y as real - m1 * a.x as real;
      var m2 := -1.0 / m1;
      var c2 := p.y as real - m2 * p.x as real;
      assert m1 - m2 != 0.0 by { SlopeGap(m1); }
      var fx := (c2 - c1) / (m1 - m2);
      var fy := m1 * fx + c1;
      Point(RoundHalfUp(fx), RoundHalfUp(fy))
  }

  /** Perpendicular slopes never coincide. */
  lemma SlopeGap(m: real)
    requires m != 0.0
    ensures m - (-1.0 / m) != 0.0
  {
    if m > 0.0 {
      assert -1.0 / m < 0.0;
    } else {
      assert -1.0 / m > 0.0;
    }
  }

  /** closestPoint as the source writes it: the fallback compares the first
      endpoint with itself, so it always returns `a`. */
  function ClosestPointAsWritten(a: Point, b: Point, p: Point): Point
  {
    var f := Foot(a, b, p);
    if InEdgeBox(f, a, b) then f
    else
      var start := a;
      var end := a;
      if SqDist(p, start) < SqDist(p, end) then start else end
  }

  /** closestPoint as documented: the fallback returns the nearer endpoint,
      the second one on a tie. */
  function ClosestPoint(a: Point, b: Point, p: Point): Point
  {
    var f := Foot(a, b, p);
    if InEdgeBox(f, a, b) then f
    else if SqDist(p, a) < SqDist(p, b) then a else b
  }

  /** The closest point always lies in the box spanned by the edge. */
  lemma ClosestPointInBox(a: Point, b: Point, p: Point)
    ensures InEdgeBox(ClosestPoint(a, b, p), a, b)
  {
  }

  /** The same holds of closestPoint as written, whose fallback is an endpoint too. */
  lemma ClosestPointAsWrittenInBox(a: Point, b: Point, p: Point)
    ensures InEdgeBox(ClosestPointAsWritten(a, b, p), a, b)
  {
  }

  lemma SquareMono(u: int, v: int)
    requires 0 <= u <= v
    ensures u * u <= v * v
  {
  }

  /** One coordinate of an axis-aligned edge: moving v into [lo,hi] by the
      nearer end never does worse than any other value in the range. */
  lemma NearestInRange(v: int, lo: int, hi: int, w: int)
    requires lo <= w <= hi
    ensures v < lo ==> (lo - v) * (lo - v) <= (w - v) * (w - v)
    ensures v > hi ==> (v - hi) * (v - hi) <= (v - w) * (v - w)
    ensures (w - v) * (w - v) == (v - w) * (v - w)
  {
    if v < lo {
      SquareMono(lo - v, w - v);
    }
    if v > hi {
      SquareMono(v - hi, v - w);
    }
  }

  /** The squared distance as the sum of its two non-negative squares. */
  lemma SqDistSplit(q: Point, p: Point)
    ensures SqDist(q, p) == (q.x - p.x) * (q.x - p.x) + (q.y - p.y) * (q.y - p.y)
    ensures (q.x - p.x) * (q.x - p.x) >= 0 && (q.y - p.y) * (q.y - p.y) >= 0
  {
  }

  /** A vertical edge: no point of it is closer to p than the result. */
  lemma NearestOnVerticalEdge(a: Point, b: Point, p: Point, q: Point)
    requires a.x == b.x && InEdgeBox(q, a, b)
    ensures SqDist(ClosestPoint(a, b, p), p) <= SqDist(q, p)
  {
    var r := ClosestPoint(a, b, p);
    var lo := if a.y <= b.y then a.y else b.y;
    var hi := if a.y <= b.y then b.y else a.y;
    var e := if a.y <= b.y then a else b;
    var f := if a.y <= b.y then b else a;
    assert q.x == a.x && lo <= q.y <= hi;
    SqDistSplit(q, p);
    SqDistSplit(r, p);
    SqDistSplit(e, p);
    SqDistSplit(f, p);
    NearestInRange(p.y, lo, hi, q.y);
    if lo <= p.y <= hi {
      assert r == Point(a.x, p.y);
    } else if p.y < lo {
      assert SqDist(r, p) <= SqDist(e, p);
    } else {
      assert SqDist(r, p) <= SqDist(f, p);
    }
  }

  /** A horizontal edge: no point of it is closer to p than the result. */
  lemma NearestOnHorizontalEdge(a: Point, b: Point, p: Point, q: Point)
    requires a.x != b.x && a.y == b.y && InEdgeBox(q, a, b)
    ensures SqDist(ClosestPoint(a, b, p), p) <= SqDist(q, p)
  {
    var r := ClosestPoint(a, b, p);
    var lo := if a.x <= b.x then a.x else b.x;
    var hi := if a.x <= b.x then b.x else a.x;
    var e := if a.x <= b.x then a else b;
    var f := if a.x <= b.x then b else a;
    assert q.y == a.y && lo <= q.x <= hi;
    SqDistSplit(q, p);
    SqDistSplit(r, p);
    SqDistSplit(e, p);
    SqDistSplit(f, p);
    NearestInRange(p.x, lo, hi, q.x);
    if lo <= p.x <= hi {
      assert r == Point(p.x, a.y);
    } else if p.x < lo {
      assert SqDist(r, p) <= SqDist(e, p);
    } else {
      assert SqDist(r, p) <= SqDist(f, p);
    }
  }

  /** On a vertical or horizontal edge the result is a nearest lattice point of
      the edge: no point of the edge is closer to p. */
  lemma ClosestPointNearestOnAxisEdge(a: Point, b: Point, p: Point, q: Point)
    requires a.x == b.x || a.y == b.y
    requires InEdgeBox(q, a, b)
    ensures SqDist(ClosestPoint(a, b, p), p) <= SqDist(q, p)
  {
    if a.x == b.x {
      NearestOnVerticalEdge(a, b, p, q);
    } else {
      NearestOnHorizontalEdge(a, b, p, q);
    }
  }

  /** Whenever the foot falls outside the edge, the source returns the first
      endpoint however far it is. */
  lemma ClosestPointAsWrittenFallback(a: Point, b: Point, p: Point)
    requires !InEdgeBox(Foot(a, b, p), a, b)
    ensures ClosestPointAsWritten(a, b, p) == a
    ensures ClosestPoint(a, b, p) == (if SqDist(p, a) < SqDist(p, b) then a else b)
  {
  }

  /** Finding, concrete: for the edge (0,0)-(10,0) and the point (20,0) the
      source answers (0,0), at squared distance 400, although the other
      endpoint (10,0) is only at squared distance 100. */
  lemma ClosestPointAsWrittenMissesEndpoint()
    ensures ClosestPointAsWritten(Point(0, 0), Point(10, 0), Point(20, 0)) == Point(0, 0)
    ensures SqDist(ClosestPointAsWritten(Point(0, 0), Point(10, 0), Point(20, 0)), Point(20, 0)) == 400
    ensures ClosestPoint(Point(0, 0), Point(10, 0), Point(20, 0)) == Point(10, 0)
  {
    assert Foot(Point(0, 0), Point(10, 0), Point(20, 0)) == Point(20, 0);
  }
}
