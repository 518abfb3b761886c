/**
 * Integer points, squared distances and the bounding rectangle of a vertex
 * list, standing in for java.awt.Point and Polygon.getBounds.
 */
module Geometry {

  datatype Point = Point(x: int, y: int)

  /** The square of Point.distance. Distances are only ever compared with each
      other, and squaring preserves their order. */
  function SqDist(p: Point, q: Point): (d: int)
    ensures d >= 0
    ensures d == 0 <==> p == q
  {
    (p.x - q.x) * (p.x - q.x) + (p.y - q.y) * (p.y - q.y)
  }

  /** java.awt.Rectangle: top-left corner, width and height. */
  datatype Rect = Rect(x: int, y: int, width: int, height: int)

  function MinX(vs: seq<Point>): (m: int)
    requires |vs| > 0
    ensures forall i :: 0 <= i < |vs| ==> m <= vs[i].x
    ensures exists i :: 0 <= i < |vs| && m == vs[i].x
  {
    if |vs| == 1 then vs[0].x
    else
      var m' := MinX(vs[1..]);
      assert forall i :: 1 <= i < |vs| ==> vs[i] == vs[1..][i - 1];
      if vs[0].x <= m' then vs[0].x else m'
  }

  function MaxX(vs: seq<Point>): (m: int)
    requires |vs| > 0
    ensures forall i :: 0 <= i < |vs| ==> vs[i].x <= m
    ensures exists i :: 0 <= i < |vs| && m == vs[i].x
  {
    if |vs| == 1 then vs[0].x
    else
      var m' := MaxX(vs[1..]);
      assert forall i :: 1 <= i < |vs| ==> vs[i] == vs[1..][i - 1];
      if vs[0].x >= m' then vs[0].x else m'
  }

  function MinY(vs: seq<Point>): (m: int)
    requires |vs| > 0
    ensures forall i :: 0 <= i < |vs| ==> m <= vs[i].y
    ensures exists i :: 0 <= i < |vs| && m == vs[i].y
  {
    if |vs| == 1 then vs[0].y
    else
      var m' := MinY(vs[1..]);
      assert forall i :: 1 <= i < |vs| ==> vs[i] == vs[1..][i - 1];
      if vs[0].y <= m' then vs[0].y else m'
  }

  function MaxY(vs: seq<Point>): (m: int)
    requires |vs| > 0
    ensures forall i :: 0 <= i < |vs| ==> vs[i].y <= m
    ensures exists i :: 0 <= i < |vs| && m == vs[i].y
  {
    if |vs| == 1 then vs[0].y
    else
      var m' := MaxY(vs[1..]);
      assert forall i :: 1 <= i < |vs| ==> vs[i] == vs[1..][i - 1];
      if vs[0].y >= m' then vs[0].y else m'
  }

  /** Polygon.getBounds: the smallest rectangle holding every vertex; each
      of its four sides passes through a vertex. */
  function Bounds(vs: seq<Point>): (r: Rect)
    requires |vs| > 0
    ensures r.width >= 0 && r.height >= 0
    ensures forall i :: 0 <= i < |vs| ==>
      r.x <= vs[i].x <= r.x + r.width && r.y <= vs[i].y <= r.y + r.height
    ensures exists i :: 0 <= i < |vs| && vs[i].x == r.x
    ensures exists i :: 0 <= i < |vs| && vs[i].x == r.x + r.width
    ensures exists i :: 0 <= i < |vs| && vs[i].y == r.y
    ensures exists i :: 0 <= i < |vs| && vs[i].y == r.y + r.height
  {
    Rect(MinX(vs), MinY(vs), MaxX(vs) - MinX(vs), MaxY(vs) - MinY(vs))
  }

  /** No rectangle holding every vertex is smaller than the bounds. */
  lemma BoundsSmallest(vs: seq<Point>, b: Rect)
    requires |vs| > 0
    requires forall i :: 0 <= i < |vs| ==> b.x <= vs[i].x <= b.x + b.width && b.y <= vs[i].y <= b.y + b.height
    ensures b.x <= Bounds(vs).x && Bounds(vs).x + Bounds(vs).width <= b.x + b.width
    ensures b.y <= Bounds(vs).y && Bounds(vs).y + Bounds(vs).height <= b.y + b.height
  {
    var r := Bounds(vs);
    var i0 :| 0 <= i0 < |vs| && vs[i0].x == r.x;
    var i1 :| 0 <= i1 < |vs| && vs[i1].x == r.x + r.width;
    var j0 :| 0 <= j0 < |vs| && vs[j0].y == r.y;
    var j1 :| 0 <= j1 < |vs| && vs[j1].y == r.y + r.height;
  }

  /** A box holding every vertex, each of whose sides passes through a
      vertex, is the bounds. */
  lemma BoundsExact(vs: seq<Point>, b: Rect, i0: int, i1: int, j0: int, j1: int)
    requires 0 <= i0 < |vs| && 0 <= i1 < |vs| && 0 <= j0 < |vs| && 0 <= j1 < |vs|
    requires forall i :: 0 <= i < |vs| ==> b.x <= vs[i].x <= b.x + b.width && b.y <= vs[i].y <= b.y + b.height
    requires vs[i0].x == b.x && vs[i1].x == b.x + b.width && vs[j0].y == b.y && vs[j1].y == b.y + b.height
    ensures Bounds(vs) == b
  {
    BoundsSmallest(vs, b);
  }

  /** Polygon.translate: every vertex moved by the same delta. */
  function Translated(vs: seq<Point>, dx: int, dy: int): (r: seq<Point>)
    ensures |r| == |vs|
    ensures forall i :: 0 <= i < |vs| ==> r[i] == Point(vs[i].x + dx, vs[i].y + dy)
  {
    seq(|vs|, i requires 0 <= i < |vs| => Point(vs[i].x + dx, vs[i].y + dy))
  }
}
