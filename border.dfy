/**
 * Border (Border.java): a polygon of at least three vertices whose points must
 * lie in [0,maxX] x [0,maxY] and, while the grid is active, on the grid.
 *
 * java.awt.Polygon keeps its vertices in two arrays that may be longer than
 * npoints: Polygon.addPoint grows them in powers of two and pads with (0,0).
 * `slots` is those arrays zipped; the vertices are its first npoints entries.
 * Several operations of the source iterate over the whole arrays, spare slots
 * included, and the model does the same.
 */
module Borders {
  import opened Geometry
  import opened JavaMath
  import opened Snapping
  import opened Edges
  import opened Outcomes

  /** Polygon.MIN_LENGTH: the smallest array length after growth. */
  const MinLength := 4

  /** Integer.highestOneBit on a positive int: the largest power of two not above m. */
  function HighestOneBit(m: int): (r: int)
    requires m >= 1
    ensures 1 <= r <= m < 2 * r
  {
    if m == 1 then 1 else 2 * HighestOneBit(m / 2)
  }

  /** `(m & (m - 1)) == 0` on a positive int. */
  predicate IsPowerOfTwo(m: int)
    requires m >= 1
  {
    HighestOneBit(m) == m
  }

  /** The new array length Polygon.addPoint picks when the arrays are full. */
  function GrowLength(n: int): (r: int)
    requires n >= 1
    ensures r > n
  {
    var newLength := n * 2;
    if newLength < MinLength then MinLength
    else if !IsPowerOfTwo(newLength) then HighestOneBit(newLength)
    else newLength
  }

  /** The slots after Polygon.addPoint appends p to n vertices. */
  function Appended(slots: seq<Point>, n: int, p: Point): (r: seq<Point>)
    requires 1 <= n <= |slots|
    ensures |r| > n && r[..n] == slots[..n] && r[n] == p
    ensures |slots| > n ==> |r| == |slots|
    ensures forall k :: n < k < |r| ==> r[k] == if k < |slots| then slots[k] else Point(0, 0)
  {
    var grown := if n >= |slots| then slots + seq(GrowLength(n) - |slots|, _ => Point(0, 0)) else slots;
    grown[n := p]
  }

  /** The index of the first occurrence of p in s, or -1. */
  function FirstIndex(s: seq<Point>, p: Point): (r: int)
    ensures -1 <= r < |s|
    ensures r == -1 <==> p !in s
    ensures r >= 0 ==> s[r] == p && p !in s[..r]
  {
    if |s| == 0 then -1
    else if s[0] == p then 0
    else
      var r' := FirstIndex(s[1..], p);
      assert s[1..][..if r' >= 0 then r' else 0] == s[1..if r' >= 0 then r' + 1 else 1];
      if r' == -1 then -1 else r' + 1
  }

  /** The closest point of edge i, which runs from vertex i to vertex i+1, the
      last one closing the polygon back to vertex 0: closestPoint as the
      source writes it, or as documented. */
  function EdgePoint(vs: seq<Point>, i: int, p: Point, asWritten: bool): Point
    requires 0 <= i < |vs|
  {
    var a := vs[i];
    var b := if i == |vs| - 1 then vs[0] else vs[i + 1];
    if asWritten then ClosestPointAsWritten(a, b, p) else ClosestPoint(a, b, p)
  }

  /** What closestEdge returns: the best so far starts at vertex 0 and an edge
      replaces it only when its point is strictly closer. So the answer is
      vertex 0 with index 0 unless some edge point is strictly closer, and
      otherwise the first edge point at the least distance, with its index. */
  predicate ClosestEdgeOf(vs: seq<Point>, p: Point, asWritten: bool, r: Point, index: int)
    requires |vs| >= 1
  {
    0 <= index < |vs| && SqDist(r, p) <= SqDist(vs[0], p) &&
    (forall i :: 0 <= i < |vs| ==> SqDist(r, p) <= SqDist(EdgePoint(vs, i, p, asWritten), p)) &&
    (forall i :: 0 <= i < index ==> SqDist(r, p) < SqDist(EdgePoint(vs, i, p, asWritten), p)) &&
    ((index == 0 && r == vs[0]) ||
     (r == EdgePoint(vs, index, p, asWritten) && SqDist(r, p) < SqDist(vs[0], p)))
  }

  /** ClosestEdgeOf leaves no choice: one point and one index satisfy it. */
  lemma ClosestEdgeUnique(vs: seq<Point>, p: Point, asWritten: bool, r1: Point, i1: int, r2: Point, i2: int)
    requires |vs| >= 1
    requires ClosestEdgeOf(vs, p, asWritten, r1, i1) && ClosestEdgeOf(vs, p, asWritten, r2, i2)
    ensures r1 == r2 && i1 == i2
  {
  }

  /** The loop of closestEdge over the vertices `vs`. */
  method ScanEdges(vs: seq<Point>, p: Point, asWritten: bool) returns (r: Point, index: int)
    requires |vs| >= 1
    ensures ClosestEdgeOf(vs, p, asWritten, r, index)
  {
    index := 0;
    r := vs[0];
    var shortest := SqDist(r, p);
    for i := 0 to |vs|
      invariant 0 <= index < |vs| && shortest == SqDist(r, p)
      invariant shortest <= SqDist(vs[0], p)
      invariant (index == 0 && r == vs[0]) ||
                (r == EdgePoint(vs, index, p, asWritten) && shortest < SqDist(vs[0], p))
      invariant forall k :: 0 <= k < i ==> shortest <= SqDist(EdgePoint(vs, k, p, asWritten), p)
      invariant forall k :: 0 <= k < index ==> shortest < SqDist(EdgePoint(vs, k, p, asWritten), p)
      invariant index == 0 || index < i
    {
      var p1 := vs[i];
      var p2 := if i == |vs| - 1 then vs[0] else vs[i + 1];
      var current := if asWritten then ClosestPointAsWritten(p1, p2, p) else ClosestPoint(p1, p2, p);
      var distance := SqDist(current, p);
      if distance < shortest {
        index := i;
        r := current;
        shortest := distance;
      }
    }
  }

  /** Finding, concrete: on the square (0,0),(10,0),(10,10),(0,10) and the
      point (12,-2), closestPoint as written gives vertex 0 itself for edge 0,
      which is not strictly closer, so closestEdge answers edge 1. With the
      documented closestPoint, edge 0 already gives (10,0), and the answer is
      edge 0: the vertex that EditorControl inserts after the index lands in
      another place. */
  lemma ClosestEdgeAsWrittenPicksNextEdge()
    ensures var sq := [Point(0, 0), Point(10, 0), Point(10, 10), Point(0, 10)];
            ClosestEdgeOf(sq, Point(12, -2), true, Point(10, 0), 1) &&
            ClosestEdgeOf(sq, Point(12, -2), false, Point(10, 0), 0)
  {
    SquareEdgePoints(true);
    SquareEdgePoints(false);
  }

  /** The four edge points of the square for the point (12,-2). */
  lemma SquareEdgePoints(asWritten: bool)
    ensures var sq := [Point(0, 0), Point(10, 0), Point(10, 10), Point(0, 10)];
            EdgePoint(sq, 0, Point(12, -2), asWritten) == (if asWritten then Point(0, 0) else Point(10, 0)) &&
            EdgePoint(sq, 1, Point(12, -2), asWritten) == Point(10, 0) &&
            EdgePoint(sq, 2, Point(12, -2), asWritten) == Point(10, 10) &&
            EdgePoint(sq, 3, Point(12, -2), asWritten) == (if asWritten then Point(0, 10) else Point(0, 0))
  {
    var p := Point(12, -2);
    assert Foot(Point(0, 0), Point(10, 0), p) == Point(12, 0);
    assert Foot(Point(10, 0), Point(10, 10), p) == Point(10, -2);
    assert Foot(Point(10, 10), Point(0, 10), p) == Point(12, 10);
    assert Foot(Point(0, 10), Point(0, 0), p) == Point(0, -2);
  }

  /** One vertex moved by `factor` about the centre and rounded with Math.round. */
  function ScaledAbout(q: Point, cx: real, cy: real, factor: real): Point
  {
    Point(Round((q.x as real - cx) * factor + cx), Round((q.y as real - cy) * factor + cy))
  }

  /** What scale stores for a target point: the point itself when valid,
      otherwise its snapped version, by toGrid as the source writes it or as
      documented. */
  function Placed(t: Point, maxX: int, maxY: int, spacing: int, active: bool, asWritten: bool): Point
    requires spacing >= 1
  {
    if InBounds(t, maxX, maxY) && OnGrid(t, spacing, active) then t
    else if asWritten then ToGridAsWritten(t, maxX, maxY, spacing, active)
    else ToGrid(t, maxX, maxY, spacing, active)
  }

  /** Scaling by 1 moves no vertex. */
  lemma ScaledAboutOne(q: Point, cx: real, cy: real)
    ensures ScaledAbout(q, cx, cy, 1.0) == q
  {
    assert (q.x as real - cx) * 1.0 + cx + 0.5 == q.x as real + 0.5;
    assert (q.y as real - cy) * 1.0 + cy + 0.5 == q.y as real + 0.5;
  }

  /** Scaling a valid border by 1 leaves every valid slot where it is. */
  lemma PlacedScaledByOne(q: Point, cx: real, cy: real, maxX: int, maxY: int, spacing: int, active: bool, asWritten: bool)
    requires spacing >= 1
    requires InBounds(q, maxX, maxY) && OnGrid(q, spacing, active)
    ensures Placed(ScaledAbout(q, cx, cy, 1.0), maxX, maxY, spacing, active, asWritten) == q
  {
    ScaledAboutOne(q, cx, cy);
  }

  /** What scale stores is always a valid point once the box is reachable,
      with toGrid as written and as documented alike. */
  lemma PlacedValid(t: Point, maxX: int, maxY: int, spacing: int, active: bool, asWritten: bool)
    requires spacing >= 1 && (active ==> spacing >= 2)
    requires Reachable(maxX, maxY, spacing, active)
    ensures InBounds(Placed(t, maxX, maxY, spacing, active, asWritten), maxX, maxY)
    ensures OnGrid(Placed(t, maxX, maxY, spacing, active, asWritten), spacing, active)
  {
    if !(InBounds(t, maxX, maxY) && OnGrid(t, spacing, active)) {
      if asWritten {
        ToGridAsWrittenValid(t, maxX, maxY, spacing, active);
      } else {
        ToGridValid(t, maxX, maxY, spacing, active);
      }
    }
  }

  /** The border of the scale finding: a 90x10 rectangle. */
  const WideFrame := [Point(10, 50), Point(100, 50), Point(100, 60), Point(10, 60)]

  /** Finding, concrete: scaling WideFrame by 2 on a 200x200 box with no grid
      sends vertex 0 to (-35,45), about the centre (55,55) of its bounds. The
      catch branch of scale snaps it with toGrid as written, which stores
      (0,46); the documented toGrid stores (0,45). */
  lemma ScaleAsWrittenShiftsSnappedPoint()
    ensures Bounds(WideFrame) == Rect(10, 50, 90, 10)
    ensures ScaledAbout(WideFrame[0], 55.0, 55.0, 2.0) == Point(-35, 45)
    ensures Placed(Point(-35, 45), 200, 200, 1, false, true) == Point(0, 46)
    ensures Placed(Point(-35, 45), 200, 200, 1, false, false) == Point(0, 45)
  {
    WideFrameBounds();
    WideFrameTarget();
    WideTargetPlaced(true);
    WideTargetPlaced(false);
  }

  /** Vertex 0 of WideFrame scaled by 2 about (55,55). */
  lemma WideFrameTarget()
    ensures ScaledAbout(WideFrame[0], 55.0, 55.0, 2.0) == Point(-35, 45)
  {
    RoundWhole(-35);
    RoundWhole(45);
    assert (10.0 - 55.0) * 2.0 + 55.0 == -35 as real;
    assert (50.0 - 55.0) * 2.0 + 55.0 == 45 as real;
  }

  /** Where scale stores the target (-35,45), for either toGrid. */
  lemma WideTargetPlaced(asWritten: bool)
    ensures Placed(Point(-35, 45), 200, 200, 1, false, asWritten) == if asWritten then Point(0, 46) else Point(0, 45)
  {
    if asWritten {
      ToGridAsWrittenInactive(Point(-35, 45), 200, 200);
    }
  }

  /** Math.round of a whole number is that number. */
  lemma RoundWhole(n: int)
    ensures Round(n as real) == n
  {
  }

  /** The bounds of WideFrame. */
  lemma WideFrameBounds()
    ensures Bounds(WideFrame) == Rect(10, 50, 90, 10)
  {
    BoundsExact(WideFrame, Rect(10, 50, 90, 10), 0, 1, 0, 2);
  }

  /** Every point moved by `factor` about (cx,cy) and placed: what scale
      stores when every result is valid. */
  function ScaledAll(pts: seq<Point>, cx: real, cy: real, factor: real,
                     maxX: int, maxY: int, spacing: int, active: bool, asWritten: bool): seq<Point>
    requires spacing >= 1
  {
    seq(|pts|, k requires 0 <= k < |pts| => Placed(ScaledAbout(pts[k], cx, cy, factor), maxX, maxY, spacing, active, asWritten))
  }

  /** The loop of scale: each point in turn becomes its scaled target,
      snapped when invalid. The first one that stays invalid throws out of the
      loop: the `done` points before it are replaced and the rest are untouched. */
  method ScalePoints(pts: seq<Point>, cx: real, cy: real, factor: real,
                     maxX: int, maxY: int, spacing: int, active: bool, asWritten: bool)
    returns (done: int, r: seq<Point>)
    requires spacing >= 1 && (active ==> spacing >= 2)
    ensures 0 <= done <= |pts|
    ensures r == ScaledAll(pts, cx, cy, factor, maxX, maxY, spacing, active, asWritten)[..done] + pts[done..]
    ensures forall k :: 0 <= k < done ==> InBounds(r[k], maxX, maxY) && OnGrid(r[k], spacing, active)
    ensures done < |pts| ==>
              var q := ScaledAll(pts, cx, cy, factor, maxX, maxY, spacing, active, asWritten)[done];
              !(InBounds(q, maxX, maxY) && OnGrid(q, spacing, active))
    ensures Reachable(maxX, maxY, spacing, active) ==> done == |pts|
  {
    ghost var all := ScaledAll(pts, cx, cy, factor, maxX, maxY, spacing, active, asWritten);
    r := pts;
    done := 0;
    while done < |r|
      invariant |r| == |pts| && 0 <= done <= |r|
      invariant forall k :: 0 <= k < done ==> r[k] == all[k]
      invariant forall k :: 0 <= k < done ==> InBounds(r[k], maxX, maxY) && OnGrid(r[k], spacing, active)
      invariant forall k :: done <= k < |r| ==> r[k] == pts[k]
    {
      var target := ScaledAbout(r[done], cx, cy, factor);
      var placed := Placed(target, maxX, maxY, spacing, active, asWritten);
      if !(InBounds(placed, maxX, maxY) && OnGrid(placed, spacing, active)) {
        if Reachable(maxX, maxY, spacing, active) {
          PlacedValid(target, maxX, maxY, spacing, active, asWritten);
        }
        assert r == all[..done] + pts[done..];
        return;
      }
      r := r[done := placed];
      done := done + 1;
    }
    assert r == all[..done] + pts[done..];
  }

  /** Finding, concrete: three vertices and two calls of addPoint leave eight
      slots, the last three (0,0). Scanning all slots, as getIndex does, finds
      (0,0) at index 5 although no vertex is (0,0). */
  lemma GetIndexAsWrittenFindsSpareSlot()
    ensures var s1 := Appended([Point(1, 1), Point(9, 1), Point(9, 9)], 3, Point(1, 9));
            var s2 := Appended(s1, 4, Point(5, 5));
            |s2| == 8 && FirstIndex(s2, Point(0, 0)) == 5 && FirstIndex(s2[..5], Point(0, 0)) == -1
  {
    var s0 := [Point(1, 1), Point(9, 1), Point(9, 9)];
    var s1 := Appended(s0, 3, Point(1, 9));
    assert GrowLength(3) == 4 by {
      assert HighestOneBit(6) == 4;
    }
    assert |s1| == 4 && s1[3] == Point(1, 9);
    assert forall k :: 0 <= k < 3 ==> s1[k] == s0[k];
    var s2 := Appended(s1, 4, Point(5, 5));
    assert GrowLength(4) == 8 by {
      assert HighestOneBit(8) == 8;
    }
    assert |s2| == 8 && s2[4] == Point(5, 5) && s2[5] == Point(0, 0);
    assert forall k :: 0 <= k < 4 ==> s2[k] == s1[k];
    assert forall k :: 0 <= k < 5 ==> s2[..5][k] != Point(0, 0);
    FirstIndexAt(s2, Point(0, 0), 5);
  }

  /** An occurrence with none before it is the first one. */
  lemma FirstIndexAt(s: seq<Point>, p: Point, i: int)
    requires 0 <= i < |s| && s[i] == p && p !in s[..i]
    ensures FirstIndex(s, p) == i && FirstIndex(s[..i], p) == -1
  {
  }

  class Border {
    const maxX: int
    const maxY: int
    var slots: seq<Point>
    var npoints: int
    var grid: int
    var gridActive: bool

    /** At least three vertices, non-negative bounds, and a grid spacing of 1
        exactly when the grid is inactive. */
    predicate Valid()
      reads this
    {
      0 <= maxX && 0 <= maxY && 3 <= npoints <= |slots| &&
      (if gridActive then grid >= 2 else grid == 1)
    }

    function Vertices(): (vs: seq<Point>)
      reads this
      requires Valid()
      ensures |vs| == npoints
    {
      slots[..npoints]
    }

    /** validBounds and validGrid together: what every new point must satisfy. */
    predicate ValidPoint(p: Point)
      reads this
      requires Valid()
    {
      InBounds(p, maxX, maxY) && OnGrid(p, grid, gridActive)
    }

    /** The state the Border constructor leaves once its checks pass. */
    constructor (vs: seq<Point>, maxX: int, maxY: int)
      requires 3 <= |vs| && 0 <= maxX && 0 <= maxY
      ensures Valid() && this.maxX == maxX && this.maxY == maxY
      ensures slots == vs && npoints == |vs| && Vertices() == vs
      ensures !gridActive && grid == 1
    {
      this.maxX := maxX;
      this.maxY := maxY;
      slots := vs;
      npoints := |vs|;
      grid := 1;
      gridActive := false;
    }

    /** The Border constructor with its checks: Polygon's own (more points than
        the arrays hold, then a negative count), then fewer than three points,
        then any vertex out of bounds. Polygon keeps only the first n entries. */
    static method Create(xs: seq<int>, ys: seq<int>, n: int, maxX: int, maxY: int)
      returns (b: Border?, s: Status)
      ensures s == Ok <==> 3 <= n <= |xs| && n <= |ys| &&
                           forall i :: 0 <= i < n ==> InBounds(Point(xs[i], ys[i]), maxX, maxY)
      ensures (n > |xs| || n > |ys|) ==> s == Throws(IndexOutOfBounds)
      ensures n <= |xs| && n <= |ys| && n < 0 ==> s == Throws(NegativeArraySize)
      ensures 0 <= n <= |xs| && n <= |ys| && s != Ok ==> s == Throws(IllegalArgument)
      ensures s == Ok ==> b != null && fresh(b) && b.Valid() && !b.gridActive &&
                          b.maxX == maxX && b.maxY == maxY && |b.slots| == n && b.npoints == n &&
                          forall i :: 0 <= i < n ==> b.slots[i] == Point(xs[i], ys[i])
      ensures s != Ok ==> b == null
    {
      b := null;
      if n > |xs| || n > |ys| {
        return b, Throws(IndexOutOfBounds);
      }
      if n < 0 {
        return b, Throws(NegativeArraySize);
      }
      if n < 3 {
        return b, Throws(IllegalArgument);
      }
      var vs := seq(n, i requires 0 <= i < n => Point(xs[i], ys[i]));
      for i := 0 to n
        invariant forall k :: 0 <= k < i ==> InBounds(vs[k], maxX, maxY)
      {
        if !InBounds(vs[i], maxX, maxY) {
          assert vs[i] == Point(xs[i], ys[i]);
          return b, Throws(IllegalArgument);
        }
      }
      assert InBounds(vs[0], maxX, maxY);
      assert forall i :: 0 <= i < n ==> vs[i] == Point(xs[i], ys[i]);
      b := new Border(vs, maxX, maxY);
      s := Ok;
    }

    /** setGrid: a spacing below 2 is refused; otherwise the grid is activated
        with it. Existing vertices are not moved. */
    method SetGrid(g: int) returns (s: Status)
      requires Valid()
      modifies this
      ensures Valid() && slots == old(slots) && npoints == old(npoints)
      ensures g < 2 ==> s == Throws(IllegalArgument) && grid == old(grid) && gridActive == old(gridActive)
      ensures g >= 2 ==> s == Ok && grid == g && gridActive
    {
      if g < 2 {
        return Throws(IllegalArgument);
      }
      grid := g;
      gridActive := true;
      s := Ok;
    }

    /** deactivateGrid: spacing back to 1, every point on the grid again. */
    method DeactivateGrid()
      requires Valid()
      modifies this
      ensures Valid() && slots == old(slots) && npoints == old(npoints)
      ensures grid == 1 && !gridActive
      ensures forall p :: ValidPoint(p) <==> InBounds(p, maxX, maxY)
    {
      grid := 1;
      gridActive := false;
    }

    /** addPoint: validate, then append as Polygon.addPoint does. */
    method AddPoint(p: Point) returns (s: Status)
      requires Valid()
      modifies this
      ensures Valid() && grid == old(grid) && gridActive == old(gridActive)
      ensures !old(ValidPoint(p)) ==> s == Throws(IllegalArgument) && slots == old(slots) && npoints == old(npoints)
      ensures old(ValidPoint(p)) ==> s == Ok && npoints == old(npoints) + 1 &&
                                     slots == Appended(old(slots), old(npoints), p) &&
                                     Vertices() == old(Vertices()) + [p]
    {
      if !ValidPoint(p) {
        return Throws(IllegalArgument);
      }
      slots := Appended(slots, npoints, p);
      npoints := npoints + 1;
      s := Ok;
    }

    /** setPoint: validate, then overwrite one slot; an index outside the
        arrays throws. */
    method SetPoint(index: int, p: Point) returns (s: Status)
      requires Valid()
      modifies this
      ensures Valid() && npoints == old(npoints) && grid == old(grid) && gridActive == old(gridActive)
      ensures !old(ValidPoint(p)) ==> s == Throws(IllegalArgument) && slots == old(slots)
      ensures old(ValidPoint(p)) && !(0 <= index < old(|slots|)) ==> s == Throws(IndexOutOfBounds) && slots == old(slots)
      ensures old(ValidPoint(p)) && 0 <= index < old(|slots|) ==> s == Ok && slots == old(slots)[index := p]
      ensures old(ValidPoint(p)) && 0 <= index < old(npoints) ==> Vertices() == old(Vertices())[index := p]
    {
      if !ValidPoint(p) {
        return Throws(IllegalArgument);
      }
      if !(0 <= index < |slots|) {
        return Throws(IndexOutOfBounds);
      }
      slots := slots[index := p];
      s := Ok;
    }

    /** insertPoint: validate, then copy the arrays into ones a slot longer,
        putting p at `index`. An index outside [0, length] makes the copy read
        past the end and throw before anything is stored. */
    method InsertPoint(index: int, p: Point) returns (s: Status)
      requires Valid()
      modifies this
      ensures Valid() && grid == old(grid) && gridActive == old(gridActive)
      ensures !old(ValidPoint(p)) ==> s == Throws(IllegalArgument) && slots == old(slots) && npoints == old(npoints)
      ensures old(ValidPoint(p)) && !(0 <= index <= old(|slots|)) ==>
                s == Throws(IndexOutOfBounds) && slots == old(slots) && npoints == old(npoints)
      ensures old(ValidPoint(p)) && 0 <= index <= old(|slots|) ==>
                s == Ok && npoints == old(npoints) + 1 &&
                slots == old(slots)[..index] + [p] + old(slots)[index..]
      ensures old(ValidPoint(p)) && 0 <= index <= old(npoints) ==>
                Vertices() == old(Vertices())[..index] + [p] + old(Vertices())[index..]
    {
      if !ValidPoint(p) {
        return Throws(IllegalArgument);
      }
      var length := |slots|;
      var newSlots := new Point[length + 1](_ => Point(0, 0));
      var i, j := 0, 0;
      while i < length + 1
        invariant 0 <= j <= length && j <= i <= length + 1
        invariant i == j + (if 0 <= index < i then 1 else 0)
        invariant forall k :: 0 <= k < i && (index < 0 || k < index) ==> newSlots[k] == slots[k]
        invariant 0 <= index < i ==> newSlots[index] == p
        invariant forall k :: 0 <= index < k < i ==> newSlots[k] == slots[k - 1]
        modifies newSlots
      {
        if i == index {
          newSlots[i] := p;
          i := i + 1;
          if i == length + 1 {
            break;
          }
        }
        if j >= length {
          return Throws(IndexOutOfBounds);
        }
        newSlots[i] := slots[j];
        i, j := i + 1, j + 1;
      }
      assert newSlots[..] == slots[..index] + [p] + slots[index..];
      slots := newSlots[..];
      npoints := npoints + 1;
      s := Ok;
    }

    /** removePoint: nothing happens while there are only three vertices;
        otherwise the arrays are copied into ones a slot shorter, skipping
        `index`. An index outside the arrays overruns the copy and throws. */
    method RemovePoint(index: int) returns (s: Status)
      requires Valid()
      modifies this
      ensures Valid() && grid == old(grid) && gridActive == old(gridActive)
      ensures old(npoints) <= 3 ==> s == Ok && slots == old(slots) && npoints == old(npoints)
      ensures old(npoints) > 3 && !(0 <= index < old(|slots|)) ==>
                s == Throws(IndexOutOfBounds) && slots == old(slots) && npoints == old(npoints)
      ensures old(npoints) > 3 && 0 <= index < old(|slots|) ==>
                s == Ok && npoints == old(npoints) - 1 &&
                slots == old(slots)[..index] + old(slots)[index + 1..]
      ensures old(npoints) > 3 && 0 <= index < old(npoints) ==>
                Vertices() == old(Vertices())[..index] + old(Vertices())[index + 1..]
    {
      if npoints > 3 {
        var length := |slots|;
        var newSlots := new Point[length - 1](_ => Point(0, 0));
        var i, j := 0, 0;
        while j < length
          invariant 0 <= i <= j <= length && i <= length - 1
          invariant i == j - (if 0 <= index < j then 1 else 0)
          invariant forall k :: 0 <= k < i && (index < 0 || k < index) ==> newSlots[k] == slots[k]
          invariant forall k :: 0 <= index <= k < i ==> newSlots[k] == slots[k + 1]
          modifies newSlots
        {
          if j != index {
            if i >= length - 1 {
              return Throws(IndexOutOfBounds);
            }
            newSlots[i] := slots[j];
            i := i + 1;
          }
          j := j + 1;
        }
        assert newSlots[..] == slots[..index] + slots[index + 1..];
        slots := newSlots[..];
        npoints := npoints - 1;
      }
      s := Ok;
    }

    /** getIndex as the source writes it: the scan runs over the whole arrays,
        spare slots included. */
    method GetIndexAsWritten(p: Point) returns (r: int)
      requires Valid()
      ensures r == FirstIndex(slots, p)
      ensures r == -1 <==> p !in slots
      ensures r >= 0 ==> slots[r] == p && p !in slots[..r]
    {
      for i := 0 to |slots|
        invariant p !in slots[..i]
      {
        if slots[i] == p {
          return i;
        }
      }
      return -1;
    }

    /** getIndex as documented: the first vertex equal to p, or -1. */
    method GetIndex(p: Point) returns (r: int)
      requires Valid()
      ensures r == FirstIndex(Vertices(), p)
      ensures -1 <= r < npoints
      ensures r == -1 <==> p !in Vertices()
      ensures r >= 0 ==> Vertices()[r] == p && p !in Vertices()[..r]
    {
      for i := 0 to npoints
        invariant p !in slots[..i]
      {
        if slots[i] == p {
          assert Vertices()[..i] == slots[..i];
          return i;
        }
      }
      assert Vertices() == slots[..npoints];
      return -1;
    }

    /** closestVertexPoint: the first vertex at the least distance from p. */
    method ClosestVertexPoint(p: Point) returns (r: Point)
      requires Valid()
      ensures forall i :: 0 <= i < npoints ==> SqDist(r, p) <= SqDist(Vertices()[i], p)
      ensures exists k :: 0 <= k < npoints && r == Vertices()[k] &&
                          forall i :: 0 <= i < k ==> SqDist(r, p) < SqDist(Vertices()[i], p)
    {
      r := slots[0];
      var shortest := SqDist(r, p);
      ghost var at := 0;
      for i := 1 to npoints
        invariant 0 <= at < i && r == slots[at] && shortest == SqDist(r, p)
        invariant forall k :: 0 <= k < i ==> shortest <= SqDist(slots[k], p)
        invariant forall k :: 0 <= k < at ==> shortest < SqDist(slots[k], p)
      {
        var current := slots[i];
        var distance := SqDist(current, p);
        if distance < shortest {
          shortest := distance;
          r := current;
          at := i;
        }
      }
      assert r == Vertices()[at];
    }

    /** closestEdge as the source writes it, over closestPoint as written. */
    method ClosestEdgeAsWritten(p: Point) returns (r: Point, index: int)
      requires Valid()
      ensures ClosestEdgeOf(Vertices(), p, true, r, index)
      ensures 0 <= index < npoints && SqDist(r, p) <= SqDist(Vertices()[0], p)
    {
      r, index := ScanEdges(Vertices(), p, true);
    }

    /** closestEdge over the documented closestPoint: no edge's closest point
        is nearer than the result, and every earlier edge is strictly farther. */
    method ClosestEdge(p: Point) returns (r: Point, index: int)
      requires Valid()
      ensures ClosestEdgeOf(Vertices(), p, false, r, index)
      ensures 0 <= index < npoints
      ensures forall i :: 0 <= i < npoints ==> SqDist(r, p) <= SqDist(EdgePoint(Vertices(), i, p, false), p)
    {
      r, index := ScanEdges(Vertices(), p, false);
    }

    /** The centre of the bounding rectangle, in double arithmetic. */
    function Centre(): (c: (real, real))
      reads this
      requires Valid()
    {
      var rect := Bounds(Vertices());
      (rect.x as real + rect.width as real / 2.0, rect.y as real + rect.height as real / 2.0)
    }

    /** The state scale leaves when storing a target throws: the slots hold
        `target` before some index j whose target is not a valid point, and
        still hold `before` from j on; every slot before j is valid. */
    predicate PartlyScaled(before: seq<Point>, target: seq<Point>)
      reads this
      requires Valid()
    {
      |before| == |slots| && |target| == |slots| &&
      exists j :: 0 <= j < |slots| && !ValidPoint(target[j]) && slots == target[..j] + before[j..] &&
                  forall i :: 0 <= i < j ==> ValidPoint(slots[i])
    }

    /** Every slot after scale: its target, moved by `factor` about the
        centre of the bounds, or the snapped target when that is invalid. */
    function ScaledSlots(factor: real, asWritten: bool): (r: seq<Point>)
      reads this
      requires Valid()
      ensures |r| == |slots|
    {
      var (cx, cy) := Centre();
      ScaledAll(slots, cx, cy, factor, maxX, maxY, grid, gridActive, asWritten)
    }

    /** scale as the source writes it: every slot is moved by `factor` about
        the centre of the bounds; a result that is not a valid point is
        replaced by its snapped version, from toGrid as written. Storing that
        one throws when it is still invalid, which can only happen when the
        box does not reach the first grid line, and leaves the later slots as
        they were. */
    method ScaleAsWritten(factor: real) returns (s: Status)
      requires Valid()
      modifies this
      ensures Valid() && npoints == old(npoints) && |slots| == old(|slots|)
      ensures grid == old(grid) && gridActive == old(gridActive)
      ensures s == Ok || s == Throws(IllegalArgument)
      ensures s == Ok ==> slots == old(ScaledSlots(factor, true)) && forall i :: 0 <= i < |slots| ==> ValidPoint(slots[i])
      ensures s != Ok ==> PartlyScaled(old(slots), old(ScaledSlots(factor, true)))
      ensures Reachable(maxX, maxY, grid, gridActive) ==> s == Ok
    {
      var (cx, cy) := Centre();
      ghost var all := ScaledSlots(factor, true);
      assert all == ScaledAll(slots, cx, cy, factor, maxX, maxY, grid, gridActive, true);
      var done, pts := ScalePoints(slots, cx, cy, factor, maxX, maxY, grid, gridActive, true);
      slots := pts;
      s := if done == |pts| then Ok else Throws(IllegalArgument);
      if done < |pts| {
        assert 0 <= done < |slots| && !ValidPoint(all[done]) && slots == all[..done] + old(slots)[done..] &&
               forall i :: 0 <= i < done ==> ValidPoint(slots[i]);
        assert PartlyScaled(old(slots), all);
      } else {
        assert slots == all;
      }
    }

    /** scale with the documented toGrid, which only clamps while the grid is
        inactive; everything else as in ScaleAsWritten. */
    method Scale(factor: real) returns (s: Status)
      requires Valid()
      modifies this
      ensures Valid() && npoints == old(npoints) && |slots| == old(|slots|)
      ensures grid == old(grid) && gridActive == old(gridActive)
      ensures s == Ok || s == Throws(IllegalArgument)
      ensures s == Ok ==> slots == old(ScaledSlots(factor, false)) && forall i :: 0 <= i < |slots| ==> ValidPoint(slots[i])
      ensures s != Ok ==> PartlyScaled(old(slots), old(ScaledSlots(factor, false)))
      ensures Reachable(maxX, maxY, grid, gridActive) ==> s == Ok
    {
      var (cx, cy) := Centre();
      ghost var all := ScaledSlots(factor, false);
      assert all == ScaledAll(slots, cx, cy, factor, maxX, maxY, grid, gridActive, false);
      var done, pts := ScalePoints(slots, cx, cy, factor, maxX, maxY, grid, gridActive, false);
      slots := pts;
      s := if done == |pts| then Ok else Throws(IllegalArgument);
      if done < |pts| {
        assert 0 <= done < |slots| && !ValidPoint(all[done]) && slots == all[..done] + old(slots)[done..] &&
               forall i :: 0 <= i < done ==> ValidPoint(slots[i]);
        assert PartlyScaled(old(slots), all);
      } else {
        assert slots == all;
      }
    }

    /** Polygon.translate: every vertex moved by (dx, dy), without any check;
        spare slots stay as they are. */
    method Translate(dx: int, dy: int)
      requires Valid()
      modifies this
      ensures Valid() && npoints == old(npoints) && |slots| == old(|slots|)
      ensures grid == old(grid) && gridActive == old(gridActive)
      ensures Vertices() == Translated(old(Vertices()), dx, dy)
      ensures slots[npoints..] == old(slots[npoints..])
    {
      var i := 0;
      while i < npoints
        invariant Valid() && npoints == old(npoints) && |slots| == old(|slots|)
        invariant grid == old(grid) && gridActive == old(gridActive)
        invariant 0 <= i <= npoints
        invariant forall k :: 0 <= k < i ==> slots[k] == Point(old(slots[k]).x + dx, old(slots[k]).y + dy)
        invariant forall k :: i <= k < |slots| ==> slots[k] == old(slots[k])
      {
        slots := slots[i := Point(slots[i].x + dx, slots[i].y + dy)];
        i := i + 1;
      }
    }
  }
}
