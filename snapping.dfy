/**
 * The point constraints of a Border (Border.java): the bounding box
 * [0,maxX] x [0,maxY], the optional grid whose lines lie at spacing/2,
 * spacing/2 + spacing, ..., and the two snapping operations toBounds and
 * toGrid. A grid is described by its spacing and whether it is active; an
 * inactive grid has spacing 1.
 */
module Snapping {
  import opened Geometry
  import opened JavaMath

  /** validBounds: 0 <= x <= maxX and 0 <= y <= maxY. */
  predicate InBounds(p: Point, maxX: int, maxY: int)
  {
    0 <= p.x <= maxX && 0 <= p.y <= maxY
  }

  /** validGrid: an inactive grid accepts everything; an active one wants
      both coordinates at spacing/2 modulo spacing, with Java's remainder. */
  predicate OnGrid(p: Point, spacing: int, active: bool)
    requires spacing >= 1
  {
    !active || (Rem(p.x, spacing) == spacing / 2 && Rem(p.y, spacing) == spacing / 2)
  }

  /** The smallest coordinate toBounds allows. */
  function MinCoord(spacing: int, active: bool): int
    requires spacing >= 1
  {
    if active then spacing / 2 else 0
  }

  /** The largest coordinate toBounds allows: with the grid active, the last
      grid line at or before the bound. */
  function MaxCoord(bound: int, spacing: int, active: bool): int
    requires spacing >= 1
  {
    if active then bound - Rem(bound - spacing / 2, spacing) else bound
  }

  /** Raise to the minimum first, then lower to the maximum. */
  function Clamp(v: int, lo: int, hi: int): int
  {
    var v1 := if v < lo then lo else v;
    if v1 > hi then hi else v1
  }

  /** toBounds */
  function ToBounds(p: Point, maxX: int, maxY: int, spacing: int, active: bool): Point
    requires spacing >= 1
  {
    var lo := MinCoord(spacing, active);
    Point(Clamp(p.x, lo, MaxCoord(maxX, spacing, active)),
          Clamp(p.y, lo, MaxCoord(maxY, spacing, active)))
  }

  /** The coordinate step of toGrid: move by the Java remainder of v - spacing/2,
      down when it is below spacing/2, otherwise up to the next grid line. */
  function SnapCoord(v: int, spacing: int): int
    requires spacing >= 1
  {
    var over := Rem(v - spacing / 2, spacing);
    if over < spacing / 2 then v - over else v - over + spacing
  }

  /** toGrid as the source writes it: snap both coordinates, then toBounds,
      whether or not the grid is active. */
  function ToGridAsWritten(p: Point, maxX: int, maxY: int, spacing: int, active: bool): Point
    requires spacing >= 1
  {
    ToBounds(Point(SnapCoord(p.x, spacing), SnapCoord(p.y, spacing)), maxX, maxY, spacing, active)
  }

  /** toGrid as documented: the closest point within bounds that is on the grid
      when it is active. With the grid inactive it only clamps. */
  function ToGrid(p: Point, maxX: int, maxY: int, spacing: int, active: bool): Point
    requires spacing >= 1
  {
    if active then ToGridAsWritten(p, maxX, maxY, spacing, active)
    else ToBounds(p, maxX, maxY, spacing, active)
  }

  /** A bounding box the snapping can land in: non-negative, and reaching the
      first grid line when the grid is active. */
  predicate Reachable(maxX: int, maxY: int, spacing: int, active: bool)
    requires spacing >= 1
  {
    maxX >= MinCoord(spacing, active) && maxY >= MinCoord(spacing, active)
  }

  // ---- the lattice spacing/2 + k * spacing ----

  /** A non-negative point of the lattice passes Java's grid test. */
  lemma LatticeOnGrid(h: int, g: int, k: int)
    requires g >= 2 && h == g / 2
    requires h + g * k >= 0
    ensures Rem(h + g * k, g) == h
  {
    LatticeMod(h, g, k);
  }

  /** The two outcomes of SnapCoord are lattice points. */
  lemma SnapCoordLattice(v: int, g: int) returns (k: int)
    requires g >= 2
    ensures SnapCoord(v, g) == g / 2 + g * k
  {
    var h := g / 2;
    var over := Rem(v - h, g);
    assert v - h == Div(v - h, g) * g + over;
    if over < h {
      k := Div(v - h, g);
    } else {
      k := Div(v - h, g) + 1;
    }
  }

  /** With the grid active and a reachable box, the largest allowed coordinate
      is itself a grid line, at or after the first one. */
  lemma MaxCoordLattice(bound: int, g: int) returns (k: int)
    requires g >= 2 && bound >= g / 2
    ensures MaxCoord(bound, g, true) == g / 2 + g * k
    ensures g / 2 <= MaxCoord(bound, g, true) <= bound
    ensures k >= 0
  {
    var h := g / 2;
    k := Div(bound - h, g);
    assert bound - h == k * g + Rem(bound - h, g);
  }

  /** A grid line at most `bound` is at most the largest allowed coordinate. */
  lemma LatticeBelowMax(bound: int, g: int, k: int)
    requires g >= 2 && bound >= g / 2
    requires g / 2 <= g / 2 + g * k <= bound
    ensures g / 2 + g * k <= MaxCoord(bound, g, true)
  {
    var q := MaxCoordLattice(bound, g);
    var h := g / 2;
    var r := Rem(bound - h, g);
    assert bound - h == g * q + r && 0 <= r < g;
    assert g * k <= g * q + r;
    MultipleBelow(g, k - q, r);
  }

  /** A multiple of g below g has a factor of at most 0. */
  lemma MultipleBelow(g: int, d: int, m: int)
    requires g > 0 && g * d <= m < g
    ensures d <= 0
  {
  }

  /** Clamping a lattice coordinate between two lattice bounds stays on the lattice. */
  lemma ClampOnGrid(v: int, g: int, bound: int)
    requires g >= 2 && bound >= g / 2
    requires exists k :: v == g / 2 + g * k
    ensures Rem(Clamp(v, g / 2, MaxCoord(bound, g, true)), g) == g / 2
    ensures 0 <= Clamp(v, g / 2, MaxCoord(bound, g, true)) <= bound
  {
    var h := g / 2;
    var hi := MaxCoord(bound, g, true);
    var kHi := MaxCoordLattice(bound, g);
    var c := Clamp(v, h, hi);
    if v < h {
      assert c == h;
      LatticeOnGrid(h, g, 0);
    } else if v > hi {
      assert c == hi;
      LatticeOnGrid(h, g, kHi);
    } else {
      var k :| v == h + g * k;
      LatticeOnGrid(h, g, k);
    }
  }

  // ---- properties of toBounds and toGrid ----

  /** toBounds lands in the bounding box whenever the box is reachable. */
  lemma ToBoundsInBounds(p: Point, maxX: int, maxY: int, spacing: int, active: bool)
    requires spacing >= 1 && (active ==> spacing >= 2)
    requires Reachable(maxX, maxY, spacing, active)
    ensures InBounds(ToBounds(p, maxX, maxY, spacing, active), maxX, maxY)
  {
    if active {
      var _ := MaxCoordLattice(maxX, spacing);
      var _ := MaxCoordLattice(maxY, spacing);
    }
  }

  /** toGrid always yields a valid vertex: in bounds, and on the grid when it
      is active. This is why the fallback of Border.scale cannot throw. */
  lemma ToGridValid(p: Point, maxX: int, maxY: int, spacing: int, active: bool)
    requires spacing >= 1 && (active ==> spacing >= 2)
    requires Reachable(maxX, maxY, spacing, active)
    ensures InBounds(ToGrid(p, maxX, maxY, spacing, active), maxX, maxY)
    ensures OnGrid(ToGrid(p, maxX, maxY, spacing, active), spacing, active)
  {
    if active {
      var kx := SnapCoordLattice(p.x, spacing);
      var ky := SnapCoordLattice(p.y, spacing);
      ClampOnGrid(SnapCoord(p.x, spacing), spacing, maxX);
      ClampOnGrid(SnapCoord(p.y, spacing), spacing, maxY);
    } else {
      ToBoundsInBounds(p, maxX, maxY, spacing, active);
    }
  }

  /** A valid coordinate of an active grid is a lattice point at or after the first line. */
  lemma OnGridLattice(v: int, g: int) returns (k: int)
    requires g >= 2 && v >= 0 && Rem(v, g) == g / 2
    ensures v == g / 2 + g * k && k >= 0
  {
    k := Div(v, g);
    assert v == k * g + g / 2;
  }

  /** The snapping step leaves a grid line where it is. */
  lemma SnapCoordFixed(v: int, g: int)
    requires g >= 2 && v >= 0 && Rem(v, g) == g / 2
    ensures SnapCoord(v, g) == v
  {
    var k := OnGridLattice(v, g);
    LatticeMod(0, g, k);
    assert v - g / 2 == g * k;
    assert Rem(v - g / 2, g) == 0;
  }

  /** toGrid is idempotent: a point that is already valid is returned unchanged. */
  lemma ToGridFixesValid(p: Point, maxX: int, maxY: int, spacing: int, active: bool)
    requires spacing >= 1 && (active ==> spacing >= 2)
    requires InBounds(p, maxX, maxY) && OnGrid(p, spacing, active)
    ensures ToGrid(p, maxX, maxY, spacing, active) == p
  {
    if active {
      SnapCoordFixed(p.x, spacing);
      SnapCoordFixed(p.y, spacing);
      var kx := OnGridLattice(p.x, spacing);
      var ky := OnGridLattice(p.y, spacing);
      LatticeBelowMax(maxX, spacing, kx);
      LatticeBelowMax(maxY, spacing, ky);
    }
  }

  /** Finding: with the grid inactive its spacing is 1 and spacing/2 is 0, so
      the remainder is 0, the test `0 < 0` fails, and the source's toGrid moves
      every point by (1,1) before clamping. */
  lemma ToGridAsWrittenInactive(p: Point, maxX: int, maxY: int)
    ensures ToGridAsWritten(p, maxX, maxY, 1, false) == ToBounds(Point(p.x + 1, p.y + 1), maxX, maxY, 1, false)
  {
    assert Rem(p.x, 1) == 0 && Rem(p.y, 1) == 0;
  }

  /** Finding, concrete: on a 200x200 box with no grid the valid point (3,3)
      becomes (4,4), and the out-of-bounds (-2,50) becomes (0,51) instead of (0,50). */
  lemma ToGridAsWrittenMovesValidPoint()
    ensures InBounds(Point(3, 3), 200, 200) && OnGrid(Point(3, 3), 1, false)
    ensures ToGridAsWritten(Point(3, 3), 200, 200, 1, false) == Point(4, 4)
    ensures ToGrid(Point(3, 3), 200, 200, 1, false) == Point(3, 3)
    ensures ToGridAsWritten(Point(-2, 50), 200, 200, 1, false) == Point(0, 51)
    ensures ToGrid(Point(-2, 50), 200, 200, 1, false) == Point(0, 50)
  {
    ToGridAsWrittenInactive(Point(3, 3), 200, 200);
    ToGridAsWrittenInactive(Point(-2, 50), 200, 200);
  }

  /** toGrid as written is valid too: with the grid active it is ToGrid, and
      with the grid inactive the final toBounds clamps whatever the snapping
      step did. This is why the fallback of Border.scale cannot throw. */
  lemma ToGridAsWrittenValid(p: Point, maxX: int, maxY: int, spacing: int, active: bool)
    requires spacing >= 1 && (active ==> spacing >= 2)
    requires Reachable(maxX, maxY, spacing, active)
    ensures InBounds(ToGridAsWritten(p, maxX, maxY, spacing, active), maxX, maxY)
    ensures OnGrid(ToGridAsWritten(p, maxX, maxY, spacing, active), spacing, active)
  {
    if active {
      ToGridValid(p, maxX, maxY, spacing, active);
    } else {
      ToBoundsInBounds(Point(SnapCoord(p.x, spacing), SnapCoord(p.y, spacing)), maxX, maxY, spacing, active);
    }
  }

  // ---- nearness ----

  /** The distance between two coordinates. */
  function Gap(a: int, b: int): (d: int)
    ensures d >= 0 && d * d == (a - b) * (a - b)
  {
    if a <= b then b - a else a - b
  }

  /** Two different lattice points lie at least one spacing apart. */
  lemma LatticeApart(g: int, k: int, l: int)
    requires g >= 1 && k != l
    ensures g * k - g * l >= g || g * l - g * k >= g
  {
    if k > l {
      assert g * k - g * l == g * (k - l - 1) + g;
      ProductNonNegative(g, k - l - 1);
    } else {
      assert g * l - g * k == g * (l - k - 1) + g;
      ProductNonNegative(g, l - k - 1);
    }
  }

  lemma ProductNonNegative(a: int, b: int)
    requires a >= 0 && b >= 0
    ensures a * b >= 0
  {
  }

  /** The snapping step moves v by at most half a spacing when v is at or
      after the first grid line, and never past the first line when v is
      before it. */
  lemma SnapCoordStep(v: int, g: int)
    requires g >= 2
    ensures v >= g / 2 ==> -(g / 2) < SnapCoord(v, g) - v <= g - g / 2
    ensures v < g / 2 ==> v <= SnapCoord(v, g) <= g / 2
  {
    var h := g / 2;
    var k := SnapCoordLattice(v, g);
    if v < h {
      assert SnapCoord(v, g) == v - Rem(v - h, g);
      assert g * k < g;
      MultipleBelow(g, k, g * k);
    }
  }

  /** One coordinate of toGrid with an active grid of even spacing: no grid
      line inside [0,bound] is strictly closer to v than the result. */
  lemma SnapClampNearest(v: int, g: int, bound: int, w: int)
    requires g >= 2 && g % 2 == 0 && bound >= g / 2
    requires 0 <= w <= bound && Rem(w, g) == g / 2
    ensures Gap(Clamp(SnapCoord(v, g), g / 2, MaxCoord(bound, g, true)), v) <= Gap(w, v)
  {
    var h := g / 2;
    var hi := MaxCoord(bound, g, true);
    var kHi := MaxCoordLattice(bound, g);
    var kw := OnGridLattice(w, g);
    LatticeBelowMax(bound, g, kw);
    var s := SnapCoord(v, g);
    var ks := SnapCoordLattice(v, g);
    SnapCoordStep(v, g);
    if v >= h && s <= hi {
      assert s >= h by {
        assert g * ks > -g;
        MultipleBelow(g, -ks, g * -ks);
      }
      if kw != ks {
        LatticeApart(g, kw, ks);
      }
    } else if v >= h {
      LatticeApart(g, ks, kHi);
    }
  }

  /** toGrid with an active grid of even spacing returns a closest valid
      point: along each axis, and so in distance, no valid point is nearer. */
  lemma ToGridNearest(p: Point, q: Point, maxX: int, maxY: int, spacing: int)
    requires spacing >= 2 && spacing % 2 == 0 && Reachable(maxX, maxY, spacing, true)
    requires InBounds(q, maxX, maxY) && OnGrid(q, spacing, true)
    ensures Gap(ToGrid(p, maxX, maxY, spacing, true).x, p.x) <= Gap(q.x, p.x)
    ensures Gap(ToGrid(p, maxX, maxY, spacing, true).y, p.y) <= Gap(q.y, p.y)
    ensures SqDist(ToGrid(p, maxX, maxY, spacing, true), p) <= SqDist(q, p)
  {
    var r := ToGrid(p, maxX, maxY, spacing, true);
    SnapClampNearest(p.x, spacing, maxX, q.x);
    SnapClampNearest(p.y, spacing, maxY, q.y);
    SquaresMono(Gap(r.x, p.x), Gap(q.x, p.x));
    SquaresMono(Gap(r.y, p.y), Gap(q.y, p.y));
  }

  lemma SquaresMono(u: int, v: int)
    requires 0 <= u <= v
    ensures u * u <= v * v
  {
    assert v * v - u * u == (v - u) * (v + u);
  }

  /** With an odd spacing the snapping step can pick the farther line: with
      spacing 3 the lines lie at 1, 4, 7, ..., and (2,2) goes to (4,4),
      although (1,1) is on the grid and nearer. */
  lemma ToGridOddSpacingFarther()
    ensures ToGrid(Point(2, 2), 10, 10, 3, true) == Point(4, 4)
    ensures InBounds(Point(1, 1), 10, 10) && OnGrid(Point(1, 1), 3, true)
    ensures SqDist(Point(1, 1), Point(2, 2)) < SqDist(Point(4, 4), Point(2, 2))
  {
    assert Rem(1, 3) == 1 && Rem(9, 3) == 0;
  }

  /** With an active grid of spacing 20 the lines lie at 10, 30, 50, ...:
      (33,47) goes down to x = 30 and up to y = 50. */
  lemma ToGridSnapsToLines()
    ensures ToGrid(Point(33, 47), 200, 200, 20, true) == Point(30, 50)
    ensures OnGrid(Point(30, 50), 20, true)
  {
    assert Rem(23, 20) == 3 && Rem(37, 20) == 17;
    assert Rem(190, 20) == 10;
  }
}
