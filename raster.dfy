/**
 * The pixel values behind PositionedImage (PositionedImage.java): colours,
 * images as columns of pixels with an origin, and the image transformations
 * as functions. Pixel (x,y) of an image is px[x][y]; pixels never written
 * are black, as in a new BufferedImage.
 */
module Raster {
  import opened Geometry
  import opened JavaMath

  type Channel = c: int | 0 <= c <= 255

  datatype Rgb = Rgb(red: Channel, green: Channel, blue: Channel)

  const Black := Rgb(0, 0, 0)

  /** TYPE_BYTE_GRAY or TYPE_INT_RGB; the colour conversion of the grey type
      is not modelled, so the type is only carried along. */
  datatype ImageType = ByteGray | IntRgb

  /** A channel sum that saturates: the sum itself while it fits in a
      channel, otherwise 255. */
  function SatAdd(a: Channel, b: Channel): (r: Channel)
    ensures r <= a + b && (r == 255 || r == a + b)
  {
    if a + b > 255 then 255 else a + b
  }

  /** The colour addDot stores: no channel gets darker, and each is the sum
      of the two, or 255 where the sum does not fit. */
  function AddColor(old_: Rgb, c: Rgb): (r: Rgb)
    ensures old_.red <= r.red <= old_.red + c.red && (r.red == 255 || r.red == old_.red + c.red)
    ensures old_.green <= r.green <= old_.green + c.green && (r.green == 255 || r.green == old_.green + c.green)
    ensures old_.blue <= r.blue <= old_.blue + c.blue && (r.blue == 255 || r.blue == old_.blue + c.blue)
  {
    Rgb(SatAdd(old_.red, c.red), SatAdd(old_.green, c.green), SatAdd(old_.blue, c.blue))
  }

  /** Adding onto black reproduces the colour, adding black changes nothing,
      and the order of two additions does not matter. */
  lemma AddColorLaws(a: Rgb, b: Rgb, c: Rgb)
    ensures AddColor(Black, a) == a && AddColor(a, Black) == a
    ensures AddColor(a, b) == AddColor(b, a)
    ensures AddColor(AddColor(a, b), c) == AddColor(AddColor(a, c), b)
  {
  }

  datatype Image = Image(kind: ImageType, width: int, height: int, px: seq<seq<Rgb>>, origin: Point)

  /** A BufferedImage is at least 1x1; the origin is a pixel of the image. */
  predicate Wf(img: Image)
  {
    img.width >= 1 && img.height >= 1 && |img.px| == img.width &&
    (forall x :: 0 <= x < img.width ==> |img.px[x]| == img.height) &&
    0 <= img.origin.x < img.width && 0 <= img.origin.y < img.height
  }

  function Pixel(img: Image, x: int, y: int): Rgb
    requires Wf(img) && 0 <= x < img.width && 0 <= y < img.height
  {
    img.px[x][y]
  }

  /** Two well-formed images with the same header and the same pixels are equal. */
  lemma ImageExt(a: Image, b: Image)
    requires Wf(a) && Wf(b)
    requires a.kind == b.kind && a.width == b.width && a.height == b.height && a.origin == b.origin
    requires forall x, y :: 0 <= x < a.width && 0 <= y < a.height ==> a.px[x][y] == b.px[x][y]
    ensures a == b
  {
    assert forall x :: 0 <= x < a.width ==> a.px[x] == b.px[x];
  }

  /** new PositionedImage(width, height, type): all black, origin (0,0). */
  function Blank(kind: ImageType, width: int, height: int): (r: Image)
    requires width >= 1 && height >= 1
    ensures Wf(r) && r.width == width && r.height == height && r.origin == Point(0, 0)
    ensures forall x, y :: 0 <= x < width && 0 <= y < height ==> r.px[x][y] == Black
  {
    Image(kind, width, height, seq(width, _ => seq(height, _ => Black)), Point(0, 0))
  }

  // ---- addImage ----

  /** Whether pixel (i,j) of `dst` receives a pixel of `src` placed at (x,y). */
  predicate Covered(i: int, j: int, x: int, y: int, src: Image)
  {
    x <= i < x + src.width && y <= j < y + src.height
  }

  function PastedPixel(dst: Image, x: int, y: int, src: Image, i: int, j: int): Rgb
    requires Wf(dst) && Wf(src) && 0 <= i < dst.width && 0 <= j < dst.height
  {
    if Covered(i, j, x, y, src) then AddColor(dst.px[i][j], src.px[i - x][j - y]) else dst.px[i][j]
  }

  /** addImage(x, y, src) on a non-negative corner: the overlapping pixels are
      added, everything else is kept; dimensions and origin do not change. */
  function Pasted(dst: Image, x: int, y: int, src: Image): (r: Image)
    requires Wf(dst) && Wf(src) && x >= 0 && y >= 0
    ensures Wf(r) && r.kind == dst.kind && r.width == dst.width && r.height == dst.height
    ensures r.origin == dst.origin
  {
    Image(dst.kind, dst.width, dst.height,
          seq(dst.width, i requires 0 <= i < dst.width =>
            seq(dst.height, j requires 0 <= j < dst.height => PastedPixel(dst, x, y, src, i, j))),
          dst.origin)
  }

  /** Pasting onto a blank image of the same size copies the source's pixels:
      the copy constructors reproduce their argument. */
  lemma PastedOntoBlank(kind: ImageType, src: Image)
    requires Wf(src)
    ensures var r := Pasted(Blank(kind, src.width, src.height), 0, 0, src);
            forall x, y :: 0 <= x < src.width && 0 <= y < src.height ==> r.px[x][y] == src.px[x][y]
  {
    var b := Blank(kind, src.width, src.height);
    forall x, y | 0 <= x < src.width && 0 <= y < src.height
      ensures Pasted(b, 0, 0, src).px[x][y] == src.px[x][y]
    {
      AddColorLaws(src.px[x][y], Black, Black);
    }
  }

  // ---- addCircle ----

  /** The clipped box addCircle scans: from x - (int) r, at least 0, to
      x + (int) r + 1, or the last column when that is off the image. */
  function BoxStart(c: int, r: real): int
  {
    if c - Trunc(r) < 0 then 0 else c - Trunc(r)
  }

  function BoxEnd(c: int, r: real, size: int): int
  {
    if c + Trunc(r) + 1 < size then c + Trunc(r) + 1 else size - 1
  }

  predicate InDisc(i: int, j: int, x: int, y: int, r: real)
  {
    ((i - x) * (i - x) + (j - y) * (j - y)) as real <= r * r
  }

  /** Whether addCircle(x, y, r, _) adds its colour to pixel (i,j). */
  predicate Touches(i: int, j: int, x: int, y: int, r: real, width: int, height: int)
  {
    BoxStart(x, r) <= i <= BoxEnd(x, r, width) && BoxStart(y, r) <= j <= BoxEnd(y, r, height) &&
    InDisc(i, j, x, y, r)
  }

  function CirclePixel(img: Image, x: int, y: int, r: real, c: Rgb, i: int, j: int): Rgb
    requires Wf(img) && 0 <= i < img.width && 0 <= j < img.height
  {
    if Touches(i, j, x, y, r, img.width, img.height) then AddColor(img.px[i][j], c) else img.px[i][j]
  }

  /** addCircle: the colour is added to every pixel of the scanned box inside the disc. */
  function Circle(img: Image, x: int, y: int, r: real, c: Rgb): (res: Image)
    requires Wf(img)
    ensures Wf(res) && res.kind == img.kind && res.width == img.width && res.height == img.height
    ensures res.origin == img.origin
  {
    Image(img.kind, img.width, img.height,
          seq(img.width, i requires 0 <= i < img.width =>
            seq(img.height, j requires 0 <= j < img.height => CirclePixel(img, x, y, r, c, i, j))),
          img.origin)
  }

  /** Squaring is strictly increasing on the non-negative reals. */
  lemma SquareGrows(r: real, ar: real)
    requires 0.0 <= r < ar
    ensures r * r < ar * ar
  {
    assert ar * ar - r * r == (ar - r) * (ar + r);
    PositiveProduct(ar - r, ar + r);
  }

  lemma PositiveProduct(u: real, v: real)
    requires u > 0.0 && v > 0.0
    ensures u * v > 0.0
  {
  }

  /** An integer whose square is at most r*r lies within Floor(r) of zero. */
  lemma WithinRadius(d: int, r: real)
    requires r >= 0.0 && (d * d) as real <= r * r
    ensures -Floor(r) <= d <= Floor(r)
  {
    var a := if d >= 0 then d else -d;
    assert a * a == d * d;
    var ar := a as real;
    assert (a * a) as real == ar * ar;
    if ar > r {
      SquareGrows(r, ar);
    }
  }

  /** For a non-negative radius the clipping is exact: a pixel of the image is
      touched exactly when it lies in the disc. */
  lemma TouchesIffInDisc(i: int, j: int, x: int, y: int, r: real, width: int, height: int)
    requires r >= 0.0 && 0 <= i < width && 0 <= j < height
    ensures Touches(i, j, x, y, r, width, height) <==> InDisc(i, j, x, y, r)
  {
    if InDisc(i, j, x, y, r) {
      var dx, dy := i - x, j - y;
      var sx, sy, rr := dx * dx, dy * dy, r * r;
      assert sx >= 0 && sy >= 0 && (sx + sy) as real <= rr;
      assert sx as real <= rr && sy as real <= rr;
      WithinRadius(dx, r);
      WithinRadius(dy, r);
    }
  }

  // ---- reset ----

  /** reset(width, height): the window of the given size whose corner is the origin. */
  function Reset(img: Image, width: int, height: int): (r: Image)
    requires Wf(img) && width >= 1 && height >= 1
    requires img.origin.x + width <= img.width && img.origin.y + height <= img.height
    ensures Wf(r) && r.kind == img.kind && r.width == width && r.height == height
    ensures r.origin == Point(0, 0)
  {
    Image(img.kind, width, height,
          seq(width, x requires 0 <= x < width =>
            seq(height, y requires 0 <= y < height => img.px[x + img.origin.x][y + img.origin.y])),
          Point(0, 0))
  }

  // ---- shears ----

  /** The shift of a line at distance d from the origin's line: floor for a
      non-negative shear, ceiling for a negative one. */
  function Shift(s: real, d: int): int
  {
    if s < 0.0 then Ceil(d as real * s) else Floor(d as real * s)
  }

  /** The shift vanishes on the origin's own line. */
  lemma ShiftZero(s: real)
    ensures Shift(s, 0) == 0
  {
  }

  /** A shear by -s shifts every line back by exactly what a shear by s shifted it. */
  lemma ShiftNeg(s: real, d: int)
    ensures Shift(-s, d) == -Shift(s, d)
  {
    assert d as real * -s == -(d as real * s);
    CeilNeg(d as real * s);
  }

  /** The shift grows with d for a non-negative shear and shrinks for a negative one. */
  lemma ShiftMono(s: real, d1: int, d2: int)
    requires d1 <= d2
    ensures s >= 0.0 ==> Shift(s, d1) <= Shift(s, d2)
    ensures s < 0.0 ==> Shift(s, d2) <= Shift(s, d1)
  {
    MulMono(d1, d2, s);
    if s >= 0.0 {
      FloorMono(d1 as real * s, d2 as real * s);
    } else {
      CeilMono(d2 as real * s, d1 as real * s);
    }
  }

  /** The offset of the shear: the least shift over the lines 0..n-1. */
  function Offset(s: real, n: int, o: int): int
  {
    if s < 0.0 then Ceil((n - 1 - o) as real * s) else Floor((-1 * o) as real * s)
  }

  /** The largest shift over the lines 0..n-1. */
  function MaxShift(s: real, n: int, o: int): int
  {
    if s < 0.0 then Ceil((-1 * o) as real * s) else Floor((n - 1 - o) as real * s)
  }

  /** Every line's shift lies between the offset and the largest shift. */
  lemma ShiftBounds(s: real, n: int, o: int, k: int)
    requires 0 <= k < n
    ensures Offset(s, n, o) <= Shift(s, k - o) <= MaxShift(s, n, o)
  {
    ShiftMono(s, -1 * o, k - o);
    ShiftMono(s, k - o, n - 1 - o);
  }

  /** The extent of a sheared image across the shear: n - offset + largest shift. */
  function ShearedSize(s: real, n: int, m: int, o: int): (r: int)
    requires n >= 1 && m >= 1
    ensures r >= m
  {
    ShiftBounds(s, n, o, 0);
    m - Offset(s, n, o) + MaxShift(s, n, o)
  }

  /** The source row of pixel (x, y') after a vertical shear, if it has one. */
  function ShearVSource(img: Image, s: real, x: int, y': int): int
  {
    y' + Offset(s, img.width, img.origin.x) - Shift(s, x - img.origin.x)
  }

  function ShearVPixel(img: Image, s: real, x: int, y': int): Rgb
    requires Wf(img) && 0 <= x < img.width
  {
    var y := ShearVSource(img, s, x, y');
    if 0 <= y < img.height then img.px[x][y] else Black
  }

  /** shearVert: column x moves down by its shift minus the offset, the image
      grows to hold every column, and the origin follows its own pixel. */
  function ShearV(img: Image, s: real): (r: Image)
    requires Wf(img)
    ensures Wf(r) && r.kind == img.kind && r.width == img.width
    ensures r.height == ShearedSize(s, img.width, img.height, img.origin.x)
    ensures r.origin == Point(img.origin.x, img.origin.y - Offset(s, img.width, img.origin.x))
  {
    var h' := ShearedSize(s, img.width, img.height, img.origin.x);
    ShiftBounds(s, img.width, img.origin.x, img.origin.x);
    ShiftZero(s);
    Image(img.kind, img.width, h',
          seq(img.width, x requires 0 <= x < img.width =>
            seq(h', y' requires 0 <= y' < h' => ShearVPixel(img, s, x, y'))),
          Point(img.origin.x, img.origin.y - Offset(s, img.width, img.origin.x)))
  }

  /** The source column of pixel (x', y) after a horizontal shear. */
  function ShearHSource(img: Image, s: real, x': int, y: int): int
  {
    x' + Offset(s, img.height, img.origin.y) - Shift(s, y - img.origin.y)
  }

  function ShearHPixel(img: Image, s: real, x': int, y: int): Rgb
    requires Wf(img) && 0 <= y < img.height
  {
    var x := ShearHSource(img, s, x', y);
    if 0 <= x < img.width then img.px[x][y] else Black
  }

  /** shearHorz: the transpose of shearVert, row y moving right. */
  function ShearH(img: Image, s: real): (r: Image)
    requires Wf(img)
    ensures Wf(r) && r.kind == img.kind && r.height == img.height
    ensures r.width == ShearedSize(s, img.height, img.width, img.origin.y)
    ensures r.origin == Point(img.origin.x - Offset(s, img.height, img.origin.y), img.origin.y)
  {
    var w' := ShearedSize(s, img.height, img.width, img.origin.y);
    ShiftBounds(s, img.height, img.origin.y, img.origin.y);
    ShiftZero(s);
    Image(img.kind, w', img.height,
          seq(w', x' requires 0 <= x' < w' =>
            seq(img.height, y requires 0 <= y < img.height => ShearHPixel(img, s, x', y))),
          Point(img.origin.x - Offset(s, img.height, img.origin.y), img.origin.y))
  }

  /** rotate: three shears, vertical by alpha, horizontal by beta, vertical by
      alpha (alpha = -tan(rads/2) and beta = sin(rads) in the source). */
  function Rotate(img: Image, alpha: real, beta: real): (r: Image)
    requires Wf(img)
    ensures Wf(r) && r.kind == img.kind
  {
    ShearV(ShearH(ShearV(img, alpha), beta), alpha)
  }

  // ---- the image seen from its origin ----

  /** Whether (u,v), taken relative to the origin, is a pixel of the image. */
  predicate InRange(img: Image, u: int, v: int)
  {
    0 <= u + img.origin.x < img.width && 0 <= v + img.origin.y < img.height
  }

  /** The pixel at (u,v) relative to the origin; black outside the image. */
  function Rel(img: Image, u: int, v: int): Rgb
    requires Wf(img)
  {
    if InRange(img, u, v) then img.px[u + img.origin.x][v + img.origin.y] else Black
  }

  /** Seen from the origin, a vertical shear moves column u down by Shift(s,u)
      and loses nothing: every pixel lands inside the sheared image. */
  lemma ShearVRel(img: Image, s: real, u: int, v: int)
    requires Wf(img)
    ensures Rel(ShearV(img, s), u, v) == Rel(img, u, v - Shift(s, u))
    ensures InRange(img, u, v) ==> InRange(ShearV(img, s), u, v + Shift(s, u))
  {
    var r := ShearV(img, s);
    var ox, oy := img.origin.x, img.origin.y;
    var off := Offset(s, img.width, ox);
    if 0 <= u + ox < img.width {
      ShiftBounds(s, img.width, ox, u + ox);
      assert ShearVSource(img, s, u + ox, v + oy - off) == v - Shift(s, u) + oy;
    }
  }

  /** Seen from the origin, a horizontal shear moves row v right by Shift(s,v). */
  lemma ShearHRel(img: Image, s: real, u: int, v: int)
    requires Wf(img)
    ensures Rel(ShearH(img, s), u, v) == Rel(img, u - Shift(s, v), v)
    ensures InRange(img, u, v) ==> InRange(ShearH(img, s), u + Shift(s, v), v)
  {
    var r := ShearH(img, s);
    var ox, oy := img.origin.x, img.origin.y;
    var off := Offset(s, img.height, oy);
    if 0 <= v + oy < img.height {
      ShiftBounds(s, img.height, oy, v + oy);
      assert ShearHSource(img, s, u + ox - off, v + oy) == u - Shift(s, v) + ox;
    }
  }

  /** Two images that agree pixel for pixel seen from their origins, where the
      second has origin (0,0) and every one of its pixels is in range of the
      first, give back the second under reset. */
  lemma ResetRecovers(img: Image, orig: Image)
    requires Wf(img) && Wf(orig) && orig.origin == Point(0, 0) && img.kind == orig.kind
    requires forall u, v :: 0 <= u < orig.width && 0 <= v < orig.height ==>
               InRange(img, u, v) && Rel(img, u, v) == Rel(orig, u, v)
    ensures img.origin.x + orig.width <= img.width && img.origin.y + orig.height <= img.height
    ensures Reset(img, orig.width, orig.height) == orig
  {
    assert InRange(img, orig.width - 1, orig.height - 1);
    var r := Reset(img, orig.width, orig.height);
    forall x, y | 0 <= x < orig.width && 0 <= y < orig.height
      ensures r.px[x][y] == orig.px[x][y]
    {
      assert InRange(img, x, y) && Rel(img, x, y) == Rel(orig, x, y);
    }
    ImageExt(r, orig);
  }

  /** A vertical shear by -s applied to any image d that agrees with
      shearVert(img, s) where the pixel (u,v) of img went gives (u,v) back. */
  lemma ShearVUndoVia(img: Image, d: Image, s: real, u: int, v: int)
    requires Wf(img) && Wf(d)
    requires Rel(d, u, v + Shift(s, u)) == Rel(ShearV(img, s), u, v + Shift(s, u))
    requires InRange(ShearV(img, s), u, v + Shift(s, u)) ==> InRange(d, u, v + Shift(s, u))
    ensures Rel(ShearV(d, -s), u, v) == Rel(img, u, v)
    ensures InRange(img, u, v) ==> InRange(ShearV(d, -s), u, v)
  {
    var k := Shift(s, u);
    ShiftNeg(s, u);
    var w := v + k;
    ShearVRelAt(d, -s, u, v, w);
    ShearVRelAt(img, s, u, w, v);
  }

  /** The horizontal counterpart of ShearVUndoVia. */
  lemma ShearHUndoVia(img: Image, d: Image, s: real, u: int, v: int)
    requires Wf(img) && Wf(d)
    requires Rel(d, u + Shift(s, v), v) == Rel(ShearH(img, s), u + Shift(s, v), v)
    requires InRange(ShearH(img, s), u + Shift(s, v), v) ==> InRange(d, u + Shift(s, v), v)
    ensures Rel(ShearH(d, -s), u, v) == Rel(img, u, v)
    ensures InRange(img, u, v) ==> InRange(ShearH(d, -s), u, v)
  {
    var k := Shift(s, v);
    ShiftNeg(s, v);
    var w := u + k;
    ShearHRelAt(d, -s, u, v, w);
    ShearHRelAt(img, s, w, v, u);
  }

  /** ShearVRel for the pixel (u,v) of the sheared image and its source row w. */
  lemma ShearVRelAt(img: Image, s: real, u: int, v: int, w: int)
    requires Wf(img) && w == v - Shift(s, u)
    ensures Rel(ShearV(img, s), u, v) == Rel(img, u, w)
    ensures InRange(img, u, w) ==> InRange(ShearV(img, s), u, v)
  {
    ShearVRel(img, s, u, v);
    ShearVRel(img, s, u, w);
  }

  /** ShearHRel for the pixel (u,v) of the sheared image and its source column w. */
  lemma ShearHRelAt(img: Image, s: real, u: int, v: int, w: int)
    requires Wf(img) && w == u - Shift(s, v)
    ensures Rel(ShearH(img, s), u, v) == Rel(img, w, v)
    ensures InRange(img, w, v) ==> InRange(ShearH(img, s), u, v)
  {
    ShearHRel(img, s, u, v);
    ShearHRel(img, s, w, v);
  }

  /** Seen from the origin, shearVert(-s) undoes shearVert(s) pixel by pixel. */
  lemma ShearVUndo(img: Image, s: real, u: int, v: int)
    requires Wf(img)
    ensures Rel(ShearV(ShearV(img, s), -s), u, v) == Rel(img, u, v)
    ensures InRange(img, u, v) ==> InRange(ShearV(ShearV(img, s), -s), u, v)
  {
    ShearVUndoVia(img, ShearV(img, s), s, u, v);
  }

  /** Seen from the origin, shearHorz(-s) undoes shearHorz(s) pixel by pixel. */
  lemma ShearHUndo(img: Image, s: real, u: int, v: int)
    requires Wf(img)
    ensures Rel(ShearH(ShearH(img, s), -s), u, v) == Rel(img, u, v)
    ensures InRange(img, u, v) ==> InRange(ShearH(ShearH(img, s), -s), u, v)
  {
    ShearHUndoVia(img, ShearH(img, s), s, u, v);
  }

  /** shearVert(s), then shearVert(-s), then reset gives back an image whose
      origin is (0,0): the shear is perfectly invertible. */
  lemma ShearVRoundTrip(img: Image, s: real)
    requires Wf(img) && img.origin == Point(0, 0)
    ensures var back := ShearV(ShearV(img, s), -s);
            back.origin.x + img.width <= back.width && back.origin.y + img.height <= back.height &&
            Reset(back, img.width, img.height) == img
  {
    forall u, v | 0 <= u < img.width && 0 <= v < img.height
      ensures InRange(ShearV(ShearV(img, s), -s), u, v)
      ensures Rel(ShearV(ShearV(img, s), -s), u, v) == Rel(img, u, v)
    {
      ShearVUndo(img, s, u, v);
    }
    ResetRecovers(ShearV(ShearV(img, s), -s), img);
  }

  /** The same round trip for shearHorz. */
  lemma ShearHRoundTrip(img: Image, s: real)
    requires Wf(img) && img.origin == Point(0, 0)
    ensures var back := ShearH(ShearH(img, s), -s);
            back.origin.x + img.width <= back.width && back.origin.y + img.height <= back.height &&
            Reset(back, img.width, img.height) == img
  {
    forall u, v | 0 <= u < img.width && 0 <= v < img.height
      ensures InRange(ShearH(ShearH(img, s), -s), u, v)
      ensures Rel(ShearH(ShearH(img, s), -s), u, v) == Rel(img, u, v)
    {
      ShearHUndo(img, s, u, v);
    }
    ResetRecovers(ShearH(ShearH(img, s), -s), img);
  }

  /** The middle of a rotation followed by its inverse: a horizontal shear,
      a vertical shear and its inverse, and the inverse horizontal shear
      bring the pixel (u,v) of img back to (u,v). */
  lemma RotateUndoInner(img: Image, alpha: real, beta: real, u: int, v: int)
    requires Wf(img)
    ensures var d := ShearV(ShearV(ShearH(img, beta), alpha), -alpha);
            Rel(ShearH(d, -beta), u, v) == Rel(img, u, v) &&
            (InRange(img, u, v) ==> InRange(ShearH(d, -beta), u, v))
  {
    var b := ShearH(img, beta);
    var d := ShearV(ShearV(b, alpha), -alpha);
    var u1 := u + Shift(beta, v);
    ShearVUndo(b, alpha, u1, v);
    assert Rel(d, u1, v) == Rel(b, u1, v);
    ShearHUndoVia(img, d, beta, u, v);
  }

  /** The pixel (u,v) of img passes through the six shears of a rotation and
      its inverse and comes back to (u,v): the middle pair of vertical shears
      cancels, then each remaining shear meets its inverse. */
  lemma RotateUndo(img: Image, alpha: real, beta: real, u: int, v: int)
    requires Wf(img)
    ensures Rel(Rotate(Rotate(img, alpha, beta), -alpha, -beta), u, v) == Rel(img, u, v)
    ensures InRange(img, u, v) ==> InRange(Rotate(Rotate(img, alpha, beta), -alpha, -beta), u, v)
  {
    var c := ShearV(ShearH(ShearV(img, alpha), beta), alpha);
    assert Rotate(img, alpha, beta) == c;
    var e := ShearH(ShearV(c, -alpha), -beta);
    assert Rotate(c, -alpha, -beta) == ShearV(e, -alpha);
    RotateUndoOuter(img, alpha, beta, u, v, e);
  }

  /** The outer vertical shears of a rotation and its inverse meet around
      the inner four. */
  lemma RotateUndoOuter(img: Image, alpha: real, beta: real, u: int, v: int, e: Image)
    requires Wf(img)
    requires e == ShearH(ShearV(ShearV(ShearH(ShearV(img, alpha), beta), alpha), -alpha), -beta)
    ensures Rel(ShearV(e, -alpha), u, v) == Rel(img, u, v)
    ensures InRange(img, u, v) ==> InRange(ShearV(e, -alpha), u, v)
  {
    RotateUndoInner(ShearV(img, alpha), alpha, beta, u, v + Shift(alpha, u));
    ShearVUndoVia(img, e, alpha, u, v);
  }

  /** Rotating by (alpha, beta), then by (-alpha, -beta), then resetting gives
      back an image whose origin is (0,0): the three-shear rotation is
      perfectly invertible. */
  lemma RotateRoundTrip(img: Image, alpha: real, beta: real)
    requires Wf(img) && img.origin == Point(0, 0)
    ensures var back := Rotate(Rotate(img, alpha, beta), -alpha, -beta);
            back.origin.x + img.width <= back.width && back.origin.y + img.height <= back.height &&
            Reset(back, img.width, img.height) == img
  {
    var back := Rotate(Rotate(img, alpha, beta), -alpha, -beta);
    forall u, v | 0 <= u < img.width && 0 <= v < img.height
      ensures InRange(back, u, v) && Rel(back, u, v) == Rel(img, u, v)
    {
      RotateUndo(img, alpha, beta, u, v);
    }
    ResetRecovers(back, img);
  }

  /** Two images of the same size with the same origin. */
  predicate SameFrame(a: Image, b: Image)
  {
    a.width == b.width && a.height == b.height && a.origin == b.origin
  }

  /** The size and origin of a rotated image depend only on the size and
      origin of the image rotated, never on its pixels. */
  lemma RotateSameFrame(a: Image, b: Image, alpha: real, beta: real)
    requires Wf(a) && Wf(b) && SameFrame(a, b)
    ensures SameFrame(Rotate(a, alpha, beta), Rotate(b, alpha, beta))
  {
  }

  /** Rotating back any image with the frame of a rotated image (the rotated
      image itself, or a halftone drawn over it): the original image's window,
      measured from the new origin, lies inside the result. */
  lemma RotateFits(img: Image, b: Image, alpha: real, beta: real)
    requires Wf(img) && img.origin == Point(0, 0)
    requires Wf(b) && SameFrame(b, Rotate(img, alpha, beta))
    ensures var back := Rotate(b, -alpha, -beta);
            back.origin.x + img.width <= back.width && back.origin.y + img.height <= back.height
  {
    var turned := Rotate(img, alpha, beta);
    RotateUndo(img, alpha, beta, img.width - 1, img.height - 1);
    RotateSameFrame(b, turned, -alpha, -beta);
    CornerFits(img, Rotate(turned, -alpha, -beta), Rotate(b, -alpha, -beta));
  }

  /** An image whose frame matches one that has the far corner of img in
      range holds img's whole window, measured from its origin. */
  lemma CornerFits(img: Image, back0: Image, back: Image)
    requires Wf(img) && img.origin == Point(0, 0)
    requires InRange(img, img.width - 1, img.height - 1) ==> InRange(back0, img.width - 1, img.height - 1)
    requires SameFrame(back, back0)
    ensures back.origin.x + img.width <= back.width && back.origin.y + img.height <= back.height
  {
  }

  /** toGreyscale: a grey image of the same size with this one added at
      (0,0); its origin is (0,0) whatever this image's origin was. */
  function Greyscale(img: Image): (r: Image)
    requires Wf(img)
    ensures Wf(r) && r.kind == ByteGray && r.width == img.width && r.height == img.height
    ensures r.origin == Point(0, 0)
  {
    Image(ByteGray, img.width, img.height, img.px, Point(0, 0))
  }
}
