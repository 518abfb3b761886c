/**
 * The single-pass halftone of PositionedImage.toHalftone(size, red, green,
 * blue) as a function: the image is sampled every `size` pixels in both
 * directions and, for each sample, a dot of the requested channels at half
 * strength is added around the sample point.
 *
 * The dot radius, size * sqrt(2 * frac / pi) in the source, is a parameter
 * `radius` from the sampled fraction to a radius.
 */
module Halftone {
  import opened Geometry
  import opened JavaMath
  import opened Raster

  /** Which channels one halftone pass draws. */
  datatype Channels = Channels(red: bool, green: bool, blue: bool)

  /** The dot colour: 128 on each requested channel, 0 on the others. */
  function DotColor(ch: Channels): (c: Rgb)
    ensures c.red == (if ch.red then 128 else 0)
    ensures c.green == (if ch.green then 128 else 0)
    ensures c.blue == (if ch.blue then 128 else 0)
  {
    Rgb(if ch.red then 128 else 0, if ch.green then 128 else 0, if ch.blue then 128 else 0)
  }

  /** 255 for each requested channel. */
  function Divisor(ch: Channels): int
  {
    (if ch.red then 255 else 0) + (if ch.green then 255 else 0) + (if ch.blue then 255 else 0)
  }

  /** The sampled strength of the requested channels, between 0 and 1. With no
      channel requested the source divides 0 by 0 and draws nothing; here the
      fraction is 0 and the dot is black, which changes nothing either. */
  function Fraction(c: Rgb, ch: Channels): (f: real)
    ensures 0.0 <= f <= 1.0
  {
    var sum := (if ch.red then c.red else 0) + (if ch.green then c.green else 0) + (if ch.blue then c.blue else 0);
    if Divisor(ch) == 0 then 0.0 else sum as real / Divisor(ch) as real
  }

  /** The dot drawn for the sample at (x,y). */
  function Dot(canvas: Image, src: Image, ch: Channels, radius: real -> real, x: int, y: int): (r: Image)
    requires Wf(canvas) && Wf(src) && 0 <= x < src.width && 0 <= y < src.height
    ensures Wf(r) && r.kind == canvas.kind && r.width == canvas.width && r.height == canvas.height
    ensures r.origin == canvas.origin
  {
    Circle(canvas, x, y, radius(Fraction(src.px[x][y], ch)), DotColor(ch))
  }

  /** The dots of column x from row y on, every `size` rows. */
  function Column(canvas: Image, src: Image, size: int, ch: Channels, radius: real -> real, x: int, y: int): (r: Image)
    requires Wf(canvas) && Wf(src) && size >= 1 && 0 <= x < src.width && y >= 0
    ensures Wf(r) && r.kind == canvas.kind && r.width == canvas.width && r.height == canvas.height
    ensures r.origin == canvas.origin
    decreases src.height - y
  {
    if y >= src.height then canvas
    else Column(Dot(canvas, src, ch, radius, x, y), src, size, ch, radius, x, y + size)
  }

  /** The dots of the columns from x on, every `size` columns. */
  function Columns(canvas: Image, src: Image, size: int, ch: Channels, radius: real -> real, x: int): (r: Image)
    requires Wf(canvas) && Wf(src) && size >= 1 && x >= 0
    ensures Wf(r) && r.kind == canvas.kind && r.width == canvas.width && r.height == canvas.height
    ensures r.origin == canvas.origin
    decreases src.width - x
  {
    if x >= src.width then canvas
    else Columns(Column(canvas, src, size, ch, radius, x, 0), src, size, ch, radius, x + size)
  }

  /** The canvas toHalftone draws on: black, of the source's size, type and origin. */
  function Canvas(src: Image): (r: Image)
    requires Wf(src)
    ensures Wf(r) && r.kind == src.kind && r.width == src.width && r.height == src.height
    ensures r.origin == src.origin
    ensures forall i, j :: 0 <= i < r.width && 0 <= j < r.height ==> r.px[i][j] == Black
  {
    var b := Blank(src.kind, src.width, src.height);
    Image(b.kind, b.width, b.height, b.px, src.origin)
  }

  /** toHalftone(size, red, green, blue) */
  function HalftoneOf(src: Image, size: int, ch: Channels, radius: real -> real): (r: Image)
    requires Wf(src) && size >= 1
    ensures Wf(r) && r.kind == src.kind && r.width == src.width && r.height == src.height
    ensures r.origin == src.origin
  {
    Columns(Canvas(src), src, size, ch, radius, 0)
  }

  // ---- what a halftone pixel can be ----

  /** A halftone pixel: every requested channel holds the same level, 0, 128
      (one dot) or 255 (two or more dots), and the other channels are 0. */
  predicate Shaded(p: Rgb, ch: Channels)
  {
    var v := if ch.red then p.red else if ch.green then p.green else p.blue;
    (v == 0 || v == 128 || v == 255) &&
    p.red == (if ch.red then v else 0) &&
    p.green == (if ch.green then v else 0) &&
    p.blue == (if ch.blue then v else 0)
  }

  predicate AllShaded(img: Image, ch: Channels)
    requires Wf(img)
  {
    forall i, j :: 0 <= i < img.width && 0 <= j < img.height ==> Shaded(img.px[i][j], ch)
  }

  /** Adding one more dot keeps a pixel a halftone pixel. */
  lemma ShadedAddDot(p: Rgb, ch: Channels)
    requires Shaded(p, ch)
    ensures Shaded(AddColor(p, DotColor(ch)), ch)
  {
  }

  lemma DotShaded(canvas: Image, src: Image, ch: Channels, radius: real -> real, x: int, y: int)
    requires Wf(canvas) && Wf(src) && 0 <= x < src.width && 0 <= y < src.height
    requires AllShaded(canvas, ch)
    ensures AllShaded(Dot(canvas, src, ch, radius, x, y), ch)
  {
    var r := Dot(canvas, src, ch, radius, x, y);
    forall i, j | 0 <= i < canvas.width && 0 <= j < canvas.height
      ensures Shaded(r.px[i][j], ch)
    {
      ShadedAddDot(canvas.px[i][j], ch);
    }
  }

  lemma {:induction false} ColumnShaded(canvas: Image, src: Image, size: int, ch: Channels, radius: real -> real, x: int, y: int)
    requires Wf(canvas) && Wf(src) && size >= 1 && 0 <= x < src.width && y >= 0
    requires AllShaded(canvas, ch)
    ensures AllShaded(Column(canvas, src, size, ch, radius, x, y), ch)
    decreases src.height - y
  {
    if y < src.height {
      DotShaded(canvas, src, ch, radius, x, y);
      ColumnShaded(Dot(canvas, src, ch, radius, x, y), src, size, ch, radius, x, y + size);
    }
  }

  lemma {:induction false} ColumnsShaded(canvas: Image, src: Image, size: int, ch: Channels, radius: real -> real, x: int)
    requires Wf(canvas) && Wf(src) && size >= 1 && x >= 0
    requires AllShaded(canvas, ch)
    ensures AllShaded(Columns(canvas, src, size, ch, radius, x), ch)
    decreases src.width - x
  {
    if x < src.width {
      ColumnShaded(canvas, src, size, ch, radius, x, 0);
      ColumnsShaded(Column(canvas, src, size, ch, radius, x, 0), src, size, ch, radius, x + size);
    }
  }

  /** Every pixel of a halftone is 0, 128 or 255 on the requested channels,
      the same on each of them, and 0 on the others. */
  lemma HalftoneShaded(src: Image, size: int, ch: Channels, radius: real -> real)
    requires Wf(src) && size >= 1
    ensures AllShaded(HalftoneOf(src, size, ch, radius), ch)
  {
    ColumnsShaded(Canvas(src), src, size, ch, radius, 0);
  }

  // ---- where the dots are ----

  /** Whether the sample at (cx, cy) draws on pixel (i,j). */
  predicate DotTouches(src: Image, ch: Channels, radius: real -> real, cx: int, cy: int, i: int, j: int)
    requires Wf(src) && 0 <= cx < src.width && 0 <= cy < src.height
  {
    Touches(i, j, cx, cy, radius(Fraction(src.px[cx][cy], ch)), src.width, src.height)
  }

  /** A sample point: a multiple of size in both directions, inside the image. */
  predicate SamplePoint(src: Image, size: int, cx: int, cy: int)
  {
    size >= 1 && 0 <= cx < src.width && 0 <= cy < src.height && cx % size == 0 && cy % size == 0
  }

  lemma NextMultiple(y: int, size: int)
    requires size >= 1 && y % size == 0
    ensures (y + size) % size == 0
  {
    var q := y / size;
    assert y == size * q;
    assert y + size == 0 + size * (q + 1);
    LatticeMod(0, size, q + 1);
  }

  lemma {:induction false} ColumnUntouched(canvas: Image, src: Image, size: int, ch: Channels, radius: real -> real,
                                          x: int, y: int, i: int, j: int)
    requires Wf(canvas) && Wf(src) && size >= 1 && 0 <= x < src.width && y >= 0
    requires canvas.width == src.width && canvas.height == src.height
    requires 0 <= i < src.width && 0 <= j < src.height && x % size == 0 && y % size == 0
    requires forall cy :: y <= cy < src.height && SamplePoint(src, size, x, cy) ==> !DotTouches(src, ch, radius, x, cy, i, j)
    ensures Column(canvas, src, size, ch, radius, x, y).px[i][j] == canvas.px[i][j]
    decreases src.height - y
  {
    if y < src.height {
      assert SamplePoint(src, size, x, y);
      NextMultiple(y, size);
      ColumnUntouched(Dot(canvas, src, ch, radius, x, y), src, size, ch, radius, x, y + size, i, j);
    }
  }

  lemma {:induction false} ColumnsUntouched(canvas: Image, src: Image, size: int, ch: Channels, radius: real -> real,
                                           x: int, i: int, j: int)
    requires Wf(canvas) && Wf(src) && size >= 1 && x >= 0
    requires canvas.width == src.width && canvas.height == src.height
    requires 0 <= i < src.width && 0 <= j < src.height && x % size == 0
    requires forall cx, cy :: x <= cx && SamplePoint(src, size, cx, cy) ==> !DotTouches(src, ch, radius, cx, cy, i, j)
    ensures Columns(canvas, src, size, ch, radius, x).px[i][j] == canvas.px[i][j]
    decreases src.width - x
  {
    if x < src.width {
      ColumnUntouched(canvas, src, size, ch, radius, x, 0, i, j);
      NextMultiple(x, size);
      ColumnsUntouched(Column(canvas, src, size, ch, radius, x, 0), src, size, ch, radius, x + size, i, j);
    }
  }

  /** Dots are centred only at the sample points: a pixel that no sample's dot
      touches stays black. */
  lemma HalftoneOnlyAtSamples(src: Image, size: int, ch: Channels, radius: real -> real, i: int, j: int)
    requires Wf(src) && size >= 1 && 0 <= i < src.width && 0 <= j < src.height
    requires forall cx, cy :: SamplePoint(src, size, cx, cy) ==> !DotTouches(src, ch, radius, cx, cy, i, j)
    ensures HalftoneOf(src, size, ch, radius).px[i][j] == Black
  {
    ColumnsUntouched(Canvas(src), src, size, ch, radius, 0, i, j);
  }

  // ---- the rotated passes of toHalftoneBW and toHalftoneRGB ----

  /** The shear parameters of a rotation by some angle: alpha = -tan(angle/2)
      and beta = sin(angle). Both are odd in the angle, so the rotation by the
      opposite angle has parameters (-alpha, -beta). */
  datatype Turn = Turn(alpha: real, beta: real)

  /** Rotate, halftone the requested channels and rotate back. The image's
      origin is (0,0), as every image a layer holds is; the round trip of the
      rotation then guarantees that the original window fits in the result. */
  function DotsTurnedBack(img: Image, size: int, ch: Channels, t: Turn, radius: real -> real): (r: Image)
    requires Wf(img) && size >= 1 && img.origin == Point(0, 0)
    ensures Wf(r) && r.kind == img.kind
    ensures r.origin.x + img.width <= r.width && r.origin.y + img.height <= r.height
  {
    var turned := Rotate(img, t.alpha, t.beta);
    var dots := HalftoneOf(turned, size, ch, radius);
    RotateFits(img, dots, t.alpha, t.beta);
    Rotate(dots, -t.alpha, -t.beta)
  }

  /** One pass of toHalftoneBW or toHalftoneRGB: the rotated halftone, with
      the original window cut out again. */
  function HalftonePass(img: Image, size: int, ch: Channels, t: Turn, radius: real -> real): (r: Image)
    requires Wf(img) && size >= 1 && img.origin == Point(0, 0)
    ensures Wf(r) && r.kind == img.kind && r.width == img.width && r.height == img.height
    ensures r.origin == Point(0, 0)
  {
    Reset(DotsTurnedBack(img, size, ch, t, radius), img.width, img.height)
  }

  /** toHalftoneBW: one pass over all three channels. */
  function HalftoneBW(img: Image, size: int, t: Turn, radius: real -> real): (r: Image)
    requires Wf(img) && size >= 1 && img.origin == Point(0, 0)
    ensures Wf(r) && r.kind == img.kind && r.width == img.width && r.height == img.height
    ensures r.origin == Point(0, 0)
  {
    HalftonePass(img, size, Channels(true, true, true), t, radius)
  }

  /** toHalftoneRGB: a red, a green and a blue pass, each at its own angle,
      the green and the blue one added onto the red one. */
  function HalftoneRGB(img: Image, size: int, rt: Turn, gt: Turn, bt: Turn, radius: real -> real): (r: Image)
    requires Wf(img) && size >= 1 && img.origin == Point(0, 0)
    ensures Wf(r) && r.kind == img.kind && r.width == img.width && r.height == img.height
    ensures r.origin == Point(0, 0)
  {
    var red := HalftonePass(img, size, Channels(true, false, false), rt, radius);
    var green := HalftonePass(img, size, Channels(false, true, false), gt, radius);
    var blue := HalftonePass(img, size, Channels(false, false, true), bt, radius);
    Pasted(Pasted(red, 0, 0, green), 0, 0, blue)
  }

  /** toHalftone(size): black and white for a grey image, three colours
      otherwise; the four turns stand for the angles 15, -15, 7.5 and 30
      degrees. */
  function HalftoneImage(img: Image, size: int, bw: Turn, rt: Turn, gt: Turn, bt: Turn, radius: real -> real): (r: Image)
    requires Wf(img) && size >= 1 && img.origin == Point(0, 0)
    ensures Wf(r) && r.kind == img.kind && r.width == img.width && r.height == img.height
    ensures r.origin == Point(0, 0)
  {
    if img.kind == ByteGray then HalftoneBW(img, size, bw, radius) else HalftoneRGB(img, size, rt, gt, bt, radius)
  }

  // ---- shading survives the rotations ----

  lemma ShearVShaded(img: Image, s: real, ch: Channels)
    requires Wf(img) && AllShaded(img, ch)
    ensures AllShaded(ShearV(img, s), ch)
  {
    var r := ShearV(img, s);
    forall i, j | 0 <= i < r.width && 0 <= j < r.height
      ensures Shaded(r.px[i][j], ch)
    {
      assert r.px[i][j] == ShearVPixel(img, s, i, j);
    }
  }

  lemma ShearHShaded(img: Image, s: real, ch: Channels)
    requires Wf(img) && AllShaded(img, ch)
    ensures AllShaded(ShearH(img, s), ch)
  {
    var r := ShearH(img, s);
    forall i, j | 0 <= i < r.width && 0 <= j < r.height
      ensures Shaded(r.px[i][j], ch)
    {
      assert r.px[i][j] == ShearHPixel(img, s, i, j);
    }
  }

  /** A rotation only moves pixels and fills the corners with black, so a
      halftone stays a halftone. */
  lemma RotateShaded(img: Image, alpha: real, beta: real, ch: Channels)
    requires Wf(img) && AllShaded(img, ch)
    ensures AllShaded(Rotate(img, alpha, beta), ch)
  {
    ShearVShaded(img, alpha, ch);
    ShearHShaded(ShearV(img, alpha), beta, ch);
    ShearVShaded(ShearH(ShearV(img, alpha), beta), alpha, ch);
  }

  /** Cutting a window out of a halftone leaves a halftone. */
  lemma ResetShaded(img: Image, w: int, h: int, ch: Channels)
    requires Wf(img) && w >= 1 && h >= 1 && img.origin.x + w <= img.width && img.origin.y + h <= img.height
    requires AllShaded(img, ch)
    ensures AllShaded(Reset(img, w, h), ch)
  {
    var r := Reset(img, w, h);
    forall i, j | 0 <= i < w && 0 <= j < h
      ensures Shaded(r.px[i][j], ch)
    {
      assert r.px[i][j] == img.px[i + img.origin.x][j + img.origin.y];
    }
  }

  /** Every pixel a pass leaves is 0, 128 or 255 on the pass's channels, the
      same on each of them, and 0 on the others. */
  lemma HalftonePassShaded(img: Image, size: int, ch: Channels, t: Turn, radius: real -> real)
    requires Wf(img) && size >= 1 && img.origin == Point(0, 0)
    ensures AllShaded(HalftonePass(img, size, ch, t, radius), ch)
  {
    var turned := Rotate(img, t.alpha, t.beta);
    HalftoneShaded(turned, size, ch, radius);
    RotateShaded(HalftoneOf(turned, size, ch, radius), -t.alpha, -t.beta, ch);
    ResetShaded(DotsTurnedBack(img, size, ch, t, radius), img.width, img.height, ch);
  }

  /** The black and white halftone is grey: every pixel is (0,0,0),
      (128,128,128) or (255,255,255). */
  lemma HalftoneBWGrey(img: Image, size: int, t: Turn, radius: real -> real, i: int, j: int)
    requires Wf(img) && size >= 1 && img.origin == Point(0, 0)
    requires 0 <= i < img.width && 0 <= j < img.height
    ensures var p := HalftoneBW(img, size, t, radius).px[i][j];
            p.red == p.green == p.blue && (p.red == 0 || p.red == 128 || p.red == 255)
  {
    HalftonePassShaded(img, size, Channels(true, true, true), t, radius);
  }

  /** The three colour passes never interfere: each channel of the result is
      that channel of its own pass, which is 0, 128 or 255. */
  lemma HalftoneRGBChannels(img: Image, size: int, rt: Turn, gt: Turn, bt: Turn, radius: real -> real, i: int, j: int)
    requires Wf(img) && size >= 1 && img.origin == Point(0, 0)
    requires 0 <= i < img.width && 0 <= j < img.height
    ensures var p := HalftoneRGB(img, size, rt, gt, bt, radius).px[i][j];
            p.red == HalftonePass(img, size, Channels(true, false, false), rt, radius).px[i][j].red &&
            p.green == HalftonePass(img, size, Channels(false, true, false), gt, radius).px[i][j].green &&
            p.blue == HalftonePass(img, size, Channels(false, false, true), bt, radius).px[i][j].blue &&
            (p.red == 0 || p.red == 128 || p.red == 255) &&
            (p.green == 0 || p.green == 128 || p.green == 255) &&
            (p.blue == 0 || p.blue == 128 || p.blue == 255)
  {
    var red := HalftonePass(img, size, Channels(true, false, false), rt, radius);
    var green := HalftonePass(img, size, Channels(false, true, false), gt, radius);
    var blue := HalftonePass(img, size, Channels(false, false, true), bt, radius);
    assert Shaded(red.px[i][j], Channels(true, false, false)) by {
      HalftonePassShaded(img, size, Channels(true, false, false), rt, radius);
    }
    assert Shaded(green.px[i][j], Channels(false, true, false)) by {
      HalftonePassShaded(img, size, Channels(false, true, false), gt, radius);
    }
    assert Shaded(blue.px[i][j], Channels(false, false, true)) by {
      HalftonePassShaded(img, size, Channels(false, false, true), bt, radius);
    }
    var rg := Pasted(red, 0, 0, green);
    assert rg.px[i][j] == AddColor(red.px[i][j], green.px[i][j]);
    assert Pasted(rg, 0, 0, blue).px[i][j] == AddColor(rg.px[i][j], blue.px[i][j]);
  }

  /** The floating-point constants of toHalftone(size): the turns of its
      four fixed angles (15 degrees for black and white; -15, 7.5 and 30 for
      red, green and blue) and the dot radius for a halftone size and a
      sampled fraction, size * sqrt(2 * frac / pi). */
  datatype Screen = Screen(bw: Turn, red: Turn, green: Turn, blue: Turn, radius: int -> real -> real)

  /** toHalftone(size) with the screen's constants. */
  function Halftoned(img: Image, size: int, sc: Screen): (r: Image)
    requires Wf(img) && size >= 1 && img.origin == Point(0, 0)
    ensures Wf(r) && r.kind == img.kind && r.width == img.width && r.height == img.height
    ensures r.origin == Point(0, 0)
  {
    HalftoneImage(img, size, sc.bw, sc.red, sc.green, sc.blue, sc.radius(size))
  }

  /** The halftone of a greyscale copy is black and white: every pixel is
      (0,0,0), (128,128,128) or (255,255,255). */
  lemma GreyHalftoneIsGrey(img: Image, size: int, sc: Screen, i: int, j: int)
    requires Wf(img) && size >= 1 && 0 <= i < img.width && 0 <= j < img.height
    ensures var p := Halftoned(Greyscale(img), size, sc).px[i][j];
            p.red == p.green == p.blue && (p.red == 0 || p.red == 128 || p.red == 255)
  {
    HalftoneBWGrey(Greyscale(img), size, sc.bw, sc.radius(size), i, j);
  }
}
