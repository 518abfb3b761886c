/**
 * PositionedImage (PositionedImage.java): a pixel buffer with an origin that
 * tracks where the original pixel (0,0) has moved. The buffer is an array
 * indexed [x, y]; Value() reads it back as an Image, and every operation is
 * specified by the function of module Raster or Halftone it computes.
 */
module Images {
  import opened Geometry
  import opened JavaMath
  import opened Raster
  import opened Halftone

  class PositionedImage {
    const kind: ImageType
    const width: int
    const height: int
    const pixels: array2<Rgb>
    var origin: Point

    /** A BufferedImage is at least 1x1 and the origin is one of its pixels. */
    predicate Valid()
      reads this
    {
      pixels.Length0 == width && pixels.Length1 == height && width >= 1 && height >= 1 &&
      0 <= origin.x < width && 0 <= origin.y < height
    }

    /** The image this object currently holds. */
    function Value(): (img: Image)
      reads this, pixels
      requires Valid()
      ensures Wf(img) && img.kind == kind && img.width == width && img.height == height
      ensures img.origin == origin
      ensures forall x, y :: 0 <= x < width && 0 <= y < height ==> img.px[x][y] == pixels[x, y]
    {
      Image(kind, width, height,
            seq(width, x requires 0 <= x < width reads pixels =>
              seq(height, y requires 0 <= y < height reads pixels => pixels[x, y])),
            origin)
    }

    /** new PositionedImage(width, height, type): black, origin (0,0). */
    constructor Blank(kind: ImageType, width: int, height: int)
      requires width >= 1 && height >= 1
      ensures Valid() && fresh(pixels)
      ensures Value() == Raster.Blank(kind, width, height)
    {
      this.kind := kind;
      this.width := width;
      this.height := height;
      pixels := new Rgb[width, height]((_, _) => Black);
      origin := Point(0, 0);
      new;
      ImageExt(Value(), Raster.Blank(kind, width, height));
    }

    /** new PositionedImage(image, type): a blank image of the same size with
        `image` added at (0,0), which is a copy of its pixels. */
    constructor FromImage(src: Image, kind: ImageType)
      requires Wf(src)
      ensures Valid() && fresh(pixels)
      ensures Value() == Image(kind, src.width, src.height, src.px, Point(0, 0))
    {
      this.kind := kind;
      this.width := src.width;
      this.height := src.height;
      pixels := new Rgb[src.width, src.height]((_, _) => Black);
      origin := Point(0, 0);
      new;
      ImageExt(Value(), Raster.Blank(kind, width, height));
      AddImage(0, 0, src);
      PastedOntoBlank(kind, src);
      ImageExt(Value(), Image(kind, src.width, src.height, src.px, Point(0, 0)));
    }

    /** new PositionedImage(positionedImage, type): the copy also keeps the origin. */
    constructor Copy(other: PositionedImage, kind: ImageType)
      requires other.Valid()
      ensures Valid() && fresh(pixels)
      ensures Value() == Image(kind, other.width, other.height, other.Value().px, other.origin)
    {
      var src := other.Value();
      this.kind := kind;
      this.width := src.width;
      this.height := src.height;
      pixels := new Rgb[src.width, src.height]((_, _) => Black);
      origin := Point(0, 0);
      new;
      ImageExt(Value(), Raster.Blank(kind, width, height));
      AddImage(0, 0, src);
      PastedOntoBlank(kind, src);
      origin := src.origin;
      ImageExt(Value(), Image(kind, src.width, src.height, src.px, src.origin));
    }

    /** addDot: one pixel gets the colour added, channel by channel capped at
        255; no other pixel changes. */
    method AddDot(x: int, y: int, c: Rgb)
      requires Valid() && 0 <= x < width && 0 <= y < height
      modifies pixels
      ensures Valid()
      ensures pixels[x, y] == AddColor(old(pixels[x, y]), c)
      ensures forall i, j :: 0 <= i < width && 0 <= j < height && (i != x || j != y) ==>
                pixels[i, j] == old(pixels[i, j])
    {
      var t := pixels[x, y];
      pixels[x, y] := AddColor(t, c);
    }

    /** addImage(x, y, src): the overlap of src placed at (x,y) is added pixel
        by pixel; the corner is never negative. */
    method AddImage(x: int, y: int, src: Image)
      requires Valid() && Wf(src) && x >= 0 && y >= 0
      modifies pixels
      ensures Valid()
      ensures Value() == Pasted(old(Value()), x, y, src)
    {
      ghost var v0 := Value();
      var i := 0;
      while i < src.width && x + i < width
        invariant 0 <= i <= src.width && (i == 0 || x + i <= width)
        invariant forall a, b :: 0 <= a < width && 0 <= b < height ==>
                    pixels[a, b] == if a < x + i then PastedPixel(v0, x, y, src, a, b) else v0.px[a][b]
      {
        var j := 0;
        while j < src.height && y + j < height
          invariant 0 <= j <= src.height && (j == 0 || y + j <= height)
          invariant forall a, b :: 0 <= a < width && 0 <= b < height ==>
                      pixels[a, b] == if a < x + i || (a == x + i && b < y + j) then PastedPixel(v0, x, y, src, a, b)
                                      else v0.px[a][b]
        {
          AddDot(x + i, y + j, src.px[i][j]);
          j := j + 1;
        }
        i := i + 1;
      }
      ImageExt(Value(), Pasted(v0, x, y, src));
    }

    /** addCircle(x, y, r, c): the colour is added to every pixel of the
        clipped box that lies in the disc of radius r. */
    method AddCircle(x: int, y: int, r: real, c: Rgb)
      requires Valid()
      modifies pixels
      ensures Valid()
      ensures Value() == Circle(old(Value()), x, y, r, c)
    {
      ghost var v0 := Value();
      var startX, endX := BoxStart(x, r), BoxEnd(x, r, width);
      var startY, endY := BoxStart(y, r), BoxEnd(y, r, height);
      var i := startX;
      while i <= endX
        invariant startX <= i && (startX <= endX + 1 ==> i <= endX + 1)
        invariant forall a, b :: 0 <= a < width && 0 <= b < height ==>
                    pixels[a, b] == if a < i then CirclePixel(v0, x, y, r, c, a, b) else v0.px[a][b]
      {
        var j := startY;
        while j <= endY
          invariant startY <= j && (startY <= endY + 1 ==> j <= endY + 1)
          invariant forall a, b :: 0 <= a < width && 0 <= b < height ==>
                      pixels[a, b] == if a < i || (a == i && b < j) then CirclePixel(v0, x, y, r, c, a, b)
                                      else v0.px[a][b]
        {
          if InDisc(i, j, x, y, r) {
            AddDot(i, j, c);
          }
          j := j + 1;
        }
        i := i + 1;
      }
      ImageExt(Value(), Circle(v0, x, y, r, c));
    }

    /** reset(w, h): the w x h window whose corner is the origin, as a new
        image with origin (0,0). */
    method Reset(w: int, h: int) returns (res: PositionedImage)
      requires Valid() && w >= 1 && h >= 1
      requires origin.x + w <= width && origin.y + h <= height
      ensures res.Valid() && fresh(res) && fresh(res.pixels)
      ensures res.Value() == Raster.Reset(old(Value()), w, h)
    {
      res := new PositionedImage.Blank(kind, w, h);
      CopyWindow(res.pixels);
      var v, t := res.Value(), Raster.Reset(Value(), w, h);
      forall a, b | 0 <= a < w && 0 <= b < h
        ensures v.px[a][b] == t.px[a][b]
      {
        assert t.px[a][b] == Value().px[a + origin.x][b + origin.y];
      }
      ImageExt(v, t);
    }

    /** The copying loop of reset: `dst` receives the window whose corner is
        the origin. */
    method CopyWindow(dst: array2<Rgb>)
      requires Valid() && dst != pixels
      requires origin.x + dst.Length0 <= width && origin.y + dst.Length1 <= height
      modifies dst
      ensures forall a, b :: 0 <= a < dst.Length0 && 0 <= b < dst.Length1 ==>
                dst[a, b] == pixels[a + origin.x, b + origin.y]
    {
      for x := 0 to dst.Length0
        invariant forall a, b :: 0 <= a < x && 0 <= b < dst.Length1 ==> dst[a, b] == pixels[a + origin.x, b + origin.y]
      {
        for y := 0 to dst.Length1
          invariant forall a, b :: 0 <= a < x && 0 <= b < dst.Length1 ==> dst[a, b] == pixels[a + origin.x, b + origin.y]
          invariant forall b :: 0 <= b < y ==> dst[x, b] == pixels[x + origin.x, b + origin.y]
        {
          dst[x, y] := pixels[x + origin.x, y + origin.y];
        }
      }
    }

    /** toGreyscale: a grey copy whose origin is (0,0). */
    method ToGreyscale() returns (r: PositionedImage)
      requires Valid()
      ensures r.Valid() && fresh(r) && fresh(r.pixels)
      ensures r.Value() == Greyscale(Value())
    {
      r := new PositionedImage.Blank(ByteGray, width, height);
      var src := Value();
      r.AddImage(0, 0, src);
      PastedOntoBlank(ByteGray, src);
      ImageExt(r.Value(), Greyscale(src));
    }

    /** shearVert(s): a new image in which column x has moved down by its
        shift minus the offset; the origin follows its own pixel. */
    method ShearVert(s: real) returns (r: PositionedImage)
      requires Valid()
      ensures r.Valid() && fresh(r) && fresh(r.pixels)
      ensures r.Value() == ShearV(old(Value()), s)
    {
      ghost var v0 := Value();
      var offset := Offset(s, width, origin.x);
      var sHeight := ShearedSize(s, width, height, origin.x);
      ShiftBounds(s, width, origin.x, origin.x);
      ShiftZero(s);
      r := new PositionedImage.Blank(kind, width, sHeight);
      for x := 0 to width
        invariant r.Valid() && fresh(r) && fresh(r.pixels)
        invariant r.kind == kind && r.width == width && r.height == sHeight
        invariant r.origin == if x > origin.x then Point(origin.x, origin.y - offset) else Point(0, 0)
        invariant forall a, b :: 0 <= a < width && 0 <= b < sHeight ==> r.pixels[a, b] == ShearVPartial(v0, s, x, 0, a, b)
      {
        for y := 0 to height
          invariant r.Valid() && fresh(r) && fresh(r.pixels)
          invariant r.kind == kind && r.width == width && r.height == sHeight
          invariant r.origin == if x > origin.x || (x == origin.x && y > origin.y) then Point(origin.x, origin.y - offset)
                                else Point(0, 0)
          invariant forall a, b :: 0 <= a < width && 0 <= b < sHeight ==> r.pixels[a, b] == ShearVPartial(v0, s, x, y, a, b)
        {
          var shift := Shift(s, x - origin.x);
          var sY := y - offset + shift;
          ShiftBounds(s, width, origin.x, x);
          var p := pixels[x, y];
          assert p == v0.px[x][y];
          assert sY == y - Offset(s, v0.width, v0.origin.x) + Shift(s, x - v0.origin.x);
          label before:
          r.pixels[x, sY] := p;
          forall a, b | 0 <= a < width && 0 <= b < sHeight
            ensures r.pixels[a, b] == ShearVPartial(v0, s, x, y + 1, a, b)
          {
            ShearVPartialStep(v0, s, x, y, sY, a, b);
            if a != x || b != sY {
              assert r.pixels[a, b] == old@before(r.pixels[a, b]);
            }
          }
          if x == origin.x && y == origin.y {
            r.origin := Point(x, sY);
          }
        }
      }
      ImageExt(r.Value(), ShearV(v0, s));
    }

    /** shearHorz(s): the transpose of shearVert, row y moving right. */
    method ShearHorz(s: real) returns (r: PositionedImage)
      requires Valid()
      ensures r.Valid() && fresh(r) && fresh(r.pixels)
      ensures r.Value() == ShearH(old(Value()), s)
    {
      ghost var v0 := Value();
      var offset := Offset(s, height, origin.y);
      var sWidth := ShearedSize(s, height, width, origin.y);
      ShiftBounds(s, height, origin.y, origin.y);
      ShiftZero(s);
      r := new PositionedImage.Blank(kind, sWidth, height);
      for x := 0 to width
        invariant r.Valid() && fresh(r) && fresh(r.pixels)
        invariant r.kind == kind && r.width == sWidth && r.height == height
        invariant r.origin == if x > origin.x then Point(origin.x - offset, origin.y) else Point(0, 0)
        invariant forall a, b :: 0 <= a < sWidth && 0 <= b < height ==> r.pixels[a, b] == ShearHPartial(v0, s, x, 0, a, b)
      {
        for y := 0 to height
          invariant r.Valid() && fresh(r) && fresh(r.pixels)
          invariant r.kind == kind && r.width == sWidth && r.height == height
          invariant r.origin == if x > origin.x || (x == origin.x && y > origin.y) then Point(origin.x - offset, origin.y)
                                else Point(0, 0)
          invariant forall a, b :: 0 <= a < sWidth && 0 <= b < height ==> r.pixels[a, b] == ShearHPartial(v0, s, x, y, a, b)
        {
          var shift := Shift(s, y - origin.y);
          var sX := x - offset + shift;
          ShiftBounds(s, height, origin.y, y);
          var p := pixels[x, y];
          assert p == v0.px[x][y];
          assert sX == x - Offset(s, v0.height, v0.origin.y) + Shift(s, y - v0.origin.y);
          label before:
          r.pixels[sX, y] := p;
          forall a, b | 0 <= a < sWidth && 0 <= b < height
            ensures r.pixels[a, b] == ShearHPartial(v0, s, x, y + 1, a, b)
          {
            ShearHPartialStep(v0, s, x, y, sX, a, b);
            if a != sX || b != y {
              assert r.pixels[a, b] == old@before(r.pixels[a, b]);
            }
          }
          if x == origin.x && y == origin.y {
            r.origin := Point(sX, y);
          }
        }
      }
      ImageExt(r.Value(), ShearH(v0, s));
    }

    /** rotate: vertical, horizontal, vertical shear; alpha and beta stand
        for -tan(angle/2) and sin(angle). */
    method Rotate(alpha: real, beta: real) returns (r: PositionedImage)
      requires Valid()
      ensures r.Valid() && fresh(r) && fresh(r.pixels)
      ensures r.Value() == Raster.Rotate(old(Value()), alpha, beta)
    {
      var a := ShearVert(alpha);
      var b := a.ShearHorz(beta);
      r := b.ShearVert(alpha);
    }

    /** toHalftone(size, red, green, blue): every size-th pixel in both
        directions is sampled and a dot of the requested channels is drawn
        around it on a black copy that keeps this image's origin. */
    method ToHalftoneChannels(size: int, ch: Channels, radius: real -> real) returns (r: PositionedImage)
      requires Valid() && size >= 1
      ensures r.Valid() && fresh(r) && fresh(r.pixels)
      ensures r.Value() == HalftoneOf(old(Value()), size, ch, radius)
    {
      ghost var v0 := Value();
      r := new PositionedImage.Blank(kind, width, height);
      r.origin := origin;
      ImageExt(r.Value(), Canvas(v0));
      ghost var goal := HalftoneOf(v0, size, ch, radius);
      assert Columns(r.Value(), v0, size, ch, radius, 0) == goal;
      var x := 0;
      while x < width
        invariant x >= 0
        invariant r.Valid() && fresh(r) && fresh(r.pixels)
        invariant r.kind == kind && r.width == width && r.height == height
        invariant Columns(r.Value(), v0, size, ch, radius, x) == goal
        invariant Value() == v0
        decreases width - x
      {
        ghost var c := r.Value();
        DrawColumn(r, size, ch, radius, x);
        ghost var x0 := x;
        x := x + size;
        ColumnsStep(c, v0, size, ch, radius, x0, x, goal, r.Value());
      }
      assert Columns(r.Value(), v0, size, ch, radius, x) == r.Value();
    }

    /** The inner loop of toHalftone: the dots of column x, every size-th
        row, drawn onto `canvas`. */
    method DrawColumn(canvas: PositionedImage, size: int, ch: Channels, radius: real -> real, x: int)
      requires Valid() && canvas.Valid() && canvas.pixels != pixels && size >= 1 && 0 <= x < width
      requires canvas.width == width && canvas.height == height
      modifies canvas.pixels
      ensures canvas.Valid()
      ensures canvas.Value() == Column(old(canvas.Value()), old(Value()), size, ch, radius, x, 0)
    {
      ghost var v0 := Value();
      ghost var c0 := canvas.Value();
      var color := DotColor(ch);
      var y := 0;
      while y < height
        invariant y >= 0 && canvas.Valid()
        invariant Column(canvas.Value(), v0, size, ch, radius, x, y) == Column(c0, v0, size, ch, radius, x, 0)
        decreases height - y
      {
        var frac := Fraction(pixels[x, y], ch);
        canvas.AddCircle(x, y, radius(frac), color);
        y := y + size;
      }
    }

    /** The first two steps of a rotated pass: rotate, then halftone. */
    method TurnedDots(size: int, ch: Channels, t: Turn, radius: real -> real) returns (r: PositionedImage)
      requires Valid() && size >= 1
      ensures r.Valid() && fresh(r) && fresh(r.pixels)
      ensures r.Value() == HalftoneOf(Raster.Rotate(old(Value()), t.alpha, t.beta), size, ch, radius)
    {
      var turned := Rotate(t.alpha, t.beta);
      r := turned.ToHalftoneChannels(size, ch, radius);
    }

    /** The first three steps of a rotated pass: rotate, halftone, rotate back. */
    method DotsTurnedBack(size: int, ch: Channels, t: Turn, radius: real -> real) returns (r: PositionedImage)
      requires Valid() && size >= 1 && origin == Point(0, 0)
      ensures r.Valid() && fresh(r) && fresh(r.pixels)
      ensures r.Value() == Halftone.DotsTurnedBack(old(Value()), size, ch, t, radius)
    {
      ghost var v := Value();
      var dots := TurnedDots(size, ch, t, radius);
      ghost var dv := dots.Value();
      assert dv == HalftoneOf(Raster.Rotate(v, t.alpha, t.beta), size, ch, radius);
      r := dots.Rotate(-t.alpha, -t.beta);
      ghost var back := r.Value();
      assert back == Raster.Rotate(dv, -t.alpha, -t.beta);
      DotsTurnedBackSteps(v, size, ch, t, radius, dv, back);
    }

    /** One rotated pass (the four steps toHalftoneBW and toHalftoneRGB take
        for each channel): rotate, halftone, rotate back, cut the window out. */
    method ToHalftonePass(size: int, ch: Channels, t: Turn, radius: real -> real) returns (r: PositionedImage)
      requires Valid() && size >= 1 && origin == Point(0, 0)
      ensures r.Valid() && fresh(r) && fresh(r.pixels)
      ensures r.Value() == HalftonePass(old(Value()), size, ch, t, radius)
    {
      var back := DotsTurnedBack(size, ch, t, radius);
      r := back.Reset(width, height);
    }

    /** toHalftoneBW(size, angle): one pass over all three channels. */
    method ToHalftoneBW(size: int, t: Turn, radius: real -> real) returns (r: PositionedImage)
      requires Valid() && size >= 1 && origin == Point(0, 0)
      ensures r.Valid() && fresh(r) && fresh(r.pixels)
      ensures r.Value() == HalftoneBW(old(Value()), size, t, radius)
    {
      r := ToHalftonePass(size, Channels(true, true, true), t, radius);
    }

    /** One single-channel pass of toHalftoneRGB, added onto `acc` at (0,0)
        as the green and blue passes are added onto the red one. */
    method AddPass(acc: PositionedImage, size: int, ch: Channels, t: Turn, radius: real -> real)
      requires Valid() && size >= 1 && origin == Point(0, 0)
      requires acc.Valid() && acc.pixels != pixels
      modifies acc.pixels
      ensures acc.Valid()
      ensures acc.Value() == Pasted(old(acc.Value()), 0, 0, HalftonePass(old(Value()), size, ch, t, radius))
    {
      var pass := ToHalftonePass(size, ch, t, radius);
      acc.AddImage(0, 0, pass.Value());
    }

    /** toHalftoneRGB(size, rAngle, gAngle, bAngle): three single-channel
        passes, green and blue added onto red. */
    method ToHalftoneRGB(size: int, rt: Turn, gt: Turn, bt: Turn, radius: real -> real) returns (r: PositionedImage)
      requires Valid() && size >= 1 && origin == Point(0, 0)
      ensures r.Valid() && fresh(r) && fresh(r.pixels)
      ensures r.Value() == HalftoneRGB(old(Value()), size, rt, gt, bt, radius)
    {
      ghost var v := Value();
      r := ToHalftonePass(size, Channels(true, false, false), rt, radius);
      ghost var rv := r.Value();
      AddPass(r, size, Channels(false, true, false), gt, radius);
      assert Value() == v;
      ghost var g := HalftonePass(v, size, Channels(false, true, false), gt, radius);
      ghost var rg := r.Value();
      assert rg == Pasted(rv, 0, 0, g);
      AddPass(r, size, Channels(false, false, true), bt, radius);
      assert Value() == v;
      ghost var b := HalftonePass(v, size, Channels(false, false, true), bt, radius);
      assert r.Value() == Pasted(rg, 0, 0, b);
      HalftoneRGBPasses(v, size, rt, gt, bt, radius, rv, g, b);
    }

    /** toHalftone(size): black and white for a grey image, red, green and
        blue otherwise. */
    method ToHalftone(size: int, bw: Turn, rt: Turn, gt: Turn, bt: Turn, radius: real -> real) returns (r: PositionedImage)
      requires Valid() && size >= 1 && origin == Point(0, 0)
      ensures r.Valid() && fresh(r) && fresh(r.pixels)
      ensures r.Value() == HalftoneImage(old(Value()), size, bw, rt, gt, bt, radius)
    {
      if kind == ByteGray {
        r := ToHalftoneBW(size, bw, radius);
      } else {
        r := ToHalftoneRGB(size, rt, gt, bt, radius);
      }
    }
  }

  /** The three steps determine the image a rotated pass cuts its window from. */
  lemma DotsTurnedBackSteps(img: Image, size: int, ch: Channels, t: Turn, radius: real -> real,
                            dots: Image, back: Image)
    requires Wf(img) && size >= 1 && img.origin == Point(0, 0)
    requires dots == HalftoneOf(Raster.Rotate(img, t.alpha, t.beta), size, ch, radius)
    requires back == Raster.Rotate(dots, -t.alpha, -t.beta)
    ensures Halftone.DotsTurnedBack(img, size, ch, t, radius) == back
  {
  }

  /** One column of toHalftone's outer loop keeps the result it leads to. */
  lemma ColumnsStep(canvas: Image, src: Image, size: int, ch: Channels, radius: real -> real, x: int, x': int,
                    goal: Image, next: Image)
    requires Wf(canvas) && Wf(src) && size >= 1 && 0 <= x < src.width && x' == x + size
    requires Columns(canvas, src, size, ch, radius, x) == goal
    requires next == Column(canvas, src, size, ch, radius, x, 0)
    ensures Columns(next, src, size, ch, radius, x') == goal
  {
  }

  /** The red, green and blue passes determine toHalftoneRGB's result. */
  lemma HalftoneRGBPasses(img: Image, size: int, rt: Turn, gt: Turn, bt: Turn, radius: real -> real,
                          red: Image, green: Image, blue: Image)
    requires Wf(img) && size >= 1 && img.origin == Point(0, 0)
    requires red == HalftonePass(img, size, Channels(true, false, false), rt, radius)
    requires green == HalftonePass(img, size, Channels(false, true, false), gt, radius)
    requires blue == HalftonePass(img, size, Channels(false, false, true), bt, radius)
    ensures HalftoneRGB(img, size, rt, gt, bt, radius) == Pasted(Pasted(red, 0, 0, green), 0, 0, blue)
  {
  }

  /** The vertically sheared image partway through shearVert's loops: the
      pixels copied so far come from the columns before x and from column x
      above row y; the rest is still black. */
  function ShearVPartial(img: Image, s: real, x: int, y: int, a: int, b: int): Rgb
    requires Wf(img) && 0 <= a < img.width
  {
    var src := ShearVSource(img, s, a, b);
    if 0 <= src < img.height && (a < x || (a == x && src < y)) then img.px[a][src] else Black
  }

  /** The horizontally sheared image partway through shearHorz's loops. */
  function ShearHPartial(img: Image, s: real, x: int, y: int, a: int, b: int): Rgb
    requires Wf(img) && 0 <= b < img.height
  {
    var src := ShearHSource(img, s, a, b);
    if 0 <= src < img.width && (src < x || (src == x && b < y)) then img.px[src][b] else Black
  }

  /** One step of shearVert's inner loop fills exactly the target of (x, y). */
  lemma ShearVPartialStep(img: Image, s: real, x: int, y: int, t: int, a: int, b: int)
    requires Wf(img) && 0 <= a < img.width && 0 <= x < img.width && 0 <= y < img.height
    requires t == y - Offset(s, img.width, img.origin.x) + Shift(s, x - img.origin.x)
    ensures ShearVPartial(img, s, x, y + 1, a, b) ==
            if a == x && b == t then img.px[x][y] else ShearVPartial(img, s, x, y, a, b)
  {
  }

  /** One step of shearHorz's inner loop fills exactly the target of (x, y). */
  lemma ShearHPartialStep(img: Image, s: real, x: int, y: int, t: int, a: int, b: int)
    requires Wf(img) && 0 <= b < img.height && 0 <= x < img.width && 0 <= y < img.height
    requires t == x - Offset(s, img.height, img.origin.y) + Shift(s, y - img.origin.y)
    ensures ShearHPartial(img, s, x, y + 1, a, b) ==
            if a == t && b == y then img.px[x][y] else ShearHPartial(img, s, x, y, a, b)
  {
  }
}
