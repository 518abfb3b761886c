/**
 * Layer, ImageLayer and TextLayer (Layer.java, ImageLayer.java,
 * TextLayer.java). A layer has a fixed size, a border and a contents box
 * inside it. Java's subclasses become two classes that each own the Layer
 * they extend.
 */
module Layers {
  import opened Geometry
  import opened JavaMath
  import opened Snapping
  import opened Outcomes
  import opened Borders
  import opened Raster
  import opened Halftone

  /** The initial border: the rectangle of half the layer's size centred in
      it, corners top-left, top-right, bottom-right, bottom-left. */
  function InitialFrame(width: int, height: int): (r: seq<Point>)
    requires width >= 0 && height >= 0
    ensures |r| == 4
    ensures forall i :: 0 <= i < 4 ==> InBounds(r[i], width, height)
    ensures r[0].x == r[3].x <= r[1].x == r[2].x && r[0].y == r[1].y <= r[2].y == r[3].y
    ensures r[0] == Point(width / 4, height / 4)
    ensures r[2] == Point(width / 4 + width / 2, height / 4 + height / 2)
  {
    var cx, cy := width / 4, height / 4;
    var cw, ch := width / 2, height / 2;
    [Point(cx, cy), Point(cx + cw, cy), Point(cx + cw, cy + ch), Point(cx, cy + ch)]
  }

  class Layer {
    const width: int
    const height: int
    const border: Border
    var contentsPosition: Point
    var contentsWidth: int
    var contentsHeight: int

    /** The border is bounded by the layer's own size. */
    predicate Valid()
      reads this, border
    {
      border.Valid() && border.maxX == width && border.maxY == height
    }

    /** new Layer(width, height): contents and border are the centred
        rectangle of half the size. Every corner lies inside the layer, so the
        checking Border constructor accepts them. */
    constructor (width: int, height: int)
      requires width >= 0 && height >= 0
      ensures Valid() && fresh(border)
      ensures this.width == width && this.height == height
      ensures contentsPosition == Point(width / 4, height / 4)
      ensures contentsWidth == width / 2 && contentsHeight == height / 2
      ensures border.Vertices() == InitialFrame(width, height) && !border.gridActive
    {
      var cx, cy := width / 4, height / 4;
      var cw, ch := width / 2, height / 2;
      var xs := [cx, cx + cw, cx + cw, cx];
      var ys := [cy, cy, cy + ch, cy + ch];
      var frame := InitialFrame(width, height);
      assert forall i :: 0 <= i < 4 ==> Point(xs[i], ys[i]) == frame[i];
      var b, s := Border.Create(xs, ys, 4, width, height);
      assert s == Ok;
      assert b.slots == frame;
      this.width := width;
      this.height := height;
      border := b;
      contentsPosition := Point(cx, cy);
      contentsWidth := cw;
      contentsHeight := ch;
    }

    /** translateContents: the contents box moves; its size and the border stay. */
    method TranslateContents(dx: int, dy: int)
      requires Valid()
      modifies this
      ensures Valid() && unchanged(border)
      ensures contentsPosition == Point(old(contentsPosition).x + dx, old(contentsPosition).y + dy)
      ensures contentsWidth == old(contentsWidth) && contentsHeight == old(contentsHeight)
    {
      contentsPosition := Point(contentsPosition.x + dx, contentsPosition.y + dy);
    }

    /** translateBorder: every vertex moves, without any bounds check. */
    method TranslateBorder(dx: int, dy: int)
      requires Valid()
      modifies border
      ensures Valid() && unchanged(this)
      ensures border.Vertices() == Translated(old(border.Vertices()), dx, dy)
      ensures border.grid == old(border.grid) && border.gridActive == old(border.gridActive)
    {
      border.Translate(dx, dy);
    }

    /** translate: border and contents move by the same delta. */
    method Translate(dx: int, dy: int)
      requires Valid()
      modifies this, border
      ensures Valid()
      ensures border.Vertices() == Translated(old(border.Vertices()), dx, dy)
      ensures border.grid == old(border.grid) && border.gridActive == old(border.gridActive)
      ensures contentsPosition == Point(old(contentsPosition).x + dx, old(contentsPosition).y + dy)
      ensures contentsWidth == old(contentsWidth) && contentsHeight == old(contentsHeight)
    {
      TranslateBorder(dx, dy);
      TranslateContents(dx, dy);
    }

    /** scaleBorder: Border.scale, whose failure is passed on. */
    method ScaleBorder(factor: real) returns (s: Status)
      requires Valid()
      modifies border
      ensures Valid() && unchanged(this)
      ensures border.npoints == old(border.npoints)
      ensures border.grid == old(border.grid) && border.gridActive == old(border.gridActive)
      ensures s == Ok || s == Throws(IllegalArgument)
      ensures s == Ok ==> border.slots == old(border.ScaledSlots(factor, true))
      ensures s == Ok ==> forall i :: 0 <= i < |border.slots| ==> border.ValidPoint(border.slots[i])
      ensures s != Ok ==> border.PartlyScaled(old(border.slots), old(border.ScaledSlots(factor, true)))
      ensures Reachable(width, height, border.grid, border.gridActive) ==> s == Ok
    {
      s := border.ScaleAsWritten(factor);
    }

    /** Places the contents box, as the subclasses do by assigning the
        protected contents fields. */
    method Place(position: Point, w: int, h: int)
      requires Valid()
      modifies this
      ensures Valid() && unchanged(border)
      ensures contentsPosition == position && contentsWidth == w && contentsHeight == h
    {
      contentsPosition, contentsWidth, contentsHeight := position, w, h;
    }

    /** scaleContents: the contents corner moves by `factor` about the centre
        of the border's bounds, and the contents size is multiplied by it,
        both rounded with Math.round. A factor of 1 changes nothing. */
    method ScaleContents(factor: real)
      requires Valid()
      modifies this
      ensures Valid() && unchanged(border)
      ensures contentsPosition == ScaledAbout(old(contentsPosition), border.Centre().0, border.Centre().1, factor)
      ensures contentsWidth == ScaledSize(old(contentsWidth), factor)
      ensures contentsHeight == ScaledSize(old(contentsHeight), factor)
    {
      var (cx, cy) := border.Centre();
      contentsPosition := ScaledAbout(contentsPosition, cx, cy, factor);
      contentsWidth := ScaledSize(contentsWidth, factor);
      contentsHeight := ScaledSize(contentsHeight, factor);
    }

    /** scale: the border first, then the contents about the scaled border's
        centre; a failing border scale stops before the contents. */
    method Scale(factor: real) returns (s: Status)
      requires Valid()
      modifies this, border
      ensures Valid()
      ensures s != Ok ==> contentsPosition == old(contentsPosition) &&
                          contentsWidth == old(contentsWidth) && contentsHeight == old(contentsHeight)
      ensures s == Ok ==> contentsPosition == ScaledAbout(old(contentsPosition), border.Centre().0, border.Centre().1, factor)
      ensures s == Ok ==> contentsWidth == ScaledSize(old(contentsWidth), factor) &&
                          contentsHeight == ScaledSize(old(contentsHeight), factor)
      ensures border.npoints == old(border.npoints)
      ensures border.grid == old(border.grid) && border.gridActive == old(border.gridActive)
      ensures s == Ok || s == Throws(IllegalArgument)
      ensures s == Ok ==> border.slots == old(border.ScaledSlots(factor, true))
      ensures s != Ok ==> border.PartlyScaled(old(border.slots), old(border.ScaledSlots(factor, true)))
      ensures Reachable(width, height, border.grid, border.gridActive) ==> s == Ok
    {
      s := ScaleBorder(factor);
      if s == Ok {
        ScaleContents(factor);
      }
    }
  }

  /** The effect an image layer shows; the Java strings GREYSCALE,
      RGB_HALFTONE and BW_HALFTONE, or null for none. */
  datatype Effect = NoEffect | GreyEffect | RgbHalftoneEffect | BwHalftoneEffect

  class ImageLayer {
    const layer: Layer
    var image: Option<Image>
    var greyscale: Option<Image>
    var rgbHalftone: Option<Image>
    var bwHalftone: Option<Image>
    var halftoneSize: int
    var effect: Effect

    /** The halftone size is unset (-1) or at least 2; the image, when set,
        has its origin at (0,0); the greyscale cache, when filled, is the
        greyscale copy of the current image. The two halftone caches can be
        set from outside and obey nothing more. */
    predicate Valid()
      reads this, layer, layer.border
    {
      layer.Valid() && (halftoneSize == -1 || halftoneSize >= 2) &&
      (image.Some? ==> Wf(image.value) && image.value.origin == Point(0, 0)) &&
      (greyscale.Some? ==> image.Some? && greyscale.value == Greyscale(image.value))
    }

    /** new ImageLayer(width, height): no image, no effect, empty caches,
        halftone size -1. */
    constructor (width: int, height: int)
      requires width >= 0 && height >= 0
      ensures Valid() && fresh(layer) && fresh(layer.border)
      ensures layer.width == width && layer.height == height && !layer.border.gridActive
      ensures image.None? && greyscale.None? && rgbHalftone.None? && bwHalftone.None?
      ensures halftoneSize == -1 && effect == NoEffect
    {
      layer := new Layer(width, height);
      image, greyscale, rgbHalftone, bwHalftone := None, None, None, None;
      halftoneSize := -1;
      effect := NoEffect;
    }

    /** setType */
    method SetEffect(e: Effect)
      requires Valid()
      modifies this
      ensures Valid() && effect == e
      ensures image == old(image) && greyscale == old(greyscale) && halftoneSize == old(halftoneSize)
      ensures rgbHalftone == old(rgbHalftone) && bwHalftone == old(bwHalftone)
    {
      effect := e;
    }

    /** setHalftoneSize: below 2 is refused; a different size empties both
        halftone caches, the same size keeps them. */
    method SetHalftoneSize(size: int) returns (s: Status)
      requires Valid()
      modifies this
      ensures Valid()
      ensures image == old(image) && greyscale == old(greyscale) && effect == old(effect)
      ensures size < 2 ==> s == Throws(IllegalArgument) && halftoneSize == old(halftoneSize) &&
                           rgbHalftone == old(rgbHalftone) && bwHalftone == old(bwHalftone)
      ensures size >= 2 ==> s == Ok && halftoneSize == size
      ensures size >= 2 && size != old(halftoneSize) ==> rgbHalftone.None? && bwHalftone.None?
      ensures size == old(halftoneSize) ==> rgbHalftone == old(rgbHalftone) && bwHalftone == old(bwHalftone)
    {
      if size < 2 {
        return Throws(IllegalArgument);
      }
      if size != halftoneSize {
        rgbHalftone := None;
        bwHalftone := None;
      }
      halftoneSize := size;
      s := Ok;
    }

    /** getGreyscale: null without an image; otherwise the cached copy,
        computed on first use. */
    method GetGreyscale() returns (r: Option<Image>)
      requires Valid()
      modifies this
      ensures Valid()
      ensures image.None? ==> r.None?
      ensures image.Some? ==> r == Some(Greyscale(image.value))
      ensures greyscale == if image.Some? then r else old(greyscale)
      ensures image == old(image) && rgbHalftone == old(rgbHalftone) && bwHalftone == old(bwHalftone)
      ensures halftoneSize == old(halftoneSize) && effect == old(effect)
    {
      if image.None? {
        return None;
      }
      if greyscale.None? {
        greyscale := Some(Greyscale(image.value));
      }
      r := greyscale;
    }

    /** getRGBHalftone: null without an image; otherwise the cached halftone,
        computed on first use. Computing it before any halftone size was set
        steps the sampling loop by -1 onto row -1, which throws. */
    method GetRGBHalftone(sc: Screen) returns (r: Option<Image>, s: Status)
      requires Valid()
      modifies this
      ensures Valid()
      ensures image == old(image) && greyscale == old(greyscale) && bwHalftone == old(bwHalftone)
      ensures halftoneSize == old(halftoneSize) && effect == old(effect)
      ensures image.None? ==> s == Ok && r.None? && rgbHalftone == old(rgbHalftone)
      ensures image.Some? && old(rgbHalftone).Some? ==> s == Ok && r == old(rgbHalftone) && rgbHalftone == r
      ensures image.Some? && old(rgbHalftone).None? && halftoneSize == -1 ==>
                s == Throws(IndexOutOfBounds) && r.None? && rgbHalftone.None?
      ensures image.Some? && old(rgbHalftone).None? && halftoneSize >= 2 ==>
                s == Ok && r == Some(Halftoned(image.value, halftoneSize, sc)) && rgbHalftone == r
    {
      if image.None? {
        return None, Ok;
      }
      if rgbHalftone.None? {
        if halftoneSize == -1 {
          return None, Throws(IndexOutOfBounds);
        }
        rgbHalftone := Some(Halftoned(image.value, halftoneSize, sc));
      }
      r, s := rgbHalftone, Ok;
    }

    /** getBWHalftone: like getRGBHalftone, computed from the greyscale copy,
        which is fetched (and cached) first, even when the halftone then throws. */
    method GetBWHalftone(sc: Screen) returns (r: Option<Image>, s: Status)
      requires Valid()
      modifies this
      ensures Valid()
      ensures image == old(image) && rgbHalftone == old(rgbHalftone)
      ensures halftoneSize == old(halftoneSize) && effect == old(effect)
      ensures image.None? ==> s == Ok && r.None? && bwHalftone == old(bwHalftone) && greyscale == old(greyscale)
      ensures image.Some? && old(bwHalftone).Some? ==>
                s == Ok && r == old(bwHalftone) && bwHalftone == r && greyscale == old(greyscale)
      ensures image.Some? && old(bwHalftone).None? ==> greyscale == Some(Greyscale(image.value))
      ensures image.Some? && old(bwHalftone).None? && halftoneSize == -1 ==>
                s == Throws(IndexOutOfBounds) && r.None? && bwHalftone.None?
      ensures image.Some? && old(bwHalftone).None? && halftoneSize >= 2 ==>
                s == Ok && r == Some(Halftoned(Greyscale(image.value), halftoneSize, sc)) && bwHalftone == r
    {
      if image.None? {
        return None, Ok;
      }
      if bwHalftone.None? {
        var grey := GetGreyscale();
        if halftoneSize == -1 {
          return None, Throws(IndexOutOfBounds);
        }
        bwHalftone := Some(Halftoned(grey.value, halftoneSize, sc));
      }
      r, s := bwHalftone, Ok;
    }

    /** getImage: the image with the current effect applied. */
    method GetImage(sc: Screen) returns (r: Option<Image>, s: Status)
      requires Valid()
      modifies this
      ensures Valid()
      ensures image == old(image) && halftoneSize == old(halftoneSize) && effect == old(effect)
      ensures effect == NoEffect ==> s == Ok && r == image && unchanged(this)
      ensures effect == GreyEffect ==> s == Ok && r == (if image.Some? then Some(Greyscale(image.value)) else None)
      ensures effect == RgbHalftoneEffect && image.Some? && old(rgbHalftone).None? && halftoneSize >= 2 ==>
                s == Ok && r == Some(Halftoned(image.value, halftoneSize, sc))
      ensures effect == BwHalftoneEffect && image.Some? && old(bwHalftone).None? && halftoneSize >= 2 ==>
                s == Ok && r == Some(Halftoned(Greyscale(image.value), halftoneSize, sc))
      ensures effect == RgbHalftoneEffect || effect == BwHalftoneEffect ==>
                (image.None? ==> s == Ok && r.None?)
      ensures effect == RgbHalftoneEffect && image.Some? && old(rgbHalftone).Some? ==> s == Ok && r == old(rgbHalftone)
      ensures effect == BwHalftoneEffect && image.Some? && old(bwHalftone).Some? ==> s == Ok && r == old(bwHalftone)
      ensures effect == RgbHalftoneEffect && image.Some? && old(rgbHalftone).None? && halftoneSize == -1 ==>
                s == Throws(IndexOutOfBounds) && r.None?
      ensures effect == BwHalftoneEffect && image.Some? && old(bwHalftone).None? && halftoneSize == -1 ==>
                s == Throws(IndexOutOfBounds) && r.None?
      ensures effect == GreyEffect ==>
                greyscale == (if image.Some? then r else old(greyscale)) &&
                rgbHalftone == old(rgbHalftone) && bwHalftone == old(bwHalftone)
      ensures effect == RgbHalftoneEffect ==>
                greyscale == old(greyscale) && bwHalftone == old(bwHalftone) &&
                rgbHalftone == (if image.Some? then r else old(rgbHalftone))
      ensures effect == BwHalftoneEffect ==>
                rgbHalftone == old(rgbHalftone) &&
                bwHalftone == (if image.Some? then r else old(bwHalftone)) &&
                greyscale == (if image.Some? && old(bwHalftone).None? then Some(Greyscale(image.value)) else old(greyscale))
    {
      match effect {
        case NoEffect =>
          r, s := image, Ok;
        case GreyEffect =>
          r := GetGreyscale();
          s := Ok;
        case RgbHalftoneEffect =>
          r, s := GetRGBHalftone(sc);
        case BwHalftoneEffect =>
          r, s := GetBWHalftone(sc);
      }
    }

    /** setRGBHalftone: the size is set first (emptying the caches when it
        changes); if it is accepted the RGB cache holds the given image. */
    method SetRGBHalftone(img: Image, size: int) returns (s: Status)
      requires Valid()
      modifies this
      ensures Valid()
      ensures image == old(image) && greyscale == old(greyscale) && effect == old(effect)
      ensures size < 2 ==> s == Throws(IllegalArgument) && halftoneSize == old(halftoneSize) &&
                           rgbHalftone == old(rgbHalftone) && bwHalftone == old(bwHalftone)
      ensures size >= 2 ==> s == Ok && halftoneSize == size && rgbHalftone == Some(img)
      ensures size >= 2 ==> bwHalftone == if size == old(halftoneSize) then old(bwHalftone) else None
    {
      s := SetHalftoneSize(size);
      if s == Ok {
        rgbHalftone := Some(img);
      }
    }

    /** setBWHalftone: the same for the black and white cache. */
    method SetBWHalftone(img: Image, size: int) returns (s: Status)
      requires Valid()
      modifies this
      ensures Valid()
      ensures image == old(image) && greyscale == old(greyscale) && effect == old(effect)
      ensures size < 2 ==> s == Throws(IllegalArgument) && halftoneSize == old(halftoneSize) &&
                           rgbHalftone == old(rgbHalftone) && bwHalftone == old(bwHalftone)
      ensures size >= 2 ==> s == Ok && halftoneSize == size && bwHalftone == Some(img)
      ensures size >= 2 ==> rgbHalftone == if size == old(halftoneSize) then old(rgbHalftone) else None
    {
      s := SetHalftoneSize(size);
      if s == Ok {
        bwHalftone := Some(img);
      }
    }

    /** setImage: the new image, every cache emptied, no effect, and the
        contents box scaled by the cover factor of the border's bounds and
        centred on them. */
    method SetImage(img: Image)
      requires Valid() && Wf(img) && img.origin == Point(0, 0)
      modifies this, layer
      ensures Valid() && unchanged(layer.border)
      ensures image == Some(img) && greyscale.None? && rgbHalftone.None? && bwHalftone.None?
      ensures effect == NoEffect && halftoneSize == old(halftoneSize)
      ensures var rect := Bounds(layer.border.Vertices());
              var factor := CoverFactor(rect.width, rect.height, img.width, img.height);
              layer.contentsWidth == CoveredSide(img.width, factor) &&
              layer.contentsHeight == CoveredSide(img.height, factor) &&
              layer.contentsPosition == Point(CentredStart(rect.x, rect.width, layer.contentsWidth),
                                              CentredStart(rect.y, rect.height, layer.contentsHeight))
    {
      image := Some(img);
      greyscale, rgbHalftone, bwHalftone := None, None, None;
      effect := NoEffect;
      var rect := Bounds(layer.border.Vertices());
      var factor := CoverFactor(rect.width, rect.height, img.width, img.height);
      var cw := CoveredSide(img.width, factor);
      var ch := CoveredSide(img.height, factor);
      CoverFactorCovers(rect.width, rect.height, img.width, img.height);
      layer.Place(Point(CentredStart(rect.x, rect.width, cw), CentredStart(rect.y, rect.height, ch)), cw, ch);
    }

    /** imageSet as written: true when NO image is set. */
    predicate ImageSet()
      reads this
    {
      image.None?
    }

    /** greyscaleSet as written: true when the greyscale copy is NOT cached. */
    predicate GreyscaleSet()
      reads this
    {
      greyscale.None?
    }

    /** rgbHalftoneSet as written: true when the RGB halftone is NOT cached. */
    predicate RgbHalftoneSet()
      reads this
    {
      rgbHalftone.None?
    }

    /** bwHalftoneSet as written: true when the black and white halftone is NOT cached. */
    predicate BwHalftoneSet()
      reads this
    {
      bwHalftone.None?
    }

    /** imageSet as documented: true once an image has been set. */
    predicate ImageIsSet()
      reads this
    {
      image.Some?
    }

    /** greyscaleSet as documented: true once the greyscale copy is cached. */
    predicate GreyscaleIsSet()
      reads this
    {
      greyscale.Some?
    }

    /** rgbHalftoneSet as documented. */
    predicate RgbHalftoneIsSet()
      reads this
    {
      rgbHalftone.Some?
    }

    /** bwHalftoneSet as documented. */
    predicate BwHalftoneIsSet()
      reads this
    {
      bwHalftone.Some?
    }

    /** The four predicates as written answer the opposite of what they
        document, in every state. */
    lemma SetPredicatesInverted()
      ensures ImageSet() <==> !ImageIsSet()
      ensures GreyscaleSet() <==> !GreyscaleIsSet()
      ensures RgbHalftoneSet() <==> !RgbHalftoneIsSet()
      ensures BwHalftoneSet() <==> !BwHalftoneIsSet()
    {
    }
  }

  /** `(int) Math.round(n * factor)`: a contents side after scaling. */
  function ScaledSize(n: int, factor: real): (r: int)
    ensures factor == 1.0 ==> r == n
    ensures n >= 0 && factor >= 0.0 ==> r >= 0
  {
    assert n as real * 1.0 == n as real;
    Round(n as real * factor)
  }

  /** `TEXT_FONT.getSize2D() * factor`: the font size after scaling. */
  function ScaledFontSize(size: real, factor: real): (r: real)
    ensures factor == 1.0 ==> r == size
    ensures size >= 0.0 && factor >= 0.0 ==> r >= 0.0
  {
    size * factor
  }

  /** The larger of the two ratios between the bounds and the image: the
      factor that makes the image cover the bounds without stretching. */
  function CoverFactor(boundW: int, boundH: int, w: int, h: int): (f: real)
    requires boundW >= 0 && boundH >= 0 && w >= 1 && h >= 1
    ensures f >= boundW as real / w as real && f >= boundH as real / h as real
    ensures f == boundW as real / w as real || f == boundH as real / h as real
  {
    var wFactor := boundW as real / w as real;
    var hFactor := boundH as real / h as real;
    if wFactor > hFactor then wFactor else hFactor
  }

  /** `(int) (size * factor)`: one side of the image, scaled. */
  function CoveredSide(size: int, factor: real): int
  {
    Trunc(size as real * factor)
  }

  /** `(int) (start + (bound - covered) / 2d)`: where a side of length
      `covered` starts when centred on a side of length `bound`. A side that
      covers the bound starts no later than the bound does, and the excess
      is split evenly up to the truncation. */
  function CentredStart(start: int, bound: int, covered: int): (r: int)
    ensures covered >= bound ==> r <= start
    ensures start as real + (bound - covered) as real / 2.0 - 1.0 < r as real
  {
    Trunc(start as real + (bound - covered) as real / 2.0)
  }

  /** A side scaled by at least bound / size is at least bound long, and
      exactly bound long when scaled by that ratio itself. */
  lemma CoveredSideCovers(bound: int, size: int, factor: real)
    requires bound >= 0 && size >= 1 && factor >= bound as real / size as real
    ensures CoveredSide(size, factor) >= bound
    ensures factor == bound as real / size as real ==> CoveredSide(size, factor) == bound
  {
    var q := bound as real / size as real;
    assert size as real * q == bound as real;
    assert size as real * factor - size as real * q == size as real * (factor - q);
    assert size as real * (factor - q) >= 0.0;
  }

  /** Scaled by the cover factor, the image covers the bounds in both
      directions and fits them exactly in at least one. */
  lemma CoverFactorCovers(boundW: int, boundH: int, w: int, h: int)
    requires boundW >= 0 && boundH >= 0 && w >= 1 && h >= 1
    ensures var f := CoverFactor(boundW, boundH, w, h);
            CoveredSide(w, f) >= boundW && CoveredSide(h, f) >= boundH &&
            (CoveredSide(w, f) == boundW || CoveredSide(h, f) == boundH)
  {
    var f := CoverFactor(boundW, boundH, w, h);
    CoveredSideCovers(boundW, w, f);
    CoveredSideCovers(boundH, h, f);
  }

  class TextLayer {
    const layer: Layer
    var text: Option<string>
    /** The size of the text font, in points. */
    var fontSize: real

    predicate Valid()
      reads this, layer, layer.border
    {
      layer.Valid()
    }

    /** new TextLayer(width, height): no text yet. */
    constructor (width: int, height: int)
      requires width >= 0 && height >= 0
      ensures Valid() && fresh(layer) && fresh(layer.border)
      ensures layer.width == width && layer.height == height && !layer.border.gridActive
      ensures text.None? && fontSize == 16.0
    {
      layer := new Layer(width, height);
      text := None;
      fontSize := 16.0;
    }

    /** appendText: type one character. On the first character the contents
        box becomes the border's bounds, its left edge moved 3 pixels in;
        later characters change only the text. A backspace before any text
        dereferences the missing text and throws. */
    method AppendText(c: char) returns (s: Status)
      requires Valid()
      modifies this, layer
      ensures Valid() && unchanged(layer.border) && fontSize == old(fontSize)
      ensures old(text).None? && c == Backspace ==> s == Throws(NullPointer) && unchanged(this) && unchanged(layer)
      ensures old(text).None? && c != Backspace ==>
                s == Ok && text == Some(Typed([], c)) &&
                var rect := Bounds(layer.border.Vertices());
                layer.contentsPosition == Point(rect.x + 3, rect.y) &&
                layer.contentsWidth == rect.width && layer.contentsHeight == rect.height
      ensures old(text).Some? ==>
                s == Ok && text == Some(Typed(old(text).value, c)) && unchanged(layer)
    {
      var piece: string;
      if c == 10 as char || c == 13 as char {
        piece := "\n";
      } else if c == Backspace {
        piece := "";
        if text.None? {
          return Throws(NullPointer);
        }
        if |text.value| > 0 {
          text := Some(text.value[..|text.value| - 1]);
        }
      } else {
        piece := [c];
      }
      if text.None? {
        var rect := Bounds(layer.border.Vertices());
        layer.Place(Point(rect.x + 3, rect.y), rect.width, rect.height);
        text := Some(piece);
      } else {
        assert text.value + "" == text.value;
        text := Some(text.value + piece);
      }
      s := Ok;
    }

    /** scaleContents, overridden: the Layer's contents scaling, and the
        font size multiplied by the factor. */
    method ScaleContents(factor: real)
      requires Valid()
      modifies this, layer
      ensures Valid() && unchanged(layer.border) && text == old(text)
      ensures fontSize == ScaledFontSize(old(fontSize), factor)
      ensures layer.contentsPosition ==
                ScaledAbout(old(layer.contentsPosition), layer.border.Centre().0, layer.border.Centre().1, factor)
      ensures layer.contentsWidth == ScaledSize(old(layer.contentsWidth), factor)
      ensures layer.contentsHeight == ScaledSize(old(layer.contentsHeight), factor)
    {
      fontSize := ScaledFontSize(fontSize, factor);
      layer.ScaleContents(factor);
    }

    /** scale, reaching the overriding scaleContents: the border, then the
        contents and the font; a failing border scale changes neither. */
    method Scale(factor: real) returns (s: Status)
      requires Valid()
      modifies this, layer, layer.border
      ensures Valid() && text == old(text)
      ensures s != Ok ==> fontSize == old(fontSize) && layer.contentsPosition == old(layer.contentsPosition) &&
                          layer.contentsWidth == old(layer.contentsWidth) &&
                          layer.contentsHeight == old(layer.contentsHeight)
      ensures s == Ok ==> fontSize == ScaledFontSize(old(fontSize), factor)
      ensures s == Ok ==>
                layer.contentsPosition == ScaledAbout(old(layer.contentsPosition), layer.border.Centre().0, layer.border.Centre().1, factor)
      ensures s == Ok ==> layer.contentsWidth == ScaledSize(old(layer.contentsWidth), factor) &&
                          layer.contentsHeight == ScaledSize(old(layer.contentsHeight), factor)
      ensures layer.border.npoints == old(layer.border.npoints)
      ensures layer.border.grid == old(layer.border.grid) && layer.border.gridActive == old(layer.border.gridActive)
      ensures s == Ok || s == Throws(IllegalArgument)
      ensures s == Ok ==> layer.border.slots == old(layer.border.ScaledSlots(factor, true))
      ensures s != Ok ==> layer.border.PartlyScaled(old(layer.border.slots), old(layer.border.ScaledSlots(factor, true)))
      ensures Reachable(layer.width, layer.height, layer.border.grid, layer.border.gridActive) ==> s == Ok
    {
      s := layer.ScaleBorder(factor);
      if s == Ok {
        ScaleContents(factor);
      }
    }
  }

  /** The backspace character, (char) 8. */
  const Backspace: char := 8 as char

  /** The text after typing c: line feed and carriage return both add a
      newline, backspace removes the last character if there is one, any
      other character is added as it is. */
  function Typed(text: string, c: char): (r: string)
    ensures c != Backspace ==> |r| == |text| + 1 && r[..|text|] == text
    ensures c != Backspace ==> r[|text|] == if c == 10 as char || c == 13 as char then '\n' else c
    ensures c == Backspace ==> r == if |text| > 0 then text[..|text| - 1] else text
  {
    if c == 10 as char || c == 13 as char then text + "\n"
    else if c == Backspace then (if |text| > 0 then text[..|text| - 1] else text)
    else text + [c]
  }

  /** A backspace undoes any other character. */
  lemma BackspaceUndoes(text: string, c: char)
    requires c != Backspace
    ensures Typed(Typed(text, c), Backspace) == text
  {
  }
}
