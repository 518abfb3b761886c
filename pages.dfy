/**
 * ComicPage and ComicBook (ComicPage.java, ComicBook.java): ordered lists
 * of layers and of pages that are never left empty.
 */
module Pages {
  import opened Outcomes
  import opened Lists
  import opened Layers

  /** A page's layer is an ImageLayer or a TextLayer. */
  datatype AnyLayer = ImageL(image: ImageLayer) | TextL(text: TextLayer)

  /** The Layer part either kind of layer extends. */
  function LayerOf(a: AnyLayer): Layer
  {
    match a
    case ImageL(il) => il.layer
    case TextL(tl) => tl.layer
  }

  /** Every layer in `ls` has the given size. */
  predicate AllSized(ls: seq<AnyLayer>, width: int, height: int)
  {
    forall a :: a in ls ==> LayerOf(a).width == width && LayerOf(a).height == height
  }

  class ComicPage {
    const width: int
    const height: int
    var layers: seq<AnyLayer>

    /** A page always holds at least one layer. */
    predicate Valid()
      reads this
    {
      width >= 0 && height >= 0 && |layers| >= 1
    }

    /** Every layer has the page's size, as the page promises of its layers;
        addLayer does not check it, so it is kept apart from Valid. */
    predicate Uniform()
      reads this
    {
      AllSized(layers, width, height)
    }

    /** new ComicPage(width, height): one blank image layer. */
    constructor (width: int, height: int)
      requires width >= 0 && height >= 0
      ensures Valid() && Uniform() && this.width == width && this.height == height
      ensures |layers| == 1 && layers[0].ImageL? && fresh(LayerOf(layers[0])) && fresh(layers[0].image)
    {
      this.width := width;
      this.height := height;
      var il := new ImageLayer(width, height);
      layers := [ImageL(il)];
    }

    /** addLayer: insert at `index`, shifting the later layers; an index
        outside 0..noOfLayers() throws and changes nothing. The page stays
        uniform exactly when the added layer has the page's size. */
    method AddLayer(index: int, l: AnyLayer) returns (s: Status)
      requires Valid()
      modifies this
      ensures Valid()
      ensures !(0 <= index <= |old(layers)|) ==> s == Throws(IndexOutOfBounds) && layers == old(layers)
      ensures 0 <= index <= |old(layers)| ==> s == Ok && layers == Inserted(old(layers), index, l)
      ensures s == Ok ==> (Uniform() <==> old(Uniform()) && LayerOf(l).width == width && LayerOf(l).height == height)
    {
      if !(0 <= index <= |layers|) {
        return Throws(IndexOutOfBounds);
      }
      InsertedMultiset(layers, index, l);
      assert forall a :: a in Inserted(layers, index, l) <==> a in multiset(layers) + multiset{l};
      layers := Inserted(layers, index, l);
      s := Ok;
    }

    /** addImageLayer: a new blank image layer of the page's size on top. */
    method AddImageLayer()
      requires Valid()
      modifies this
      ensures Valid() && (Uniform() <==> old(Uniform()))
      ensures |layers| == |old(layers)| + 1 && layers[..|old(layers)|] == old(layers)
      ensures layers[|layers| - 1].ImageL?
      ensures var top := layers[|layers| - 1];
              fresh(top.image) && fresh(LayerOf(top)) && fresh(LayerOf(top).border) &&
              top.image.image.None? && top.image.effect == NoEffect &&
              LayerOf(top).Valid() && !LayerOf(top).border.gridActive
    {
      var il := new ImageLayer(width, height);
      layers := layers + [ImageL(il)];
    }

    /** addTextLayer: a new empty text layer of the page's size on top. */
    method AddTextLayer()
      requires Valid()
      modifies this
      ensures Valid() && (Uniform() <==> old(Uniform()))
      ensures |layers| == |old(layers)| + 1 && layers[..|old(layers)|] == old(layers)
      ensures layers[|layers| - 1].TextL?
      ensures var top := layers[|layers| - 1];
              fresh(top.text) && fresh(LayerOf(top)) && fresh(LayerOf(top).border) &&
              top.text.text.None? && LayerOf(top).Valid() && !LayerOf(top).border.gridActive
    {
      var tl := new TextLayer(width, height);
      layers := layers + [TextL(tl)];
    }

    /** removeLayer: delete the layer at `index`; a page left empty gets a
        new blank image layer. An index outside 0..noOfLayers()-1 throws and
        changes nothing. */
    method RemoveLayer(index: int) returns (s: Status)
      requires Valid()
      modifies this
      ensures Valid() && (old(Uniform()) ==> Uniform())
      ensures !(0 <= index < |old(layers)|) ==> s == Throws(IndexOutOfBounds) && layers == old(layers)
      ensures 0 <= index < |old(layers)| && |old(layers)| >= 2 ==> s == Ok && layers == Removed(old(layers), index)
      ensures 0 <= index < |old(layers)| && |old(layers)| == 1 ==>
                s == Ok && |layers| == 1 && layers[0].ImageL? && fresh(layers[0].image) &&
                fresh(LayerOf(layers[0])) && fresh(LayerOf(layers[0]).border) &&
                layers[0].image.image.None? && !LayerOf(layers[0]).border.gridActive && LayerOf(layers[0]).Valid()
    {
      if !(0 <= index < |layers|) {
        return Throws(IndexOutOfBounds);
      }
      RemovedMultiset(layers, index);
      assert forall a :: a in Removed(layers, index) ==> a in multiset(layers);
      layers := Removed(layers, index);
      if |layers| == 0 {
        var il := new ImageLayer(width, height);
        layers := [ImageL(il)];
      }
      s := Ok;
    }

    /** getLayer: the layer at `index`, or None where LinkedList.get throws
        IndexOutOfBoundsException. */
    function GetLayer(index: int): (r: Option<AnyLayer>)
      reads this
      ensures r.Some? <==> 0 <= index < |layers|
      ensures r.Some? ==> r.value == layers[index] && r.value in layers
    {
      if 0 <= index < |layers| then Some(layers[index]) else None
    }

    /** noOfLayers: the length of the list, never 0 on a valid page. */
    function NoOfLayers(): (n: int)
      reads this
      ensures n == |layers|
      ensures Valid() ==> n >= 1
    {
      |layers|
    }
  }

  class ComicBook {
    const width: int
    const height: int
    var pages: seq<ComicPage>

    /** A book always holds at least one page, and every page has the
        book's size. */
    predicate Valid()
      reads this
    {
      width >= 0 && height >= 0 && |pages| >= 1 &&
      forall i :: 0 <= i < |pages| ==> pages[i].width == width && pages[i].height == height
    }

    /** new ComicBook(width, height): one blank page. */
    constructor (width: int, height: int)
      requires width >= 0 && height >= 0
      ensures Valid() && this.width == width && this.height == height
      ensures |pages| == 1 && fresh(pages[0]) && pages[0].Valid() && pages[0].Uniform() && |pages[0].layers| == 1
    {
      this.width := width;
      this.height := height;
      var page := new ComicPage(width, height);
      pages := [page];
    }

    /** addPage: a new blank page at the end. */
    method AddPage()
      requires Valid()
      modifies this
      ensures Valid()
      ensures |pages| == |old(pages)| + 1 && pages[..|old(pages)|] == old(pages)
      ensures var last := pages[|pages| - 1];
              fresh(last) && last.Valid() && last.Uniform() && |last.layers| == 1
    {
      var page := new ComicPage(width, height);
      pages := pages + [page];
    }

    /** removePage: delete the page at `index`; a book left empty gets a new
        blank page. An index outside 0..noOfPages()-1 throws and changes
        nothing. */
    method RemovePage(index: int) returns (s: Status)
      requires Valid()
      modifies this
      ensures Valid()
      ensures !(0 <= index < |old(pages)|) ==> s == Throws(IndexOutOfBounds) && pages == old(pages)
      ensures 0 <= index < |old(pages)| && |old(pages)| >= 2 ==> s == Ok && pages == Removed(old(pages), index)
      ensures 0 <= index < |old(pages)| && |old(pages)| == 1 ==>
                s == Ok && |pages| == 1 && fresh(pages[0]) && pages[0].Valid() && pages[0].Uniform() &&
                |pages[0].layers| == 1
    {
      if !(0 <= index < |pages|) {
        return Throws(IndexOutOfBounds);
      }
      pages := Removed(pages, index);
      if |pages| == 0 {
        var page := new ComicPage(width, height);
        pages := [page];
      }
      s := Ok;
    }

    /** getPage: the page at `index`, or None where LinkedList.get throws. */
    function GetPage(index: int): (r: Option<ComicPage>)
      reads this
      ensures r.Some? <==> 0 <= index < |pages|
      ensures r.Some? ==> r.value == pages[index]
      ensures r.Some? && Valid() ==> r.value.width == width && r.value.height == height
    {
      if 0 <= index < |pages| then Some(pages[index]) else None
    }

    /** noOfPages: the length of the list, never 0 in a valid book. */
    function NoOfPages(): (n: int)
      reads this
      ensures n == |pages|
      ensures Valid() ==> n >= 1
    {
      |pages|
    }
  }
}
