/**
 * The layer buttons of LayerPanel (LayerPanel.java, actionPerformed): the
 * selected layer index and the page's layer list as a small state machine.
 */
module Panel {
  import opened JavaMath
  import opened Outcomes
  import opened Lists
  import opened Borders
  import opened Layers
  import opened Pages

  /** The seven buttons. */
  datatype Command =
    | PrevLayer | NextLayer | MoveLayerUp | MoveLayerDown
    | AddImageLayer | AddTextLayer | DeleteLayer

  /** The grid spacing the editor uses, ComicBookState.GRID. */
  const Grid: int := 20

  /** `(l - 1 + n) % n`: the layer below, the bottom one wrapping to the top. */
  function Prev(l: int, n: int): (r: int)
    requires 0 <= l < n
    ensures 0 <= r < n
    ensures l >= 1 ==> r == l - 1
    ensures l == 0 ==> r == n - 1
  {
    RemNonNegative(l - 1 + n, n);
    if l >= 1 then
      LatticeMod(l - 1, n, 1);
      Rem(l - 1 + n, n)
    else
      LatticeMod(n - 1, n, 0);
      Rem(l - 1 + n, n)
  }

  /** `(l + 1 + n) % n`: the layer above, the top one wrapping to the bottom. */
  function Next(l: int, n: int): (r: int)
    requires 0 <= l < n
    ensures 0 <= r < n
    ensures l < n - 1 ==> r == l + 1
    ensures l == n - 1 ==> r == 0
  {
    RemNonNegative(l + 1 + n, n);
    if l < n - 1 then
      LatticeMod(l + 1, n, 1);
      Rem(l + 1 + n, n)
    else
      LatticeMod(0, n, 2);
      Rem(l + 1 + n, n)
  }

  /** Next then Prev, or Prev then Next, comes back to the same layer. */
  lemma PrevNextInverse(l: int, n: int)
    requires 0 <= l < n
    ensures Prev(Next(l, n), n) == l
    ensures Next(Prev(l, n), n) == l
  {
  }

  /** The selection after DELETE: one lower when it pointed past the new end. */
  function AfterDelete(l: int, n: int): (r: int)
    requires 0 <= l < n
    ensures 0 <= r < (if n >= 2 then n - 1 else 1)
    ensures r == l || r == l - 1
  {
    if l == n - 1 && n >= 2 then l - 1 else l
  }

  /** MOVE_LAYER_DOWN and MOVE_LAYER_UP: remove the selected layer and add
      it back at `to`, computed on the full list. With a single layer the
      removal refills the page first, so the layer lands beside the new one. */
  method MoveLayer(page: ComicPage, l: int, to: int)
    requires page.Valid() && 0 <= l < |page.layers| && 0 <= to < |page.layers|
    modifies page
    ensures page.Valid() && (old(page.Uniform()) ==> page.Uniform())
    ensures |old(page.layers)| >= 2 ==> page.layers == Moved(old(page.layers), l, to)
    ensures |old(page.layers)| == 1 ==>
              |page.layers| == 2 && page.layers[0] == old(page.layers[0]) &&
              page.layers[1].ImageL? && fresh(page.layers[1].image)
  {
    var layer := page.layers[l];
    var n := |page.layers|;
    assert layer in page.layers;
    if n >= 2 {
      MovedElements(page.layers, l, to);
    }
    var s := page.RemoveLayer(l);
    s := page.AddLayer(to, layer);
  }

  /** ADD_IMAGE_LAYER and ADD_TEXT_LAYER: a new layer on top, selected, with
      the grid switched on when the previously selected layer had it on. */
  method AddOnTop(page: ComicPage, text: bool, active: bool) returns (sel: int)
    requires page.Valid()
    modifies page
    ensures page.Valid() && (page.Uniform() <==> old(page.Uniform()))
    ensures |page.layers| == |old(page.layers)| + 1 && page.layers[..|old(page.layers)|] == old(page.layers)
    ensures sel == |old(page.layers)| && fresh(LayerOf(page.layers[sel])) && (page.layers[sel].TextL? <==> text)
    ensures var b := LayerOf(page.layers[sel]).border; b.gridActive == active && (active ==> b.grid == Grid)
  {
    if text {
      page.AddTextLayer();
    } else {
      page.AddImageLayer();
    }
    sel := page.NoOfLayers() - 1;
    if active {
      var s := LayerOf(page.layers[sel]).border.SetGrid(Grid);
    }
  }

  /** actionPerformed on page `page` with layer `l` selected: the new
      selection and, through `page`, the new layer list. */
  method ActionPerformed(page: ComicPage, l: int, cmd: Command) returns (sel: int)
    requires page.Valid() && 0 <= l < |page.layers|
    modifies page
    ensures page.Valid() && 0 <= sel < |page.layers|
    ensures old(page.Uniform()) ==> page.Uniform()
    ensures cmd == PrevLayer ==> page.layers == old(page.layers) && sel == Prev(l, |old(page.layers)|)
    ensures cmd == NextLayer ==> page.layers == old(page.layers) && sel == Next(l, |old(page.layers)|)
    ensures cmd == MoveLayerDown && |old(page.layers)| >= 2 ==>
              sel == Prev(l, |old(page.layers)|) && page.layers == Moved(old(page.layers), l, sel)
    ensures cmd == MoveLayerUp && |old(page.layers)| >= 2 ==>
              sel == Next(l, |old(page.layers)|) && page.layers == Moved(old(page.layers), l, sel)
    ensures (cmd == MoveLayerDown || cmd == MoveLayerUp) && |old(page.layers)| == 1 ==>
              sel == 0 && |page.layers| == 2 && page.layers[0] == old(page.layers[0]) &&
              page.layers[1].ImageL? && fresh(page.layers[1].image)
    ensures cmd == AddImageLayer || cmd == AddTextLayer ==>
              |page.layers| == |old(page.layers)| + 1 && page.layers[..|old(page.layers)|] == old(page.layers) &&
              sel == |old(page.layers)| && fresh(LayerOf(page.layers[sel])) &&
              (cmd == AddImageLayer <==> page.layers[sel].ImageL?) &&
              var b := LayerOf(page.layers[sel]).border;
              b.gridActive == old(LayerOf(page.layers[l]).border.gridActive) &&
              (b.gridActive ==> b.grid == Grid)
    ensures cmd == DeleteLayer && |old(page.layers)| >= 2 ==>
              page.layers == Removed(old(page.layers), l) && sel == AfterDelete(l, |old(page.layers)|)
    ensures cmd == DeleteLayer && |old(page.layers)| == 1 ==>
              sel == 0 && |page.layers| == 1 && page.layers[0].ImageL? && fresh(page.layers[0].image)
  {
    var n := page.NoOfLayers();
    var active := LayerOf(page.layers[l]).border.gridActive;
    match cmd {
      case PrevLayer =>
        sel := Prev(l, n);
      case NextLayer =>
        sel := Next(l, n);
      case MoveLayerDown =>
        sel := Prev(l, n);
        MoveLayer(page, l, sel);
      case MoveLayerUp =>
        sel := Next(l, n);
        MoveLayer(page, l, sel);
      case AddImageLayer =>
        sel := AddOnTop(page, false, active);
      case AddTextLayer =>
        sel := AddOnTop(page, true, active);
      case DeleteLayer =>
        var s := page.RemoveLayer(l);
        sel := l;
        if sel == page.NoOfLayers() {
          sel := sel - 1;
        }
    }
  }

  /** Moving a layer down and then up again (or up, then down) restores
      the page, for pages of two or more layers. */
  lemma MoveDownUpRestores(ls: seq<AnyLayer>, l: int)
    requires 2 <= |ls| && 0 <= l < |ls|
    ensures Moved(Moved(ls, l, Prev(l, |ls|)), Prev(l, |ls|), Next(Prev(l, |ls|), |ls|)) == ls
    ensures Moved(Moved(ls, l, Next(l, |ls|)), Next(l, |ls|), Prev(Next(l, |ls|), |ls|)) == ls
  {
    PrevNextInverse(l, |ls|);
    MovedBack(ls, l, Prev(l, |ls|));
    MovedBack(ls, l, Next(l, |ls|));
  }
}
