/** The shelf allocator for images and glyphs in the layers of the texture atlas. */
module Atlas {
  import opened Core

  const ATLAS_SIZE := 2048

  const ATLAS_LAYERS := 32

  datatype Layer = Layer(width: nat, height: nat, layer: nat, rowH: nat, cursorX: nat, cursorY: nat)

  function FreshLayer(layer: nat): Layer { Layer(ATLAS_SIZE, ATLAS_SIZE, layer, 0, 0, 0) }

  datatype Request = Request(width: nat, height: nat, padding: nat)

  /** Where an image goes, and the size of the layer it is on. */
  datatype Placement = Placement(layer: nat, x: nat, y: nat, atlasW: nat, atlasH: nat)

  // ---------------------------------------------- specification of one allocation

  function Wrapped(l: Layer, q: Request): Layer {
    if l.cursorX + q.width + q.padding > l.width
    then l.(cursorX := 0, cursorY := l.cursorY + l.rowH + q.padding, rowH := 0)
    else l
  }

  function Advanced(l: Layer, q: Request): Layer {
    l.(cursorX := l.cursorX + q.width + q.padding, rowH := Max(l.rowH, q.height))
  }

  function PlacedIn(l: Layer): Placement {
    Placement(l.layer, l.cursorX, l.cursorY, l.width, l.height)
  }

  function Started(layers: seq<Layer>): (r: seq<Layer>)
    ensures r != []
  {
    if layers == [] then [FreshLayer(0)] else layers
  }

  datatype Outcome = Outcome(placement: Option<Placement>, layers: seq<Layer>)

  function Allocate(layers: seq<Layer>, q: Request): Outcome {
    var ls := Started(layers);
    var last := |ls| - 1;
    var l := Wrapped(ls[last], q);
    if l.cursorY + q.height + q.padding <= l.height then
      Outcome(Some(PlacedIn(l)), ls[last := Advanced(l, q)])
    else if |ls| >= ATLAS_LAYERS then
      Outcome(None, ls[last := l])
    else
      var f := FreshLayer(|ls|);
      Outcome(Some(PlacedIn(f)), ls[last := l] + [Advanced(f, q)])
  }

  class ImageAtlas {
    var layers: seq<Layer>

    constructor ()
      ensures layers == []
    {
      layers := [];
    }

    method CreateNewImageLayer() returns (ok: bool)
      modifies this
      ensures ok <==> |old(layers)| < ATLAS_LAYERS
      ensures layers == if ok then old(layers) + [FreshLayer(|old(layers)|)] else old(layers)
    {
      var layer := |layers|;
      if layer >= ATLAS_LAYERS {
        return false;
      }
      layers := layers + [Layer(ATLAS_SIZE, ATLAS_SIZE, layer, 0, 0, 0)];
      return true;
    }

    method AllocateImageRect(width: nat, height: nat, padding: nat) returns (r: Option<Placement>)
      modifies this
      ensures Outcome(r, layers) == Allocate(old(layers), Request(width, height, padding))
    {
      var ok;
      if layers == [] {
        ok := CreateNewImageLayer();
      }
      var idx := |layers| - 1;
      var layer := layers[idx];
      if layer.cursorX + width + padding > layer.width {
        layer := layer.(cursorX := 0);
        layer := layer.(cursorY := layer.cursorY + layer.rowH + padding);
        layer := layer.(rowH := 0);
        layers := layers[idx := layer];
      }
      if layer.cursorY + height + padding > layer.height {
        ok := CreateNewImageLayer();
        if !ok {
          return None;
        }
        idx := |layers| - 1;
      }
      layer := layers[idx];
      var x, y := layer.cursorX, layer.cursorY;
      layer := layer.(cursorX := layer.cursorX + width + padding);
      layer := layer.(rowH := Max(layer.rowH, height));
      layers := layers[idx := layer];
      return Some(Placement(layer.layer, x, y, layer.width, layer.height));
    }
  }

  // ------------------------------------------------------------------- whole runs

  /** A rectangle handed out, with the size that was asked for. */
  datatype Rect = Rect(layer: nat, x: nat, y: nat, w: nat, h: nat)

  datatype State = State(layers: seq<Layer>, rects: seq<Rect>)

  function Next(s: State, q: Request): State {
    var o := Allocate(s.layers, q);
    match o.placement
    case None => s.(layers := o.layers)
    case Some(p) => State(o.layers, s.rects + [Rect(p.layer, p.x, p.y, q.width, q.height)])
  }

  function Run(requests: seq<Request>): State {
    if requests == [] then State([], [])
    else Next(Run(requests[..|requests| - 1]), requests[|requests| - 1])
  }

  /** On different layers, or at least `gap` apart in one direction. */
  predicate Apart(a: Rect, b: Rect, gap: nat) {
    || a.layer != b.layer
    || a.x + a.w + gap <= b.x || b.x + b.w + gap <= a.x
    || a.y + a.h + gap <= b.y || b.y + b.h + gap <= a.y
  }

  predicate Inside(r: Rect) { r.x + r.w <= ATLAS_SIZE && r.y + r.h <= ATLAS_SIZE }

  predicate FitsLayer(r: Rect) { r.w <= ATLAS_SIZE && r.h <= ATLAS_SIZE }

  /** On the layer being filled, a rectangle is in a finished row or left of the cursor. */
  predicate BehindCursor(l: Layer, r: Rect, gap: nat) {
    || r.y + r.h + gap <= l.cursorY
    || (r.y == l.cursorY && r.x + r.w + gap <= l.cursorX && r.h <= l.rowH)
  }

  ghost predicate Inv(s: State, gap: nat) {
    && |s.layers| <= ATLAS_LAYERS
    && (forall i :: 0 <= i < |s.layers| ==>
          s.layers[i].layer == i && s.layers[i].width == ATLAS_SIZE && s.layers[i].height == ATLAS_SIZE)
    && (forall i :: 0 <= i < |s.rects| ==>
          && s.rects[i].layer < |s.layers|
          && (s.rects[i].layer == |s.layers| - 1 ==> BehindCursor(s.layers[|s.layers| - 1], s.rects[i], gap))
          && (Inside(s.rects[i]) <==> FitsLayer(s.rects[i])))
    && (forall i, j :: 0 <= i < j < |s.rects| ==> Apart(s.rects[i], s.rects[j], gap))
  }

  /** The new rectangle lies before the cursor it advances, and clear of all others. */
  lemma PlacementIsClear(l: Layer, q: Request, r: Rect, gap: nat)
    requires l.layer == r.layer && BehindCursor(l, r, gap) && gap <= q.padding
    ensures var n := Wrapped(l, q);
            && BehindCursor(n, r, gap) && BehindCursor(Advanced(n, q), r, gap)
            && Apart(r, Rect(n.layer, n.cursorX, n.cursorY, q.width, q.height), gap)
  {
  }

  /** Every rectangle on the layer being filled stays behind its cursor. */
  lemma AllAreClear(s: State, q: Request, gap: nat)
    requires Inv(s, gap) && gap <= q.padding
    ensures var ls := Started(s.layers);
            var n := Wrapped(ls[|ls| - 1], q);
            forall i :: 0 <= i < |s.rects| && s.rects[i].layer == |ls| - 1 ==>
              && BehindCursor(n, s.rects[i], gap) && BehindCursor(Advanced(n, q), s.rects[i], gap)
              && Apart(s.rects[i], Rect(n.layer, n.cursorX, n.cursorY, q.width, q.height), gap)
  {
    var ls := Started(s.layers);
    var n := Wrapped(ls[|ls| - 1], q);
    forall i | 0 <= i < |s.rects| && s.rects[i].layer == |ls| - 1
      ensures BehindCursor(n, s.rects[i], gap) && BehindCursor(Advanced(n, q), s.rects[i], gap)
              && Apart(s.rects[i], Rect(n.layer, n.cursorX, n.cursorY, q.width, q.height), gap)
    {
      PlacementIsClear(ls[|ls| - 1], q, s.rects[i], gap);
    }
  }

  lemma OneMoreApart(rects: seq<Rect>, r: Rect, gap: nat)
    requires forall i, j :: 0 <= i < j < |rects| ==> Apart(rects[i], rects[j], gap)
    requires forall i :: 0 <= i < |rects| ==> Apart(rects[i], r, gap)
    ensures forall i, j :: 0 <= i < j < |rects + [r]| ==> Apart((rects + [r])[i], (rects + [r])[j], gap)
  {
  }

  /** Where the new rectangle goes. */
  lemma NewRect(layers: seq<Layer>, q: Request, gap: nat)
    requires forall i :: 0 <= i < |layers| ==>
               layers[i].layer == i && layers[i].width == ATLAS_SIZE && layers[i].height == ATLAS_SIZE
    requires gap <= q.padding
    ensures var o := Allocate(layers, q);
            o.placement.Some? ==>
              var p := o.placement.value;
              var r := Rect(p.layer, p.x, p.y, q.width, q.height);
              && r.layer == |o.layers| - 1
              && BehindCursor(o.layers[|o.layers| - 1], r, gap)
              && (Inside(r) <==> FitsLayer(r))
  {
  }

  lemma NextKeepsInv(s: State, q: Request, gap: nat)
    requires Inv(s, gap) && gap <= q.padding
    ensures Inv(Next(s, q), gap)
  {
    AllAreClear(s, q, gap);
    NewRect(s.layers, q, gap);
    var o := Allocate(s.layers, q);
    if o.placement.Some? {
      var p := o.placement.value;
      OneMoreApart(s.rects, Rect(p.layer, p.x, p.y, q.width, q.height), gap);
    }
  }

  /** Over any sequence of allocations, including failed ones: rectangles on the same
      layer keep the distance every request asked for and so never overlap, there are
      never more than 32 layers, and a rectangle lies inside its layer if and only if
      it is no larger than one. */
  lemma {:induction false} AllocationsKeepApart(requests: seq<Request>, gap: nat)
    requires forall i :: 0 <= i < |requests| ==> gap <= requests[i].padding
    ensures Inv(Run(requests), gap)
    ensures var rects := Run(requests).rects;
            && (forall i, j :: 0 <= i < j < |rects| ==> Apart(rects[i], rects[j], gap))
            && (forall i :: 0 <= i < |rects| ==> rects[i].layer < ATLAS_LAYERS)
            && (forall i :: 0 <= i < |rects| ==> (Inside(rects[i]) <==> FitsLayer(rects[i])))
  {
    if requests != [] {
      AllocationsKeepApart(requests[..|requests| - 1], gap);
      NextKeepsInv(Run(requests[..|requests| - 1]), requests[|requests| - 1], gap);
    }
  }

  // -------------------------------------------------- which requests are refused

  /** The layer a request is tried on: the last one, and a fresh one when there is none. */
  function OpenLayer(layers: seq<Layer>): Layer {
    if layers == [] then Layer(ATLAS_SIZE, ATLAS_SIZE, 0, 0, 0, 0) else layers[|layers| - 1]
  }

  predicate RoomInRow(l: Layer, q: Request) {
    && l.cursorX + q.width + q.padding <= ATLAS_SIZE
    && l.cursorY + q.height + q.padding <= ATLAS_SIZE
  }

  predicate RoomBelow(l: Layer, q: Request) {
    l.cursorY + l.rowH + q.padding + q.height + q.padding <= ATLAS_SIZE
  }

  /** What becomes of the layer the image goes on. */
  function Holding(l: Layer, x: nat, y: nat, rowH: nat, q: Request): Layer {
    Layer(ATLAS_SIZE, ATLAS_SIZE, l.layer, Max(rowH, q.height), x + q.width + q.padding, y)
  }

  /** The outcome, by where there is room: in the open row, in a row below it, which only
      is begun when the open one has none, and on a new layer when neither has any. It is
      a refusal when there are 32 layers by then. */
  lemma PlacedWhereRoomIs(layers: seq<Layer>, q: Request)
    requires forall i :: 0 <= i < |layers| ==>
               layers[i].layer == i && layers[i].width == ATLAS_SIZE && layers[i].height == ATLAS_SIZE
    ensures var o, l := Allocate(layers, q), OpenLayer(layers);
            var n, y := l.layer + 1, l.cursorY + l.rowH + q.padding;
            && n == Max(1, |layers|)
            && |o.layers| >= n && o.layers[..n - 1] == layers[..n - 1]
            && (RoomInRow(l, q) ==>
                  && o.placement == Some(Placement(l.layer, l.cursorX, l.cursorY, ATLAS_SIZE, ATLAS_SIZE))
                  && |o.layers| == n && o.layers[n - 1] == Holding(l, l.cursorX, l.cursorY, l.rowH, q))
            && (!RoomInRow(l, q) && RoomBelow(l, q) ==>
                  && o.placement == Some(Placement(l.layer, 0, y, ATLAS_SIZE, ATLAS_SIZE))
                  && |o.layers| == n && o.layers[n - 1] == Holding(l, 0, y, 0, q))
            && (!RoomInRow(l, q) && !RoomBelow(l, q) ==>
                  && o.layers[n - 1] == (if l.cursorX + q.width + q.padding <= ATLAS_SIZE then l
                                         else l.(cursorX := 0, cursorY := y, rowH := 0))
                  && (n >= ATLAS_LAYERS ==> o.placement == None && |o.layers| == n)
                  && (n < ATLAS_LAYERS ==>
                        && o.placement == Some(Placement(n, 0, 0, ATLAS_SIZE, ATLAS_SIZE))
                        && |o.layers| == n + 1
                        && o.layers[n] == Holding(Layer(ATLAS_SIZE, ATLAS_SIZE, n, 0, 0, 0), 0, 0, 0, q)))
  {
  }

  /** The rest of the outcome after any sequence of requests: one is refused if and only
      if there are 32 layers and neither the open row nor a row below it has room. */
  lemma RefusedIffFull(requests: seq<Request>, q: Request)
    ensures var layers := Run(requests).layers;
            var l := OpenLayer(layers);
            && |layers| <= ATLAS_LAYERS
            && (Allocate(layers, q).placement == None <==>
                |layers| == ATLAS_LAYERS && !RoomInRow(l, q) && !RoomBelow(l, q))
            && (|Allocate(layers, q).layers| > Max(1, |layers|) <==>
                |layers| < ATLAS_LAYERS && !RoomInRow(l, q) && !RoomBelow(l, q))
  {
    AllocationsKeepApart(requests, 0);
    PlacedWhereRoomIs(Run(requests).layers, q);
  }

  /** With the last layer open, too far down for an image of this height and padding. */
  ghost predicate TooLow(layers: seq<Layer>, reach: nat) {
    |layers| == ATLAS_LAYERS && layers[ATLAS_LAYERS - 1].cursorY + reach > ATLAS_SIZE
  }

  lemma StaysTooLow(s: State, q: Request, reach: nat)
    requires Inv(s, 0) && TooLow(s.layers, reach)
    ensures TooLow(Next(s, q).layers, reach)
    ensures q.height + q.padding >= reach ==> Allocate(s.layers, q).placement == None
  {
    PlacedWhereRoomIs(s.layers, q);
  }

  lemma RefusalMeansTooLow(s: State, q: Request)
    requires Inv(s, 0) && Allocate(s.layers, q).placement == None
    ensures TooLow(Next(s, q).layers, q.height + q.padding)
  {
    PlacedWhereRoomIs(s.layers, q);
  }

  lemma RunSnoc(requests: seq<Request>, q: Request)
    ensures Run(requests + [q]) == Next(Run(requests), q)
  {
    assert (requests + [q])[..|requests|] == requests;
  }

  lemma {:induction false} TooLowForEver(requests: seq<Request>, more: seq<Request>, reach: nat)
    requires TooLow(Run(requests).layers, reach)
    ensures TooLow(Run(requests + more).layers, reach)
    decreases |more|
  {
    if more == [] {
      assert requests + more == requests;
    } else {
      var init, last := more[..|more| - 1], more[|more| - 1];
      TooLowForEver(requests, init, reach);
      AllocationsKeepApart(requests + init, 0);
      StaysTooLow(Run(requests + init), last, reach);
      RunSnoc(requests + init, last);
      AppendSnoc(requests, more);
    }
  }

  lemma RefusedThenTooLow(requests: seq<Request>, q: Request)
    requires Allocate(Run(requests).layers, q).placement == None
    ensures TooLow(Run(requests + [q]).layers, q.height + q.padding)
  {
    AllocationsKeepApart(requests, 0);
    RefusalMeansTooLow(Run(requests), q);
    RunSnoc(requests, q);
  }

  lemma TooLowIsRefused(requests: seq<Request>, q: Request, reach: nat)
    requires TooLow(Run(requests).layers, reach) && q.height + q.padding >= reach
    ensures Allocate(Run(requests).layers, q).placement == None
  {
    AllocationsKeepApart(requests, 0);
    StaysTooLow(Run(requests), q, reach);
  }

  /** Once a request was refused, every later one whose height and padding together are
      no smaller is refused as well, whatever its width and whatever went on between. */
  lemma RefusedForEver(requests: seq<Request>, q: Request, more: seq<Request>, later: Request)
    requires Allocate(Run(requests).layers, q).placement == None
    requires later.height + later.padding >= q.height + q.padding
    ensures Allocate(Run(requests + [q] + more).layers, later).placement == None
  {
    RefusedThenTooLow(requests, q);
    TooLowForEver(requests + [q], more, q.height + q.padding);
    TooLowIsRefused(requests + [q] + more, later, q.height + q.padding);
  }

  // ------------------------------------------------------- 32-bit sums never wrap

  /** The sizes the image loader lets through. */
  predicate Padded(q: Request) {
    q.width + q.padding <= ATLAS_SIZE && q.height + q.padding <= ATLAS_SIZE
  }

  /** A layer that refused a tall image keeps a cursor below its bottom edge, but only
      with an empty row, so the cursor moves there once. */
  ghost predicate Bounded(l: Layer) {
    && l.width == ATLAS_SIZE && l.height == ATLAS_SIZE
    && l.cursorX <= ATLAS_SIZE
    && l.cursorY + l.rowH <= 2 * ATLAS_SIZE
    && (l.cursorX > 0 || l.rowH > 0 ==> l.cursorY + l.rowH <= ATLAS_SIZE)
  }

  /** Every sum the allocator forms for a request fits 32 bits. */
  ghost predicate NoWrap(l: Layer, q: Request) {
    var n := Wrapped(l, q);
    && l.cursorX + q.width + q.padding <= U32_MAX
    && l.cursorY + l.rowH + q.padding <= U32_MAX
    && n.cursorY + q.height + q.padding <= U32_MAX
    && n.cursorX + q.width + q.padding <= U32_MAX
  }

  ghost predicate AllBounded(layers: seq<Layer>) {
    forall i :: 0 <= i < |layers| ==> Bounded(layers[i])
  }

  /** Wrapping and advancing keep a layer bounded. */
  lemma StepIsBounded(l: Layer, q: Request)
    requires Bounded(l) && Padded(q)
    ensures Bounded(Wrapped(l, q)) && NoWrap(l, q)
    ensures Wrapped(l, q).cursorY + q.height + q.padding <= ATLAS_SIZE ==> Bounded(Advanced(Wrapped(l, q), q))
  {
  }

  lemma AllocateKeepsBounded(layers: seq<Layer>, q: Request)
    requires AllBounded(layers) && Padded(q)
    ensures AllBounded(Allocate(layers, q).layers)
  {
    var ls := Started(layers);
    var l := ls[|ls| - 1];
    StepIsBounded(l, q);
    StepIsBounded(FreshLayer(|ls|), q);
  }

  lemma {:induction false} SumsNeverWrap(requests: seq<Request>, q: Request)
    requires forall i :: 0 <= i < |requests| ==> Padded(requests[i])
    requires Padded(q)
    ensures AllBounded(Run(requests).layers)
    ensures var ls := Started(Run(requests).layers); NoWrap(ls[|ls| - 1], q)
  {
    if requests != [] {
      var init, last := requests[..|requests| - 1], requests[|requests| - 1];
      SumsNeverWrap(init, last);
      AllocateKeepsBounded(Run(init).layers, last);
    }
    var ls := Started(Run(requests).layers);
    StepIsBounded(ls[|ls| - 1], q);
  }
}
