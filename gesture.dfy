/** Pointer gestures on a page overlay (the white box and the stickers of
    components/StoryPage.tsx).

    While the pointer moves, the overlay's pixel rectangle is recomputed from
    the rectangle captured when the gesture began: the pointer delta is applied
    to the edges the handle names, positions are floored at 0 and sizes at the
    overlay's minimum, and finally the rectangle is pulled back inside the page
    content surface. When the pointer is released the rectangle is converted
    into percentages of that surface, which is what the page stores. */
module Gesture {
  import opened Base
  import opened JsText

  /** A rectangle in pixels: `left` and `top` are offsets from the top-left
      corner of whatever it is measured against. */
  datatype Rect = Rect(left: real, top: real, width: real, height: real) {
    function Right(): real { left + width }
    function Bottom(): real { top + height }
  }

  /** Stored overlay geometry: percentages of the page content surface. */
  datatype Geometry = Geometry(x: real, y: real, width: real, height: real)

  /** What the pointer grabbed: the overlay itself, or a resize handle, recorded
      by the edges its name mentions. */
  datatype Handle = Drag | Resize(right: bool, left: bool, bottom: bool, top: bool)

  /** The two overlay kinds differ only in their minimum size. */
  datatype Overlay = WhiteBoxOverlay | StickerOverlay

  function MinWidth(o: Overlay): real {
    match o
    case WhiteBoxOverlay => 50.0
    case StickerOverlay => 20.0
  }

  function MinHeight(o: Overlay): real {
    20.0
  }

  /** The handle an `interaction.type` string stands for: the empty string means
      that no gesture is in progress, "drag" moves the overlay, and any other
      name resizes the edges whose names it contains. */
  function HandleOf(kind: string): Option<Handle> {
    if kind == "" then None
    else if kind == "drag" then Some(Drag)
    else Some(Resize(Includes(kind, "right"), Includes(kind, "left"),
                     Includes(kind, "bottom"), Includes(kind, "top")))
  }

  /** Step 1: a drag moves the whole rectangle by the delta; a resize moves
      exactly the edges the handle names by the delta and leaves the others. */
  function Displaced(start: Rect, h: Handle, dx: real, dy: real): (r: Rect)
    ensures h.Drag? ==> r == Rect(start.left + dx, start.top + dy, start.width, start.height)
    ensures h.Resize? ==> r.left == start.left + (if h.left then dx else 0.0)
    ensures h.Resize? ==> r.Right() == start.Right() + (if h.right then dx else 0.0)
    ensures h.Resize? ==> r.top == start.top + (if h.top then dy else 0.0)
    ensures h.Resize? ==> r.Bottom() == start.Bottom() + (if h.bottom then dy else 0.0)
  {
    match h
    case Drag => Rect(start.left + dx, start.top + dy, start.width, start.height)
    case Resize(right, left, bottom, top) =>
      var w := start.width + (if right then dx else 0.0) - (if left then dx else 0.0);
      var l := start.left + (if left then dx else 0.0);
      var ht := start.height + (if bottom then dy else 0.0) - (if top then dy else 0.0);
      var t := start.top + (if top then dy else 0.0);
      Rect(l, t, w, ht)
  }

  /** Step 2: positions never go below 0, sizes never below the minimum; a
      coordinate already within its floor is left alone. */
  function Floored(r: Rect, o: Overlay): (f: Rect)
    ensures f.left >= 0.0 && f.top >= 0.0
    ensures f.width >= MinWidth(o) && f.height >= MinHeight(o)
    ensures r.left >= 0.0 ==> f.left == r.left
    ensures r.top >= 0.0 ==> f.top == r.top
    ensures r.width >= MinWidth(o) ==> f.width == r.width
    ensures r.height >= MinHeight(o) ==> f.height == r.height
  {
    Rect(if r.left < 0.0 then 0.0 else r.left,
         if r.top < 0.0 then 0.0 else r.top,
         if r.width < MinWidth(o) then MinWidth(o) else r.width,
         if r.height < MinHeight(o) then MinHeight(o) else r.height)
  }

  /** Step 3: a rectangle crossing the far edge of the container is pulled
      back: a drag moves it, any resize shrinks it. */
  function Contained(r: Rect, drag: bool, containerWidth: real, containerHeight: real): (c: Rect)
    ensures c.Right() <= containerWidth && c.Bottom() <= containerHeight
    ensures drag ==> c.width == r.width && c.height == r.height
    ensures !drag ==> c.left == r.left && c.top == r.top
    ensures r.Right() <= containerWidth ==> c.left == r.left && c.width == r.width
    ensures r.Bottom() <= containerHeight ==> c.top == r.top && c.height == r.height
  {
    var overRight := r.Right() > containerWidth;
    var overBottom := r.Bottom() > containerHeight;
    Rect(if overRight && drag then containerWidth - r.width else r.left,
         if overBottom && drag then containerHeight - r.height else r.top,
         if overRight && !drag then containerWidth - r.left else r.width,
         if overBottom && !drag then containerHeight - r.top else r.height)
  }

  /** The rectangle a pointer move produces: the three steps in order. */
  function Transformed(start: Rect, h: Handle, dx: real, dy: real, o: Overlay,
                       containerWidth: real, containerHeight: real): Rect
  {
    Contained(Floored(Displaced(start, h, dx, dy), o), h.Drag?, containerWidth, containerHeight)
  }

  /** A rectangle that none of the floor or containment steps would touch. */
  predicate Settled(r: Rect, o: Overlay, containerWidth: real, containerHeight: real) {
    && r.left >= 0.0 && r.top >= 0.0
    && r.width >= MinWidth(o) && r.height >= MinHeight(o)
    && r.Right() <= containerWidth && r.Bottom() <= containerHeight
  }

  /** The far edges never cross the container. A resize never moves the near
      edges below 0, and it keeps the size non-negative and the near edge inside
      the container only as long as the floored near edge has not passed the far
      side of the container. A drag keeps the near edges at or above 0 as long as
      the (floored) overlay fits in the container. */
  lemma MoveStaysInside(start: Rect, h: Handle, dx: real, dy: real, o: Overlay,
                        containerWidth: real, containerHeight: real)
    ensures var r := Transformed(start, h, dx, dy, o, containerWidth, containerHeight);
      var f := Floored(Displaced(start, h, dx, dy), o);
      && r.Right() <= containerWidth && r.Bottom() <= containerHeight
      && (h.Resize? ==> r.left >= 0.0 && r.top >= 0.0)
      && (h.Resize? && f.left <= containerWidth ==> r.left <= containerWidth && r.width >= 0.0)
      && (h.Resize? && f.top <= containerHeight ==> r.top <= containerHeight && r.height >= 0.0)
      && (h.Drag? && Floored(start, o).width <= containerWidth ==> r.left >= 0.0)
      && (h.Drag? && Floored(start, o).height <= containerHeight ==> r.top >= 0.0)
  {
    var d := Displaced(start, h, dx, dy);
    assert h.Drag? ==>
      Floored(d, o).width == Floored(start, o).width && Floored(d, o).height == Floored(start, o).height;
  }

  /** A drag that starts at or above the minimum size never changes the size. */
  lemma DragKeepsSize(start: Rect, dx: real, dy: real, o: Overlay,
                      containerWidth: real, containerHeight: real)
    requires start.width >= MinWidth(o) && start.height >= MinHeight(o)
    ensures var r := Transformed(start, Drag, dx, dy, o, containerWidth, containerHeight);
      r.width == start.width && r.height == start.height
  {
  }

  /** A move whose displaced rectangle is already settled is exactly the
      displacement: no floor or containment clamp fires. */
  lemma SettledMoveIsDisplacement(start: Rect, h: Handle, dx: real, dy: real, o: Overlay,
                                  containerWidth: real, containerHeight: real)
    requires Settled(Displaced(start, h, dx, dy), o, containerWidth, containerHeight)
    ensures Transformed(start, h, dx, dy, o, containerWidth, containerHeight) == Displaced(start, h, dx, dy)
  {
  }

  /** The right-edge handle changes only the width of a settled rectangle. */
  lemma RightHandleChangesOnlyWidth(start: Rect, dx: real, dy: real, o: Overlay,
                                    containerWidth: real, containerHeight: real)
    requires Settled(start, o, containerWidth, containerHeight)
    ensures var r := Transformed(start, Resize(true, false, false, false), dx, dy, o, containerWidth, containerHeight);
      r.left == start.left && r.top == start.top && r.height == start.height
  {
  }

  /** The bottom-edge handle changes only the height of a settled rectangle. */
  lemma BottomHandleChangesOnlyHeight(start: Rect, dx: real, dy: real, o: Overlay,
                                      containerWidth: real, containerHeight: real)
    requires Settled(start, o, containerWidth, containerHeight)
    ensures var r := Transformed(start, Resize(false, false, true, false), dx, dy, o, containerWidth, containerHeight);
      r.left == start.left && r.top == start.top && r.width == start.width
  {
  }

  /** With a left (top) handle the opposite edge stays where it was, as long
      as no clamp fires. */
  lemma NearHandleKeepsFarEdge(start: Rect, h: Handle, dx: real, dy: real, o: Overlay,
                               containerWidth: real, containerHeight: real)
    requires h.Resize?
    requires Settled(Displaced(start, h, dx, dy), o, containerWidth, containerHeight)
    ensures var r := Transformed(start, h, dx, dy, o, containerWidth, containerHeight);
      && (h.left && !h.right ==> r.Right() == start.Right())
      && (h.top && !h.bottom ==> r.Bottom() == start.Bottom())
  {
    SettledMoveIsDisplacement(start, h, dx, dy, o, containerWidth, containerHeight);
  }

  /** A pointer that has not moved leaves a settled rectangle where it is. */
  lemma ZeroDeltaKeepsRect(start: Rect, h: Handle, o: Overlay,
                           containerWidth: real, containerHeight: real)
    requires Settled(start, o, containerWidth, containerHeight)
    ensures Transformed(start, h, 0.0, 0.0, o, containerWidth, containerHeight) == start
  {
  }

  /** The stored geometry of a pixel rectangle measured inside a container:
      each value is the pixel value divided by the container dimension, times 100. */
  function Percent(r: Rect, containerWidth: real, containerHeight: real): Geometry
    requires containerWidth > 0.0 && containerHeight > 0.0
  {
    Geometry((r.left / containerWidth) * 100.0, (r.top / containerHeight) * 100.0,
             (r.width / containerWidth) * 100.0, (r.height / containerHeight) * 100.0)
  }

  /** Where stored geometry is drawn in a container of the given size (the
      CSS `left: x%` etc. of the overlay element). */
  function Pixels(g: Geometry, containerWidth: real, containerHeight: real): Rect {
    Rect(g.x * containerWidth / 100.0, g.y * containerHeight / 100.0,
         g.width * containerWidth / 100.0, g.height * containerHeight / 100.0)
  }

  /** Percentages and pixels are inverse to each other for a non-empty container:
      stored geometry does not depend on the size the page is drawn at. */
  lemma PercentPixelsRoundTrip(g: Geometry, r: Rect, containerWidth: real, containerHeight: real)
    requires containerWidth > 0.0 && containerHeight > 0.0
    ensures Percent(Pixels(g, containerWidth, containerHeight), containerWidth, containerHeight) == g
    ensures Pixels(Percent(r, containerWidth, containerHeight), containerWidth, containerHeight) == r
  {
  }

  /** A rectangle lying inside the container is stored as percentages in
      [0, 100] whose far edges do not pass 100. */
  lemma PercentInsidePage(r: Rect, containerWidth: real, containerHeight: real)
    requires containerWidth > 0.0 && containerHeight > 0.0
    requires r.left >= 0.0 && r.top >= 0.0
    requires r.Right() <= containerWidth && r.Bottom() <= containerHeight
    ensures var g := Percent(r, containerWidth, containerHeight);
      && g.x >= 0.0 && g.y >= 0.0
      && g.x + g.width <= 100.0 && g.y + g.height <= 100.0
      && (r.width >= 0.0 ==> g.x <= 100.0 && 0.0 <= g.width <= 100.0)
      && (r.height >= 0.0 ==> g.y <= 100.0 && 0.0 <= g.height <= 100.0)
  {
    var g := Percent(r, containerWidth, containerHeight);
    assert g.x + g.width == (r.Right() / containerWidth) * 100.0;
    assert g.y + g.height == (r.Bottom() / containerHeight) * 100.0;
  }

  /** A resize gesture commits geometry with x, y >= 0 and x + width,
      y + height <= 100. The width is non-negative and x at most 100 only while
      the floored left edge has not passed the right side of the container
      (likewise for the height and y); a left or top handle dragged past the far
      edge breaks this, see `NearHandlePastFarEdge`. */
  lemma ResizeCommitsInsidePage(start: Rect, h: Handle, dx: real, dy: real, o: Overlay,
                                containerWidth: real, containerHeight: real)
    requires h.Resize?
    requires containerWidth > 0.0 && containerHeight > 0.0
    ensures var f := Floored(Displaced(start, h, dx, dy), o);
      var g := Percent(Transformed(start, h, dx, dy, o, containerWidth, containerHeight),
                       containerWidth, containerHeight);
      && g.x >= 0.0 && g.y >= 0.0 && g.x + g.width <= 100.0 && g.y + g.height <= 100.0
      && (f.left <= containerWidth ==> g.x <= 100.0 && 0.0 <= g.width <= 100.0)
      && (f.top <= containerHeight ==> g.y <= 100.0 && 0.0 <= g.height <= 100.0)
  {
    MoveStaysInside(start, h, dx, dy, o, containerWidth, containerHeight);
    PercentInsidePage(Transformed(start, h, dx, dy, o, containerWidth, containerHeight),
                      containerWidth, containerHeight);
  }

  /** A drag gesture of an overlay whose floored size fits in the container
      commits geometry wholly inside the page: x, y >= 0, sizes in [0, 100] and
      x + width, y + height <= 100. */
  lemma DragCommitsInsidePage(start: Rect, h: Handle, dx: real, dy: real, o: Overlay,
                              containerWidth: real, containerHeight: real)
    requires h.Drag?
    requires containerWidth > 0.0 && containerHeight > 0.0
    requires Floored(start, o).width <= containerWidth && Floored(start, o).height <= containerHeight
    ensures var g := Percent(Transformed(start, h, dx, dy, o, containerWidth, containerHeight),
                             containerWidth, containerHeight);
      && g.x >= 0.0 && g.y >= 0.0
      && 0.0 <= g.width && 0.0 <= g.height
      && g.x + g.width <= 100.0 && g.y + g.height <= 100.0
  {
    MoveStaysInside(start, h, dx, dy, o, containerWidth, containerHeight);
    PercentInsidePage(Transformed(start, h, dx, dy, o, containerWidth, containerHeight),
                      containerWidth, containerHeight);
  }

  /** As written, a resize whose floored near edge lands past the far side of
      the container is "contained" by shrinking the size below 0: the rectangle
      keeps its near edge outside the container and gets a negative width
      (height), so the percentages have x > 100 and a negative width. */
  lemma NearHandlePastFarEdge(start: Rect, h: Handle, dx: real, dy: real, o: Overlay,
                              containerWidth: real, containerHeight: real)
    requires h.Resize?
    requires containerWidth > 0.0 && containerHeight > 0.0
    requires Floored(Displaced(start, h, dx, dy), o).left > containerWidth
    ensures var r := Transformed(start, h, dx, dy, o, containerWidth, containerHeight);
      var g := Percent(r, containerWidth, containerHeight);
      && r.left > containerWidth && r.width < 0.0
      && g.x > 100.0 && g.width < 0.0
  {
    var r := Transformed(start, h, dx, dy, o, containerWidth, containerHeight);
    assert r.width == containerWidth - r.left;
    var g := Percent(r, containerWidth, containerHeight);
    assert g.x == (r.left / containerWidth) * 100.0;
  }

  /** A 100 px wide box at the left of a 300 x 300 px page, its left handle
      dragged 500 px to the right: it is drawn 500 px from the left with width
      -200 px, i.e. x = 500/3 % and width = -200/3 %. */
  lemma LeftHandlePastRightEdgeExample()
    ensures var r := Transformed(Rect(0.0, 0.0, 100.0, 100.0), Resize(false, true, false, false),
                                 500.0, 0.0, WhiteBoxOverlay, 300.0, 300.0);
      && r == Rect(500.0, 0.0, -200.0, 100.0)
      && Percent(r, 300.0, 300.0).x > 100.0 && Percent(r, 300.0, 300.0).width < 0.0
  {
  }

  function Min(a: real, b: real): real {
    if a <= b then a else b
  }

  /** The containment step corrected: before the far edges are pulled back,
      the near edges are kept inside the container and the size is capped at
      the container's, so that no clamp can leave a negative size or a
      position outside the page. Where the step as written already ends
      inside the container it is unchanged. */
  function Fitted(r: Rect, drag: bool, containerWidth: real, containerHeight: real): (c: Rect)
    requires containerWidth >= 0.0 && containerHeight >= 0.0
    ensures r.left >= 0.0 && r.width >= 0.0 ==>
      0.0 <= c.left && 0.0 <= c.width && c.Right() <= containerWidth
    ensures r.top >= 0.0 && r.height >= 0.0 ==>
      0.0 <= c.top && 0.0 <= c.height && c.Bottom() <= containerHeight
    ensures (&& r.left <= containerWidth && r.width <= containerWidth
             && r.top <= containerHeight && r.height <= containerHeight) ==>
      c == Contained(r, drag, containerWidth, containerHeight)
  {
    Contained(Rect(Min(r.left, containerWidth), Min(r.top, containerHeight),
                   Min(r.width, containerWidth), Min(r.height, containerHeight)),
              drag, containerWidth, containerHeight)
  }

  /** A pointer move with the corrected containment step. */
  function FittedTransformed(start: Rect, h: Handle, dx: real, dy: real, o: Overlay,
                             containerWidth: real, containerHeight: real): Rect
    requires containerWidth >= 0.0 && containerHeight >= 0.0
  {
    Fitted(Floored(Displaced(start, h, dx, dy), o), h.Drag?, containerWidth, containerHeight)
  }

  /** With the corrected containment step every gesture, drag or resize, from
      any start, commits geometry wholly inside the page; and wherever the step
      as written already kept the overlay inside the page, the two agree. */
  lemma FittedCommitsInsidePage(start: Rect, h: Handle, dx: real, dy: real, o: Overlay,
                                containerWidth: real, containerHeight: real)
    requires containerWidth > 0.0 && containerHeight > 0.0
    ensures var g := Percent(FittedTransformed(start, h, dx, dy, o, containerWidth, containerHeight),
                             containerWidth, containerHeight);
      && 0.0 <= g.x && 0.0 <= g.width && g.x + g.width <= 100.0
      && 0.0 <= g.y && 0.0 <= g.height && g.y + g.height <= 100.0
    ensures var f := Floored(Displaced(start, h, dx, dy), o);
      (&& f.left <= containerWidth && f.width <= containerWidth
       && f.top <= containerHeight && f.height <= containerHeight) ==>
      FittedTransformed(start, h, dx, dy, o, containerWidth, containerHeight)
        == Transformed(start, h, dx, dy, o, containerWidth, containerHeight)
  {
    var r := FittedTransformed(start, h, dx, dy, o, containerWidth, containerHeight);
    PercentInsidePage(r, containerWidth, containerHeight);
  }

  /** A gesture that ends without pointer movement stores the geometry it
      started from, when that geometry was settled in the container. */
  lemma StillGestureKeepsGeometry(g: Geometry, h: Handle, o: Overlay,
                                  containerWidth: real, containerHeight: real)
    requires containerWidth > 0.0 && containerHeight > 0.0
    requires Settled(Pixels(g, containerWidth, containerHeight), o, containerWidth, containerHeight)
    ensures var start := Pixels(g, containerWidth, containerHeight);
      Percent(Transformed(start, h, 0.0, 0.0, o, containerWidth, containerHeight),
              containerWidth, containerHeight) == g
  {
    var start := Pixels(g, containerWidth, containerHeight);
    ZeroDeltaKeepsRect(start, h, o, containerWidth, containerHeight);
    PercentPixelsRoundTrip(g, start, containerWidth, containerHeight);
  }

  /** The gesture state kept by one overlay element between pointer events
      (the `interaction` ref of `WhiteBox` and of `Sticker`). */
  class Interaction {
    const overlay: Overlay
    var kind: string
    var startX: real
    var startY: real
    var startWidth: real
    var startHeight: real
    var startLeft: real
    var startTop: real

    /** The rectangle captured when the gesture began, relative to the container. */
    function StartRect(): Rect
      reads this
    {
      Rect(startLeft, startTop, startWidth, startHeight)
    }

    constructor (overlay: Overlay)
      ensures this.overlay == overlay && kind == ""
      ensures StartRect() == Rect(0.0, 0.0, 0.0, 0.0) && startX == 0.0 && startY == 0.0
    {
      this.overlay := overlay;
      kind := "";
      startX, startY := 0.0, 0.0;
      startWidth, startHeight, startLeft, startTop := 0.0, 0.0, 0.0, 0.0;
    }

    /** Pointer pressed on the overlay or on one of its handles: remember the
        handle, the pointer and the overlay's rectangle relative to the container
        (`element` and `container` are bounding rectangles in page coordinates). */
    method MouseDown(kind: string, clientX: real, clientY: real, element: Rect, container: Rect)
      modifies this
      ensures this.kind == kind && startX == clientX && startY == clientY
      ensures StartRect() == Rect(element.left - container.left, element.top - container.top,
                                  element.width, element.height)
    {
      this.kind := kind;
      startX := clientX;
      startY := clientY;
      startWidth := element.width;
      startHeight := element.height;
      startLeft := element.left - container.left;
      startTop := element.top - container.top;
    }

    /** How far the pointer has moved since the gesture began. */
    function Delta(clientX: real, clientY: real): (real, real)
      reads this
    {
      (clientX - startX, clientY - startY)
    }

    /** Pointer moved: the rectangle the overlay is drawn at next, or nothing
        when no gesture is in progress. */
    method MouseMove(clientX: real, clientY: real, containerWidth: real, containerHeight: real)
      returns (r: Option<Rect>)
      ensures HandleOf(kind).None? ==> r.None?
      ensures HandleOf(kind).Some? ==>
        r == Some(Transformed(StartRect(), HandleOf(kind).value, Delta(clientX, clientY).0,
                              Delta(clientX, clientY).1, overlay, containerWidth, containerHeight))
    {
      if kind == "" {
        return None;
      }
      var d := Delta(clientX, clientY);
      var next := Step(StartRect(), kind, d.0, d.1, overlay, containerWidth, containerHeight);
      r := Some(next);
    }

    /** The statements of a pointer move once a gesture is in progress. */
    static method Step(start: Rect, kind: string, dx: real, dy: real, o: Overlay,
                       containerWidth: real, containerHeight: real) returns (r: Rect)
      requires kind != ""
      ensures r == Transformed(start, HandleOf(kind).value, dx, dy, o, containerWidth, containerHeight)
    {
      var nL, nT, nW, nH := Displace(start.left, start.top, start.width, start.height, kind, dx, dy);
      nL, nT, nW, nH := ApplyFloors(nL, nT, nW, nH, o);
      nL, nT, nW, nH := PullInside(nL, nT, nW, nH, kind == "drag", containerWidth, containerHeight);
      r := Rect(nL, nT, nW, nH);
    }

    /** The delta statements of a pointer move. */
    static method Displace(l: real, t: real, w: real, ht: real, kind: string, dx: real, dy: real)
      returns (nL: real, nT: real, nW: real, nH: real)
      requires kind != ""
      ensures Rect(nL, nT, nW, nH) == Displaced(Rect(l, t, w, ht), HandleOf(kind).value, dx, dy)
    {
      nL, nT, nW, nH := l, t, w, ht;
      if kind == "drag" {
        nL := nL + dx;
        nT := nT + dy;
      } else {
        if Includes(kind, "right") { nW := nW + dx; }
        if Includes(kind, "left") { nW := nW - dx; nL := nL + dx; }
        if Includes(kind, "bottom") { nH := nH + dy; }
        if Includes(kind, "top") { nH := nH - dy; nT := nT + dy; }
      }
    }

    /** The floor statements of a pointer move. */
    static method ApplyFloors(l: real, t: real, w: real, ht: real, o: Overlay)
      returns (nL: real, nT: real, nW: real, nH: real)
      ensures Rect(nL, nT, nW, nH) == Floored(Rect(l, t, w, ht), o)
    {
      nL, nT, nW, nH := l, t, w, ht;
      if nL < 0.0 { nL := 0.0; }
      if nT < 0.0 { nT := 0.0; }
      if nW < MinWidth(o) { nW := MinWidth(o); }
      if nH < MinHeight(o) { nH := MinHeight(o); }
    }

    /** The containment statements of a pointer move. */
    static method PullInside(l: real, t: real, w: real, ht: real, drag: bool,
                             containerWidth: real, containerHeight: real)
      returns (nL: real, nT: real, nW: real, nH: real)
      ensures Rect(nL, nT, nW, nH) == Contained(Rect(l, t, w, ht), drag, containerWidth, containerHeight)
    {
      nL, nT, nW, nH := l, t, w, ht;
      if nL + nW > containerWidth {
        if drag { nL := containerWidth - nW; } else { nW := containerWidth - nL; }
      }
      if nT + nH > containerHeight {
        if drag { nT := containerHeight - nH; } else { nH := containerHeight - nT; }
      }
    }

    /** Pointer released: the gesture ends and the overlay's final rectangle
        (`element`, in page coordinates) is stored as percentages of the container. */
    method MouseUp(element: Rect, container: Rect) returns (g: Geometry)
      requires container.width > 0.0 && container.height > 0.0
      modifies this`kind
      ensures kind == ""
      ensures StartRect() == old(StartRect()) && startX == old(startX) && startY == old(startY)
      ensures g == Percent(Rect(element.left - container.left, element.top - container.top,
                                element.width, element.height), container.width, container.height)
    {
      g := Geometry(((element.left - container.left) / container.width) * 100.0,
                    ((element.top - container.top) / container.height) * 100.0,
                    (element.width / container.width) * 100.0,
                    (element.height / container.height) * 100.0);
      kind := "";
    }
  }
}
