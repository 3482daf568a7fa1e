/**
 * Scrolling text: an off-screen canvas holding the rendered text (plus trailing
 * spacing) and a window (the projection) that shows a horizontally rotated part of
 * it on the frame buffer.
 */
module Text {
  import opened Geometry
  import opened Wrappers
  import Device
  import opened Arith

  function Min(a: int, b: int): int {
    if a <= b then a else b
  }

  /** `ScrollableCanvas`: `width * height` bits, row-major, with no envelope bytes. */
  datatype Canvas = Canvas(width: nat, height: nat, bits: seq<bool>) {

    predicate Valid() {
      |bits| == width * height
    }

    predicate InBounds(x: int, y: int) {
      0 <= x < width && 0 <= y < height
    }

    function Get(x: int, y: int): bool
      requires Valid() && InBounds(x, y)
    {
      CellIndex(x, y, width, height);
      bits[x + y * width]
    }
  }

  /** `ScrollableCanvas::new`: a blank canvas of the given size. */
  function NewCanvas(width: nat, height: nat): (c: Canvas)
    ensures c.Valid() && c.width == width && c.height == height
    ensures forall i :: 0 <= i < |c.bits| ==> !c.bits[i]
  {
    Canvas(width, height, seq(width * height, _ => false))
  }

  /** One step of the canvas' `draw_iter`: a pixel inside the canvas sets its bit,
      any other pixel is dropped. */
  function CanvasDrawPixel(c: Canvas, p: Pixel): (r: Canvas)
    requires c.Valid()
    ensures r.Valid() && r.width == c.width && r.height == c.height
  {
    if c.InBounds(p.at.x, p.at.y) then
      CellIndex(p.at.x, p.at.y, c.width, c.height);
      c.(bits := c.bits[p.at.x + p.at.y * c.width := p.on])
    else
      c
  }

  /** Drawing a pixel sets exactly that canvas cell when it is inside the canvas and
      changes nothing otherwise. */
  lemma CanvasDrawPixelEffect(c: Canvas, p: Pixel, x: int, y: int)
    requires c.Valid() && c.InBounds(x, y)
    ensures CanvasDrawPixel(c, p).Get(x, y) == if p.at == Point(x, y) then p.on else c.Get(x, y)
  {
    var r := CanvasDrawPixel(c, p);
    CellIndex(x, y, c.width, c.height);
    var i := x + y * c.width;
    assert r.Get(x, y) == r.bits[i] && c.Get(x, y) == c.bits[i];
    if c.InBounds(p.at.x, p.at.y) {
      CellIndex(p.at.x, p.at.y, c.width, c.height);
      var j := p.at.x + p.at.y * c.width;
      assert r.bits == c.bits[j := p.on];
      if p.at != Point(x, y) {
        if i == j {
          CellInjective(x, y, p.at.x, p.at.y, c.width);
        }
        assert i != j;
      }
    }
  }

  lemma CanvasDrawPixelOutside(c: Canvas, p: Pixel)
    requires c.Valid() && !c.InBounds(p.at.x, p.at.y)
    ensures CanvasDrawPixel(c, p) == c
  {
  }

  /** `ScrollableCanvas::draw_iter`: pixels are applied in order. */
  function CanvasDrawIter(c: Canvas, pixels: seq<Pixel>): (r: Canvas)
    requires c.Valid()
    ensures r.Valid() && r.width == c.width && r.height == c.height
  {
    if |pixels| == 0 then c
    else CanvasDrawPixel(CanvasDrawIter(c, pixels[..|pixels| - 1]), pixels[|pixels| - 1])
  }

  /** Pixels lying outside the canvas never change it. */
  lemma {:induction false} CanvasDrawIterOutside(c: Canvas, pixels: seq<Pixel>)
    requires c.Valid()
    requires forall i :: 0 <= i < |pixels| ==> !c.InBounds(pixels[i].at.x, pixels[i].at.y)
    ensures CanvasDrawIter(c, pixels) == c
  {
    if |pixels| > 0 {
      CanvasDrawIterOutside(c, pixels[..|pixels| - 1]);
      CanvasDrawPixelOutside(c, pixels[|pixels| - 1]);
    }
  }

  /** After `draw_iter` every canvas cell shows the colour of the last pixel drawn at it,
      or its old colour when none was. */
  lemma {:induction false} CanvasDrawIterLastWriteWins(c: Canvas, pixels: seq<Pixel>, x: int, y: int)
    requires c.Valid() && c.InBounds(x, y)
    ensures CanvasDrawIter(c, pixels).Get(x, y)
         == (match Device.LastWrite(pixels, x, y) case Some(v) => v case None => c.Get(x, y))
  {
    if |pixels| > 0 {
      var init := pixels[..|pixels| - 1];
      CanvasDrawIterLastWriteWins(c, init, x, y);
      CanvasDrawPixelEffect(CanvasDrawIter(c, init), pixels[|pixels| - 1], x, y);
    }
  }

  /** Drawn onto a blank canvas, the lit cells are exactly those whose last pixel is on. */
  lemma BlankCanvasShowsLastWrites(width: nat, height: nat, pixels: seq<Pixel>)
    ensures var c := CanvasDrawIter(NewCanvas(width, height), pixels);
      forall x, y :: c.InBounds(x, y) ==> (c.Get(x, y) <==> Device.LastWrite(pixels, x, y) == Some(true))
  {
    var blank := NewCanvas(width, height);
    var c := CanvasDrawIter(blank, pixels);
    forall x, y | c.InBounds(x, y)
      ensures c.Get(x, y) <==> Device.LastWrite(pixels, x, y) == Some(true)
    {
      CanvasDrawIterLastWriteWins(blank, pixels, x, y);
      CellIndex(x, y, width, height);
    }
  }

  /** `ScrollableCanvas::clear`: every bit takes the given colour. */
  function Clear(c: Canvas, on: bool): (r: Canvas)
    requires c.Valid()
    ensures r.Valid() && r.width == c.width && r.height == c.height
    ensures forall i :: 0 <= i < |r.bits| ==> r.bits[i] == on
  {
    c.(bits := seq(|c.bits|, _ => on))
  }

  /** What the font renderer produces for a string: the size of its bounding box and the
      pixels it draws, relative to the top-left corner (`Baseline::Top` at the origin). */
  datatype Glyphs = Glyphs(size: Size, pixels: seq<Pixel>)

  /** A font: how a string is measured and rasterised. */
  type Renderer = string -> Glyphs

  const DEFAULT_SPACING: nat := 5

  /** `ScrollableBuilder`: the options of a scrolling text; `None` means "use the default". */
  datatype ScrollableBuilder = ScrollableBuilder(
    spacing: Option<nat>,
    position: Option<Point>,
    projection: Option<Size>,
    text: string)

  /** `ScrollableBuilder::new()`. */
  const EmptyBuilder: ScrollableBuilder := ScrollableBuilder(None, None, None, "")

  /** `Scrollable`: the canvas, the window onto it, where the window goes, and the tick. */
  datatype Scrollable = Scrollable(
    canvas: Canvas,
    projection: Size,
    position: Point,
    spacing: nat,
    scroll: nat)

  /** `calculate_spacing`: blank columns after the text, 5 unless configured. */
  function CalculateSpacing(b: ScrollableBuilder): (r: nat)
    ensures b.spacing.None? ==> r == DEFAULT_SPACING
    ensures b.spacing.Some? ==> r == b.spacing.value
  {
    b.spacing.GetOr(DEFAULT_SPACING)
  }

  /** `calculate_size`: the text's bounding box widened by the spacing. */
  function CalculateSize(b: ScrollableBuilder, g: Glyphs): (r: Size)
    ensures r.width == g.size.width + CalculateSpacing(b) && r.height == g.size.height
  {
    Size(g.size.width + CalculateSpacing(b), g.size.height)
  }

  /** `ScrollableBuilder::build`: render the text once into a canvas of text width plus
      spacing; projection defaults to the whole canvas and position to the origin. */
  function Build(b: ScrollableBuilder, render: Renderer): (s: Scrollable)
    ensures s.canvas.Valid()
    ensures s.canvas.width == render(b.text).size.width + CalculateSpacing(b)
    ensures s.canvas.height == render(b.text).size.height
    ensures s.projection == b.projection.GetOr(Size(s.canvas.width, s.canvas.height))
    ensures s.position == b.position.GetOr(Origin)
    ensures s.spacing == CalculateSpacing(b) && s.scroll == 0
    // the canvas holds the rendered glyphs on a blank background
    ensures forall x, y :: s.canvas.InBounds(x, y) ==>
      (s.canvas.Get(x, y) <==> Device.LastWrite(render(b.text).pixels, x, y) == Some(true))
  {
    BlankCanvasShowsLastWrites(CalculateSize(b, render(b.text)).width,
      CalculateSize(b, render(b.text)).height, render(b.text).pixels);
    var g := render(b.text);
    var size := CalculateSize(b, g);
    Scrollable(
      CanvasDrawIter(NewCanvas(size.width, size.height), g.pixels),
      b.projection.GetOr(size),
      b.position.GetOr(Origin),
      CalculateSpacing(b),
      0)
  }

  /** What `at_tick` needs: a non-empty canvas (it takes the tick modulo its width) and a
      projection no taller than the canvas (its first copy indexes the canvas unchecked). */
  predicate Renderable(s: Scrollable) {
    s.canvas.Valid() && s.canvas.width > 0 && s.projection.height <= s.canvas.height
  }

  /** First copy of row `n`: canvas columns `scroll ..` up to the projection width or the
      end of the row, whichever comes first, drawn from column 0 of the projection. */
  function FirstSegment(s: Scrollable, scroll: nat, n: nat): (r: seq<Pixel>)
    requires Renderable(s) && scroll < s.canvas.width && n < s.projection.height
    ensures |r| == Min(s.projection.width, s.canvas.width - scroll)
  {
    var cw := s.canvas.width;
    RowEnd(n, cw, s.canvas.height);
    var lo := scroll + n * cw;
    var hi := Min(lo + s.projection.width, (n + 1) * cw);
    seq(hi - lo, j requires 0 <= j < hi - lo =>
      Pixel(s.position.Add(Point(j, n)), s.canvas.bits[lo + j]))
  }

  /** Whether `at_tick` wraps around: the window runs past the end of the canvas and is
      narrower than it (a wider window would show columns twice). */
  predicate Wraps(s: Scrollable, scroll: nat) {
    scroll + s.projection.width >= s.canvas.width && s.projection.width < s.canvas.width
  }

  /** Wrap copy of row `n`: the `overflow` columns from the start of the row, drawn into
      the tail of the projection, skipping any index past the end of the canvas. */
  function WrapSegment(s: Scrollable, scroll: nat, n: nat): seq<Pixel>
    requires Renderable(s) && scroll < s.canvas.width && n < s.projection.height
  {
    if Wraps(s, scroll) then
      var cw := s.canvas.width;
      var lo := n * cw;
      var overflow := scroll + s.projection.width - cw;
      var end := Min(lo + overflow, |s.canvas.bits|);
      var count := if end <= lo then 0 else end - lo;
      seq(count, j requires 0 <= j < count =>
        Pixel(s.position.Add(Point(j + (s.projection.width - overflow), n)), s.canvas.bits[lo + j]))
    else
      []
  }

  /** The pixels `at_tick` pushes for projection row `n`. */
  function Row(s: Scrollable, scroll: nat, n: nat): seq<Pixel>
    requires Renderable(s) && scroll < s.canvas.width && n < s.projection.height
  {
    FirstSegment(s, scroll, n) + WrapSegment(s, scroll, n)
  }

  function Rows(s: Scrollable, scroll: nat, n: nat): seq<Pixel>
    requires Renderable(s) && scroll < s.canvas.width
    decreases s.projection.height - n
  {
    if n >= s.projection.height then [] else Row(s, scroll, n) + Rows(s, scroll, n + 1)
  }

  /** `Scrollable::at_tick`: the pixels drawn for a given tick. */
  function AtTick(s: Scrollable, tick: nat): (r: seq<Pixel>)
    requires Renderable(s)
    ensures r == CyclicRows(s, tick % s.canvas.width, 0)
  {
    RowsAreCyclic(s, tick % s.canvas.width, 0);
    Rows(s, tick % s.canvas.width, 0)
  }

  /** How many columns of a row the projection shows: the whole projection when the canvas
      is wider, otherwise the rest of the canvas row from the scroll offset. */
  function VisibleWidth(s: Scrollable, scroll: nat): nat
    requires scroll < s.canvas.width
  {
    if s.projection.width < s.canvas.width then s.projection.width else s.canvas.width - scroll
  }

  /** Reference definition of what projection row `n` shows: projection column `x` shows
      canvas column `(scroll + x) mod width` of row `n`, i.e. the row rotated left. */
  function CyclicRow(s: Scrollable, scroll: nat, n: nat): (r: seq<Pixel>)
    requires Renderable(s) && scroll < s.canvas.width && n < s.projection.height
    ensures |r| == VisibleWidth(s, scroll)
  {
    var cw := s.canvas.width;
    RowEnd(n, cw, s.canvas.height);
    seq(VisibleWidth(s, scroll), x requires 0 <= x < VisibleWidth(s, scroll) =>
      Pixel(s.position.Add(Point(x, n)), s.canvas.bits[n * cw + (scroll + x) % cw]))
  }

  function CyclicRows(s: Scrollable, scroll: nat, n: nat): seq<Pixel>
    requires Renderable(s) && scroll < s.canvas.width
    decreases s.projection.height - n
  {
    if n >= s.projection.height then [] else CyclicRow(s, scroll, n) + CyclicRows(s, scroll, n + 1)
  }

  /** Column `x` of the first copy is column `x` of the rotated row: it has not yet
      reached the end of the canvas row. */
  lemma FirstMatchesCyclic(s: Scrollable, scroll: nat, n: nat, x: nat)
    requires Renderable(s) && scroll < s.canvas.width && n < s.projection.height
    requires x < |FirstSegment(s, scroll, n)|
    ensures x < |CyclicRow(s, scroll, n)|
    ensures FirstSegment(s, scroll, n)[x] == CyclicRow(s, scroll, n)[x]
  {
    var cw := s.canvas.width;
    RowEnd(n, cw, s.canvas.height);
    ModSmall(scroll + x, cw);
    var base := n * cw;
    assert FirstSegment(s, scroll, n)[x].on == s.canvas.bits[base + (scroll + x)];
  }

  /** When the window wraps, the wrap copy holds exactly the columns the first copy
      leaves over. */
  lemma WrapLength(s: Scrollable, scroll: nat, n: nat)
    requires Renderable(s) && scroll < s.canvas.width && n < s.projection.height
    requires Wraps(s, scroll)
    ensures |FirstSegment(s, scroll, n)| + |WrapSegment(s, scroll, n)| == |CyclicRow(s, scroll, n)|
  {
    RowEnd(n, s.canvas.width, s.canvas.height);
  }

  /** Past the first copy, column `x` of the rotated row has wrapped to the start of the
      canvas row, which is where the wrap copy reads it. */
  lemma WrapMatchesCyclic(s: Scrollable, scroll: nat, n: nat, x: nat)
    requires Renderable(s) && scroll < s.canvas.width && n < s.projection.height
    requires Wraps(s, scroll)
    requires |FirstSegment(s, scroll, n)| <= x < |CyclicRow(s, scroll, n)|
    ensures x - |FirstSegment(s, scroll, n)| < |WrapSegment(s, scroll, n)|
    ensures WrapSegment(s, scroll, n)[x - |FirstSegment(s, scroll, n)|] == CyclicRow(s, scroll, n)[x]
  {
    var cw := s.canvas.width;
    WrapLength(s, scroll, n);
    RowEnd(n, cw, s.canvas.height);
    ModOnce(scroll + x, cw);
    var j := x - |FirstSegment(s, scroll, n)|;
    var base := n * cw;
    assert WrapSegment(s, scroll, n)[j].on == s.canvas.bits[base + j];
  }

  /** The two copies of a row tile the projection: together they are exactly the rotated
      row, every projection column drawn once, in order, with the right canvas bit. */
  lemma RowIsCyclic(s: Scrollable, scroll: nat, n: nat)
    requires Renderable(s) && scroll < s.canvas.width && n < s.projection.height
    ensures Row(s, scroll, n) == CyclicRow(s, scroll, n)
  {
    var first := FirstSegment(s, scroll, n);
    var wrap := WrapSegment(s, scroll, n);
    var cyc := CyclicRow(s, scroll, n);
    if Wraps(s, scroll) {
      WrapLength(s, scroll, n);
      forall x | 0 <= x < |cyc|
        ensures (first + wrap)[x] == cyc[x]
      {
        if x < |first| {
          FirstMatchesCyclic(s, scroll, n, x);
        } else {
          WrapMatchesCyclic(s, scroll, n, x);
        }
      }
    } else {
      assert wrap == [];
      forall x | 0 <= x < |cyc|
        ensures (first + wrap)[x] == cyc[x]
      {
        FirstMatchesCyclic(s, scroll, n, x);
      }
    }
  }

  lemma {:induction false} RowsAreCyclic(s: Scrollable, scroll: nat, n: nat)
    requires Renderable(s) && scroll < s.canvas.width
    ensures Rows(s, scroll, n) == CyclicRows(s, scroll, n)
    decreases s.projection.height - n
  {
    if n < s.projection.height {
      RowIsCyclic(s, scroll, n);
      RowsAreCyclic(s, scroll, n + 1);
    }
  }

  /** `at_tick` shows the canvas rotated by `tick mod width`, row by row. */
  lemma AtTickIsRotatedWindow(s: Scrollable, tick: nat)
    requires Renderable(s)
    ensures AtTick(s, tick) == CyclicRows(s, tick % s.canvas.width, 0)
  {
    RowsAreCyclic(s, tick % s.canvas.width, 0);
  }

  /** Periodicity: ticks one canvas width apart draw identical pixels. */
  lemma AtTickPeriodic(s: Scrollable, tick: nat)
    requires Renderable(s)
    ensures AtTick(s, tick + s.canvas.width) == AtTick(s, tick)
  {
    ModAddPeriod(tick, s.canvas.width);
  }

  /** Pixel `p` lies inside the projection rectangle, at row `n0` or below. */
  predicate InProjection(s: Scrollable, p: Pixel, n0: nat) {
    s.position.x <= p.at.x < s.position.x + s.projection.width &&
    s.position.y + n0 <= p.at.y < s.position.y + s.projection.height
  }

  /** Every pixel of rows `n..` lands inside the projection at `position`. */
  lemma {:induction false} CyclicRowsInProjection(s: Scrollable, scroll: nat, n: nat)
    requires Renderable(s) && scroll < s.canvas.width
    ensures forall i :: 0 <= i < |CyclicRows(s, scroll, n)| ==>
      InProjection(s, CyclicRows(s, scroll, n)[i], n)
    decreases s.projection.height - n
  {
    if n < s.projection.height {
      CyclicRowsInProjection(s, scroll, n + 1);
      var row := CyclicRow(s, scroll, n);
      var rest := CyclicRows(s, scroll, n + 1);
      assert CyclicRows(s, scroll, n) == row + rest;
      forall i | 0 <= i < |row + rest|
        ensures InProjection(s, (row + rest)[i], n)
      {
        if i >= |row| {
          assert (row + rest)[i] == rest[i - |row|];
        }
      }
    }
  }

  /** Every pixel `at_tick` emits lies inside the projection rectangle at `position`. */
  lemma AtTickInProjection(s: Scrollable, tick: nat)
    requires Renderable(s)
    ensures forall i :: 0 <= i < |AtTick(s, tick)| ==> InProjection(s, AtTick(s, tick)[i], 0)
  {
    AtTickIsRotatedWindow(s, tick);
    CyclicRowsInProjection(s, tick % s.canvas.width, 0);
  }

  /** `Drawable::draw`: renders the window at the current scroll counter. */
  function Draw(s: Scrollable, fb: Device.FrameBuffer): (r: Device.FrameBuffer)
    requires Renderable(s)
    ensures r == Device.DrawIter(fb, CyclicRows(s, s.scroll % s.canvas.width, 0))
  {
    Device.DrawIter(fb, AtTick(s, s.scroll))
  }

  /** `Scrollable::scroll`: advance by exactly one column. */
  function Scroll(s: Scrollable): (r: Scrollable)
    ensures r.scroll == s.scroll + 1
    ensures r.(scroll := s.scroll) == s
  {
    s.(scroll := s.scroll + 1)
  }

  /** `StatefulScrollable`: the options the text was built from and the built text. */
  datatype StatefulScrollable = StatefulScrollable(builder: ScrollableBuilder, text: Scrollable)

  /** `TryFrom<ScrollableBuilder>`: build once and remember the options. */
  function FromBuilder(b: ScrollableBuilder, render: Renderer): (r: StatefulScrollable)
    ensures r.builder == b && r.text == Build(b, render) && r.text.scroll == 0
  {
    StatefulScrollable(b, Build(b, render))
  }

  /** `StatefulScrollable::update`: rebuild only when the text differs. Returns whether it
      rebuilt, and the new state. */
  function Update(st: StatefulScrollable, text: string, render: Renderer): (r: (bool, StatefulScrollable))
    ensures r.0 <==> text != st.builder.text
    ensures !r.0 ==> r.1 == st
    ensures r.0 ==> r.1.builder == st.builder.(text := text) && r.1.text == Build(r.1.builder, render)
    ensures r.1.builder.text == text
  {
    if st.builder.text != text then
      var b := st.builder.(text := text);
      (true, StatefulScrollable(b, Build(b, render)))
    else
      (false, st)
  }

  /** Updating twice with the same text rebuilds at most once. */
  lemma UpdateIdempotent(st: StatefulScrollable, text: string, render: Renderer)
    ensures !Update(Update(st, text, render).1, text, render).0
    ensures Update(Update(st, text, render).1, text, render).1 == Update(st, text, render).1
  {
  }
}
