/**
 * Notifications: the layout arithmetic of `NotificationBuilder` (where the title goes,
 * how wide its window is, whether it must scroll and for how many ticks the
 * notification stays up) and the finite sequence of frames a notification shows.
 */
module Notifications {
  import opened Geometry
  import opened Wrappers
  import opened Strings
  import Device
  import Text
  import Scheduler
  import opened Arith

  /** A monospaced font, by the size of one character cell. */
  datatype Font = Font(charWidth: nat, charHeight: nat)

  /** `ascii::FONT_6X10`, the only font a builder can end up with (there is no setter). */
  const FONT_6X10: Font := Font(CHAR_WIDTH, CHAR_HEIGHT)
  const CHAR_WIDTH: nat := 6
  const CHAR_HEIGHT: nat := 10

  /** A bitmap icon: its size and the pixels it draws from the top-left corner. */
  datatype Icon = Icon(size: Size, pixels: seq<Pixel>)

  datatype NotificationBuilder = NotificationBuilder(
    title: Option<string>,
    content: Option<string>,
    icon: Option<Icon>)

  const DEFAULT_TITLE: string := "Notification"
  const ICON_ERROR: string := "Notification icons need to be 24x24 for the time being!"

  /** `Size::new(128, 40)`. */
  const DISPLAY: Size := Size(128, 40)

  /** `u32::MAX + 1`: `required_ticks` ends with a truncating cast to `u32`. */
  const U32_LIMIT: nat := 0x1_0000_0000

  /** `NotificationBuilder::new()`: nothing set. */
  const EmptyBuilder: NotificationBuilder := NotificationBuilder(None, None, None)

  function Title(b: NotificationBuilder): (r: string)
    ensures b.title.None? ==> r == DEFAULT_TITLE
    ensures b.title.Some? ==> r == b.title.value
  {
    b.title.GetOr(DEFAULT_TITLE)
  }

  /** `offset`: the icon's size (nothing without an icon) plus a margin of (3, 10). */
  function Offset(b: NotificationBuilder): (r: Size)
    ensures b.icon.None? ==> r == Size(3, 10)
    ensures b.icon.Some? ==> r.width == b.icon.value.size.width + 3 && r.height == b.icon.value.size.height + 10
  {
    var icon := match b.icon case Some(i) => i.size case None => Size(0, 0);
    Size(icon.width + 3, icon.height + 10)
  }

  /** The unsigned subtractions in `projection` do not underflow: the offset fits on the
      display and leaves at least the 3-column right margin. */
  predicate ProjectionDefined(b: NotificationBuilder) {
    Offset(b).width + 3 <= DISPLAY.width && Offset(b).height <= DISPLAY.height
  }

  /** `projection`: the title window runs from the offset to 3 columns before the right
      edge, one character high. */
  function Projection(b: NotificationBuilder): (r: Size)
    requires ProjectionDefined(b)
    ensures r.width + Offset(b).width + 3 == DISPLAY.width
    ensures r.height == CHAR_HEIGHT
  {
    Size((DISPLAY.width - Offset(b).width) - 3, CHAR_HEIGHT)
  }

  /** `projection_characters`: whole characters that fit in the window. */
  function ProjectionCharacters(b: NotificationBuilder): (r: nat)
    requires ProjectionDefined(b)
    ensures r * CHAR_WIDTH <= Projection(b).width < (r + 1) * CHAR_WIDTH
  {
    Projection(b).width / CHAR_WIDTH
  }

  /** The window is 122 columns (20 characters) wide without an icon and 98 columns
      (16 characters) wide next to a 24x24 icon. */
  lemma ProjectionWidths(b: NotificationBuilder)
    requires b.icon.None? || b.icon.value.size == Size(24, 24)
    ensures ProjectionDefined(b)
    ensures b.icon.None? ==> Projection(b).width == 122 && ProjectionCharacters(b) == 20
    ensures b.icon.Some? ==> Projection(b).width == 98 && ProjectionCharacters(b) == 16
  {
  }

  /** `needs_scroll`: the title has more bytes than the window has characters. */
  predicate NeedsScroll(b: NotificationBuilder)
    requires ProjectionDefined(b)
  {
    ProjectionCharacters(b) < Utf8Len(Title(b))
  }

  /** Extra ticks for scrolling a title of `len` bytes through a window of `chars`
      characters: the overhanging bytes plus two, one character width (one tick per
      column) each. */
  function ScrollTicks(chars: nat, len: nat): (r: nat)
    ensures len <= chars ==> r == 0
    ensures chars < len ==> r >= 3 * CHAR_WIDTH
  {
    if chars < len then (len - chars + 2) * CHAR_WIDTH else 0
  }

  /** One second of ticks before and after the scrolling, cast to `u32`. */
  function TotalTicks(chars: nat, len: nat): (r: nat)
    ensures r < U32_LIMIT
    ensures 2 * Scheduler.TICKS_PER_SECOND + ScrollTicks(chars, len) < U32_LIMIT ==>
      r == 2 * Scheduler.TICKS_PER_SECOND + ScrollTicks(chars, len)
  {
    var total := Scheduler.TICKS_PER_SECOND + ScrollTicks(chars, len) + Scheduler.TICKS_PER_SECOND;
    ModBounds(total, U32_LIMIT);
    total % U32_LIMIT
  }

  /** For a title shorter than 2^28 bytes nothing wraps: at least 40 ticks, exactly 40
      iff the title fits. */
  lemma TotalTicksBounds(chars: nat, len: nat)
    requires len < 0x1000_0000
    ensures TotalTicks(chars, len) >= 40
    ensures len <= chars <==> TotalTicks(chars, len) == 40
  {
    assert Scheduler.TICKS_PER_SECOND == 20;
    if chars < len {
      var over := len - chars + 2;
      MulMonotone(over, 0x1000_0000 + 2, CHAR_WIDTH);
    }
    assert TotalTicks(chars, len) == 40 + ScrollTicks(chars, len);
  }

  /** `scroll_time`: no extra ticks for a title that fits. */
  function ScrollTime(b: NotificationBuilder): (r: nat)
    requires ProjectionDefined(b)
    ensures !NeedsScroll(b) ==> r == 0
    ensures NeedsScroll(b) ==> r >= 3 * CHAR_WIDTH
  {
    ScrollTicks(ProjectionCharacters(b), Utf8Len(Title(b)))
  }

  /** `required_ticks`. */
  function RequiredTicks(b: NotificationBuilder): (r: nat)
    requires ProjectionDefined(b)
    ensures r < U32_LIMIT
    ensures 2 * Scheduler.TICKS_PER_SECOND + ScrollTime(b) < U32_LIMIT ==>
      r == 2 * Scheduler.TICKS_PER_SECOND + ScrollTime(b)
  {
    TotalTicks(ProjectionCharacters(b), Utf8Len(Title(b)))
  }

  /** A notification is up for at least two seconds (40 ticks of 50 ms); a title that
      fits stays exactly that long, and a scrolling one strictly longer. */
  lemma RequiredTicksBounds(b: NotificationBuilder)
    requires ProjectionDefined(b) && Utf8Len(Title(b)) < 0x1000_0000
    ensures RequiredTicks(b) >= 40
    ensures !NeedsScroll(b) <==> RequiredTicks(b) == 40
  {
    TotalTicksBounds(ProjectionCharacters(b), Utf8Len(Title(b)));
  }

  /** A built notification. */
  datatype Notification = Notification(
    frame: Device.FrameBuffer,
    ticks: nat,
    title: Text.Scrollable,
    scroll: bool,
    content: string)

  /** The title's scrollable: at (offset width, 3), in the projection window. */
  function TitleBuilder(b: NotificationBuilder): (r: Text.ScrollableBuilder)
    requires ProjectionDefined(b)
    ensures r.text == Title(b) && r.spacing.None?
    ensures r.position == Some(Point(Offset(b).width, 3)) && r.projection == Some(Projection(b))
  {
    Text.EmptyBuilder.(text := Title(b), position := Some(Point(Offset(b).width, 3)),
      projection := Some(Projection(b)))
  }

  /** `build`: an icon must be exactly 24x24; the base frame is a blank buffer with the
      icon drawn at the origin. */
  function Build(b: NotificationBuilder, render: Text.Renderer): (r: Result<Notification>)
    ensures r.Err? <==> b.icon.Some? && b.icon.value.size != Size(24, 24)
    ensures r.Err? ==> r.error == ICON_ERROR
    ensures r.Ok? ==> ProjectionDefined(b)
    ensures r.Ok? && b.icon.None? ==> r.value.frame == Device.New()
    ensures r.Ok? && b.icon.Some? ==> r.value.frame == Device.DrawIter(Device.New(), b.icon.value.pixels)
    ensures r.Ok? ==> r.value.ticks == RequiredTicks(b) && r.value.scroll == NeedsScroll(b)
    ensures r.Ok? ==> r.value.title == Text.Build(TitleBuilder(b), render)
    ensures r.Ok? ==> r.value.content == b.content.GetOr("")
  {
    match b.icon
    case Some(icon) =>
      if icon.size.width != 24 || icon.size.height != 24 then Err(ICON_ERROR)
      else Ok(Assemble(b, Device.DrawIter(Device.New(), icon.pixels), render))
    case None => Ok(Assemble(b, Device.New(), render))
  }

  function Assemble(b: NotificationBuilder, frame: Device.FrameBuffer, render: Text.Renderer): Notification
    requires ProjectionDefined(b)
  {
    Notification(frame, RequiredTicks(b), Text.Build(TitleBuilder(b), render), NeedsScroll(b),
      b.content.GetOr(""))
  }

  /** A built notification's title is positioned right of the icon, in a window that ends
      3 columns before the display's right edge, and the notification lasts at least 40
      ticks. */
  lemma BuiltLayout(b: NotificationBuilder, render: Text.Renderer)
    requires Build(b, render).Ok? && Utf8Len(Title(b)) < 0x1000_0000
    ensures var n := Build(b, render).value;
      n.title.position.x + n.title.projection.width + 3 == DISPLAY.width &&
      n.title.position.y == 3 && n.title.projection.height == 10 &&
      n.ticks >= 40
  {
    RequiredTicksBounds(b);
  }

  /** With a font that draws the title at least one character high, as the 6x10 font
      does, a built notification's title can be rendered, so its frames are defined. */
  lemma BuiltTitleRenderable(b: NotificationBuilder, render: Text.Renderer)
    requires b.icon.None? || b.icon.value.size == Size(24, 24)
    requires render(Title(b)).size.height >= CHAR_HEIGHT
    ensures Build(b, render).Ok? && Text.Renderable(Build(b, render).value.title)
  {
  }

  /** The tick the title is rendered at in frame `i`: the frame number when the title
      scrolls, otherwise always 0. */
  function TitleTick(n: Notification, i: nat): (t: nat)
    ensures n.scroll ==> t == i
    ensures !n.scroll ==> t == 0
  {
    if n.scroll then i else 0
  }

  /** Frame `i`: a fresh copy of the base frame, the title at its tick, then the content
      text and progress bar, given here as the pixels they draw at that tick. */
  function Frame(n: Notification, overlay: nat -> seq<Pixel>, i: nat): (r: Device.FrameBuffer)
    requires Text.Renderable(n.title)
    ensures forall x, y :: Device.InRange(x, y) && !InTitleWindow(n.title, x, y) ==>
      Device.Get(r, x, y) == ShownOver(n.frame, overlay(i), x, y)
    ensures forall k :: Device.IsEnvelopeBit(k) ==> r.bits[k] == n.frame.bits[k]
  {
    OverlayOutsideTitle(n, overlay(i), TitleTick(n, i));
    Device.DrawIter(Device.DrawIter(n.frame, Text.AtTick(n.title, TitleTick(n, i))), overlay(i))
  }

  /** The title's window on the display. */
  predicate InTitleWindow(s: Text.Scrollable, x: int, y: int) {
    s.position.x <= x < s.position.x + s.projection.width &&
    s.position.y <= y < s.position.y + s.projection.height
  }

  /** What (x, y) shows once `pixels` are drawn over a buffer whose colour there is that
      of `base`: the last pixel drawn there, or the base colour. */
  function ShownOver(base: Device.FrameBuffer, pixels: seq<Pixel>, x: int, y: int): bool
    requires Device.InRange(x, y)
  {
    match Device.LastWrite(pixels, x, y)
    case Some(c) => c
    case None => Device.Get(base, x, y)
  }

  /** Outside the title window the title draws nothing, so the overlay decides each point
      and the base frame shows wherever the overlay leaves it alone. */
  lemma OverlayOutsideTitle(n: Notification, pixels: seq<Pixel>, tick: nat)
    requires Text.Renderable(n.title)
    ensures forall x, y :: Device.InRange(x, y) && !InTitleWindow(n.title, x, y) ==>
      Device.Get(Device.DrawIter(Device.DrawIter(n.frame, Text.AtTick(n.title, tick)), pixels), x, y)
      == ShownOver(n.frame, pixels, x, y)
  {
    var title := Text.AtTick(n.title, tick);
    Text.AtTickInProjection(n.title, tick);
    forall x, y | Device.InRange(x, y) && !InTitleWindow(n.title, x, y)
      ensures Device.Get(Device.DrawIter(Device.DrawIter(n.frame, title), pixels), x, y)
              == ShownOver(n.frame, pixels, x, y)
    {
      assert forall k :: 0 <= k < |title| ==> title[k].at != Point(x, y);
      Device.DrawIterUntouched(n.frame, title, x, y);
      Device.DrawIterLastWriteWins(Device.DrawIter(n.frame, title), pixels, x, y);
    }
  }

  /** `Notification::stream`: exactly `ticks` frames, in tick order. */
  method Stream(n: Notification, overlay: nat -> seq<Pixel>) returns (frames: seq<Device.FrameBuffer>)
    requires Text.Renderable(n.title)
    ensures |frames| == n.ticks
    ensures forall i :: 0 <= i < n.ticks ==> frames[i] == Frame(n, overlay, i)
  {
    frames := [];
    var i := 0;
    while i < n.ticks
      invariant 0 <= i <= n.ticks
      invariant |frames| == i
      invariant forall j :: 0 <= j < i ==> frames[j] == Frame(n, overlay, j)
    {
      var image := n.frame;
      image := Device.DrawIter(image, Text.AtTick(n.title, if n.scroll then i else 0));
      image := Device.DrawIter(image, overlay(i));
      frames := frames + [image];
      i := i + 1;
    }
  }

  /** A title that fits does not move: every frame renders it at tick 0. */
  lemma StillTitle(n: Notification, i: nat)
    requires Text.Renderable(n.title) && !n.scroll
    ensures Text.AtTick(n.title, TitleTick(n, i)) == Text.AtTick(n.title, 0)
  {
  }

  /** A scrolling title repeats after one canvas width of frames. */
  lemma ScrollingTitlePeriodic(n: Notification, i: nat)
    requires Text.Renderable(n.title) && n.scroll
    ensures Text.AtTick(n.title, TitleTick(n, i + n.title.canvas.width)) == Text.AtTick(n.title, TitleTick(n, i))
  {
    Text.AtTickPeriodic(n.title, i);
  }
}
