/**
 * The image renderer: binarises a decoded RGBA image (or every frame of an animated
 * one) against its median brightness, packs it into one-bit rows, and cycles through
 * the frames as their delays run out. Decoding and resizing (`fit_image`) happen outside
 * the model: the images it works on are inputs, already fitted to the display.
 */
module ImageRender {
  import opened Geometry
  import opened Bits
  import opened Arith
  import opened Wrappers
  import Device
  import Raster
  import Median
  import FrameCycle

  const DISPLAY_WIDTH: nat := 128
  const DISPLAY_HEIGHT: nat := 40

  datatype Rgba = Rgba(r: Byte, g: Byte, b: Byte, a: Byte)

  /** The colour of a fresh `RgbaImage::new` buffer: every channel zero. */
  const TRANSPARENT: Rgba := Rgba(0, 0, 0, 0)

  /** A decoded image: pixel (x, y) is defined for x < width and y < height. */
  datatype RgbaImage = RgbaImage(width: nat, height: nat, pixel: (nat, nat) -> Rgba)

  function Min(a: nat, b: nat): nat {
    if a < b then a else b
  }

  /** The histogram bucket of a pixel: the average of its three colour channels. */
  function Bucket(p: Rgba): (v: nat)
    ensures v < 256
  {
    (p.r + p.g + p.b) / 3
  }

  /** The brightness `read_image` compares with the median: the sum of each channel's
      third, which is at most 255 (so it never overflows a `u8`). */
  function Mean(p: Rgba): (m: nat)
    ensures m <= 255 && m <= Bucket(p)
  {
    p.r / 3 + p.g / 3 + p.b / 3
  }

  /** Rows the loops look at: `y < image_height`, inside the image and on the display. */
  function KeptRows(img: RgbaImage, ih: int): (r: nat)
    ensures r <= DISPLAY_HEIGHT && r <= img.height && (ih >= 0 ==> r <= ih)
  {
    Raster.KeptRows(ih, Min(img.height, DISPLAY_HEIGHT))
  }

  /** Columns the loops look at: `x < image_width`, inside the image and on the display. */
  function KeptColumns(img: RgbaImage, iw: int): (r: nat)
    ensures r <= DISPLAY_WIDTH && r <= img.width && (iw >= 0 ==> r <= iw)
  {
    Raster.KeptRows(iw, Min(img.width, DISPLAY_WIDTH))
  }

  /** The pixels the median loop visits, row by row, each weighted by its alpha. */
  function MedianSamples(img: RgbaImage, ih: int, iw: int): (s: seq<Median.Sample>)
    ensures |s| == KeptRows(img, ih) * KeptColumns(img, iw)
    ensures Median.Buckets(s)
  {
    var cols := KeptColumns(img, iw);
    var n := KeptRows(img, ih) * cols;
    if cols == 0 then []
    else seq(n, i requires 0 <= i < n => SampleAt(img, cols, i))
  }

  /** Sample `i` of the row-major walk over `cols` columns. */
  function SampleAt(img: RgbaImage, cols: nat, i: nat): (s: Median.Sample)
    requires cols > 0
    ensures s.bucket < 256
  {
    var p := img.pixel(i % cols, i / cols);
    Median.Sample(Bucket(p), p.a)
  }

  /** The per-bucket counts the median scan adds up: the alpha in the bucket over 255. */
  function MedianWeights(img: RgbaImage, ih: int, iw: int): (ws: seq<nat>)
    ensures |ws| == 256
  {
    var s := MedianSamples(img, ih, iw);
    seq(256, v requires 0 <= v < 256 => Median.Hist(s, v) / 255)
  }

  /** The scan's target: half of the total alpha over 255. */
  function MedianThreshold(img: RgbaImage, ih: int, iw: int): nat {
    (Median.Total(MedianSamples(img, ih, iw)) / 255) / 2
  }

  /** `calculate_median_color_value`: always in [1, 255]. */
  function MedianColor(img: RgbaImage, ih: int, iw: int): (m: Byte)
    ensures 1 <= m <= 255
  {
    Median.MedianOf(MedianWeights(img, ih, iw), MedianThreshold(img, ih, iw))
  }

  /** The median colour is the first brightness at which the alpha-weighted running count
      reaches half of all the alpha; 1 stands for 0 and for "never". */
  lemma MedianColorIsFirstReaching(img: RgbaImage, ih: int, iw: int, v: nat)
    requires 2 <= v < 256
    ensures var ws := MedianWeights(img, ih, iw);
      var t := MedianThreshold(img, ih, iw);
      MedianColor(img, ih, iw) == v <==> Median.Prefix(ws, v) < t <= Median.Prefix(ws, v + 1)
  {
    var ws := MedianWeights(img, ih, iw);
    var t := MedianThreshold(img, ih, iw);
    Median.MedianIff(ws, t);
    assert Median.MedianOf(ws, t) == v <==> Median.Prefix(ws, v) < t <= Median.Prefix(ws, v + 1);
    assert MedianColor(img, ih, iw) == Median.MedianOf(ws, t);
  }

  /** Whether `read_image` turns pixel (x, y) on: inside the image and the display, and at
      least as bright as the median. */
  function Lit(img: RgbaImage, median: nat): (nat, nat) -> bool {
    (x: nat, y: nat) => x < img.width && x < DISPLAY_WIDTH && Mean(img.pixel(x, y)) >= median
  }

  /** `read_image`: the kept rows, packed eight pixels to a byte. */
  function ReadImage(img: RgbaImage, ih: int, iw: int): (data: seq<Byte>)
    ensures |data| == KeptRows(img, ih) * Raster.RowBytes(iw)
  {
    Raster.PackRows(iw, KeptRows(img, ih), Lit(img, MedianColor(img, ih, iw)))
  }

  /** Read back as an `ImageRaw` of width `image_width`, the packed image has exactly the
      kept rows, and pixel (x, y) is on iff it lies inside the image and the display and
      is at least as bright as the median. */
  lemma ReadImageBits(img: RgbaImage, ih: int, iw: nat, x: nat, y: nat)
    requires x < iw && y < KeptRows(img, ih)
    ensures Raster.RawHeight(ReadImage(img, ih, iw), iw) == KeptRows(img, ih)
    ensures Raster.RawBit(ReadImage(img, ih, iw), iw, x, y) <==>
      x < img.width && x < DISPLAY_WIDTH && Mean(img.pixel(x, y)) >= MedianColor(img, ih, iw)
  {
    Raster.PackReadRoundTrip(iw, KeptRows(img, ih), Lit(img, MedianColor(img, ih, iw)), x, y);
  }

  /** `put_pixel` of source pixel (x, y) lands inside the buffer, or is skipped because a
      coordinate is negative. */
  predicate Placeable(w: int, h: int, offset: Point, size: Size, x: nat, y: nat) {
    x + offset.x < 0 || y + offset.y < 0 || (x + offset.x < size.width && y + offset.y < size.height)
  }

  /** `move_image` panics on no pixel: the bottom-right pixel that is not skipped fits. */
  predicate MoveFits(w: nat, h: nat, offset: Point, size: Size) {
    w == 0 || h == 0 || w - 1 + offset.x < 0 || h - 1 + offset.y < 0 ||
    (w - 1 + offset.x < size.width && h - 1 + offset.y < size.height)
  }

  /** `MoveFits` is exactly "every `put_pixel` of the loop is in bounds". */
  lemma MoveFitsIff(w: nat, h: nat, offset: Point, size: Size)
    ensures MoveFits(w, h, offset, size) <==>
      forall x: nat, y: nat :: x < w && y < h ==> Placeable(w, h, offset, size, x, y)
  {
    if !MoveFits(w, h, offset, size) {
      assert !Placeable(w, h, offset, size, w - 1, h - 1);
    }
  }

  /** `move_image`: a transparent buffer of the given size with every source pixel copied
      to its position plus the offset; pixels that would land at a negative coordinate are
      dropped. */
  function Move(img: RgbaImage, offset: Point, size: Size): (r: RgbaImage)
    requires MoveFits(img.width, img.height, offset, size)
    ensures r.width == size.width && r.height == size.height
    // every source pixel that is not dropped shows up at its shifted position
    ensures forall tx: nat, ty: nat ::
      offset.x <= tx < offset.x + img.width && offset.y <= ty < offset.y + img.height ==>
        tx < size.width && ty < size.height && r.pixel(tx, ty) == img.pixel(tx - offset.x, ty - offset.y)
    // a target pixel no source pixel lands on stays transparent
    ensures forall tx: nat, ty: nat ::
      !(offset.x <= tx < offset.x + img.width && offset.y <= ty < offset.y + img.height) ==>
        r.pixel(tx, ty) == TRANSPARENT
  {
    MoveFitsIff(img.width, img.height, offset, size);
    RgbaImage(size.width, size.height, (tx: nat, ty: nat) =>
      var x := tx - offset.x;
      var y := ty - offset.y;
      if 0 <= x < img.width && 0 <= y < img.height then img.pixel(x, y) else TRANSPARENT)
  }

  /** `center_image`: the offset that splits the free space evenly, the extra column or
      row going to the right or bottom. The unsigned subtraction needs the image to fit. */
  function CenterOffset(img: RgbaImage, size: Size): (offset: Point)
    requires img.width <= size.width && img.height <= size.height
    ensures offset.x >= 0 && offset.y >= 0
    ensures var right := size.width - img.width - offset.x;
      offset.x <= right <= offset.x + 1
    ensures var bottom := size.height - img.height - offset.y;
      offset.y <= bottom <= offset.y + 1
  {
    Point((size.width - img.width) / 2, (size.height - img.height) / 2)
  }

  /** Centering never panics and keeps the whole image: every pixel appears, shifted by
      the centering offset, and the margins are transparent. */
  function Center(img: RgbaImage, size: Size): (r: RgbaImage)
    requires img.width <= size.width && img.height <= size.height
    ensures r.width == size.width && r.height == size.height
    ensures var o := CenterOffset(img, size);
      forall tx: nat, ty: nat :: o.x <= tx < o.x + img.width && o.y <= ty < o.y + img.height ==>
        r.pixel(tx, ty) == img.pixel(tx - o.x, ty - o.y)
    ensures var o := CenterOffset(img, size);
      forall tx: nat, ty: nat ::
        !(o.x <= tx < o.x + img.width && o.y <= ty < o.y + img.height) ==> r.pixel(tx, ty) == TRANSPARENT
  {
    Move(img, CenterOffset(img, size), size)
  }

  /** A decoded animation frame: the image (already fitted to the display) and its delay
      in milliseconds as `Duration::as_millis` reports it. */
  datatype AnimationFrame = AnimationFrame(image: RgbaImage, delayMs: nat)

  /** What the decoder yields: the frames of an animation, some of which may have failed
      to decode, or a single still image. */
  datatype Decoded = Animated(frames: seq<Option<AnimationFrame>>) | Still(image: RgbaImage)

  /** The display size `fit_image` shrinks every image to fit into. */
  const SCREEN: Size := Size(DISPLAY_WIDTH, DISPLAY_HEIGHT)

  predicate Fits(img: RgbaImage) {
    img.width <= DISPLAY_WIDTH && img.height <= DISPLAY_HEIGHT
  }

  /** A frame's delay: milliseconds truncated to `u16`, and 16 (about 60 frames a second)
      when that is 0. */
  function FrameDelay(ms: nat): (d: nat)
    ensures 1 <= d < 0x1_0000
    ensures 0 < ms < 0x1_0000 ==> d == ms
    ensures ms == 0 ==> d == 16
  {
    ModBounds(ms, 0x1_0000);
    var truncated := ms % 0x1_0000;
    if truncated == 0 then 16 else truncated
  }

  /** A still image stays up 1.5 seconds per "frame". */
  const STILL_DELAY: nat := 1500

  /** The frames that decoded, in order. */
  function Decodable(frames: seq<Option<AnimationFrame>>): (r: seq<AnimationFrame>)
    ensures |r| <= |frames|
  {
    if |frames| == 0 then []
    else
      var rest := Decodable(frames[1..]);
      match frames[0]
      case Some(f) => [f] + rest
      case None => rest
  }

  datatype ImageRenderer = ImageRenderer(
    origin: Point,
    stop: Point,
    decodedFrames: seq<seq<Byte>>,
    cycle: FrameCycle.Cycle,
    delays: seq<nat>)

  /** Binarises one fitted image at the requested size. */
  function Binarise(img: RgbaImage, origin: Point, stop: Point): seq<Byte>
    requires Fits(img)
  {
    ReadImage(Center(img, SCREEN), stop.y - origin.y, stop.x - origin.x)
  }

  /** `read_dynamic_image`: one binarised frame and one delay per decodable frame of an
      animation, or a single frame with a 1500 ms delay for a still image; the first
      frame is current and the timer starts at `now`. */
  function ReadDynamic(origin: Point, stop: Point, decoded: Decoded, now: nat): (r: ImageRenderer)
    requires decoded.Still? ==> Fits(decoded.image)
    requires decoded.Animated? ==> forall i :: 0 <= i < |decoded.frames| && decoded.frames[i].Some? ==>
      Fits(decoded.frames[i].value.image)
    ensures r.origin == origin && r.stop == stop && r.cycle == FrameCycle.Cycle(0, now)
    ensures |r.decodedFrames| == |r.delays|
    ensures decoded.Still? ==> r.decodedFrames == [Binarise(decoded.image, origin, stop)] && r.delays == [STILL_DELAY]
    ensures decoded.Animated? ==> var ok := Decodable(decoded.frames);
      |r.delays| == |ok| &&
      forall i :: 0 <= i < |ok| ==>
        r.delays[i] == FrameDelay(ok[i].delayMs) &&
        Fits(ok[i].image) && r.decodedFrames[i] == Binarise(ok[i].image, origin, stop)
  {
    match decoded
    case Still(img) => ImageRenderer(origin, stop, [Binarise(img, origin, stop)], FrameCycle.Cycle(0, now), [STILL_DELAY])
    case Animated(frames) =>
      DecodableFit(frames);
      var ok := Decodable(frames);
      ImageRenderer(origin, stop,
        seq(|ok|, i requires 0 <= i < |ok| => Binarise(ok[i].image, origin, stop)),
        FrameCycle.Cycle(0, now),
        seq(|ok|, i requires 0 <= i < |ok| => FrameDelay(ok[i].delayMs)))
  }

  lemma {:induction false} DecodableFit(frames: seq<Option<AnimationFrame>>)
    requires forall i :: 0 <= i < |frames| && frames[i].Some? ==> Fits(frames[i].value.image)
    ensures forall i :: 0 <= i < |Decodable(frames)| ==> Fits(Decodable(frames)[i].image)
  {
    if |frames| > 0 {
      assert forall i :: 0 <= i < |frames[1..]| ==> frames[1..][i] == frames[i + 1];
      DecodableFit(frames[1..]);
    }
  }

  /** The renderer is in a state `draw` can index: the current frame exists, with a delay. */
  predicate Valid(r: ImageRenderer) {
    |r.delays| == |r.decodedFrames| && r.cycle.current < |r.decodedFrames|
  }

  /** `(stop.x - origin.x) as u32`. */
  function U32(v: int): (r: nat)
    ensures r < 0x1_0000_0000
    ensures 0 <= v < 0x1_0000_0000 ==> r == v
  {
    ModBounds(v + 0x1_0000_0000 * (if v < 0 then -v + 1 else 0), 0x1_0000_0000);
    v % 0x1_0000_0000
  }

  /** The pixels `draw` puts on the target: the current frame as an `ImageRaw` of width
      `stop.x - origin.x`, at the origin. */
  function FramePixels(r: ImageRenderer): seq<Pixel>
    requires Valid(r)
  {
    Raster.RawPixels(r.decodedFrames[r.cycle.current], U32(r.stop.x - r.origin.x), r.origin)
  }

  /** `draw`: render the current frame, then advance it once its delay has run out;
      returns the target, the new state and whether the animation wrapped around. */
  function Draw(r: ImageRenderer, target: Device.FrameBuffer, now: nat): (out: (Device.FrameBuffer, ImageRenderer, bool))
    requires Valid(r) && r.cycle.lastUpdate <= now
    ensures Valid(out.1) && out.1.(cycle := r.cycle) == r
    ensures out.0 == Device.DrawIter(target, FramePixels(r))
    ensures now - r.cycle.lastUpdate < r.delays[r.cycle.current] ==> out.1 == r && !out.2
    ensures now - r.cycle.lastUpdate >= r.delays[r.cycle.current] ==>
      out.1.cycle == FrameCycle.Cycle((r.cycle.current + 1) % |r.decodedFrames|, now) &&
      (out.2 <==> r.cycle.current == |r.decodedFrames| - 1)
  {
    var drawn := Device.DrawIter(target, FramePixels(r));
    var step := FrameCycle.Tick(r.cycle, |r.decodedFrames|, r.delays[r.cycle.current], now);
    (drawn, r.(cycle := step.0), step.1)
  }

  /** Every on-screen pixel of the current frame ends up on the target. */
  lemma DrawShowsFrame(r: ImageRenderer, target: Device.FrameBuffer, now: nat, x: nat, y: nat)
    requires Valid(r) && r.cycle.lastUpdate <= now
    requires var w := U32(r.stop.x - r.origin.x);
      x < w && y < Raster.RawHeight(r.decodedFrames[r.cycle.current], w)
    requires Device.InRange(r.origin.x + x, r.origin.y + y)
    ensures Device.Get(Draw(r, target, now).0, r.origin.x + x, r.origin.y + y) ==
      Raster.RawBit(r.decodedFrames[r.cycle.current], U32(r.stop.x - r.origin.x), x, y)
  {
    Raster.DrawRaw(target, r.decodedFrames[r.cycle.current], U32(r.stop.x - r.origin.x), r.origin, x, y);
  }

  /** A still image never moves on: it stays on its single frame after a draw,
      and every expired delay reports a completed cycle. */
  lemma StillImageWraps(origin: Point, stop: Point, img: RgbaImage, start: nat, now: nat, target: Device.FrameBuffer)
    requires Fits(img) && start <= now
    ensures var r := ReadDynamic(origin, stop, Still(img), start);
      Valid(r) &&
      Draw(r, target, now).1.cycle.current == 0 &&
      (Draw(r, target, now).2 <==> now - start >= STILL_DELAY)
  {
  }
}
