/**
 * The GIF renderer of `render/gif.rs`: the same binarise-and-pack pipeline as the image
 * renderer, but reading raw RGBA bytes of a decoded GIF frame by index, and with frame
 * delays counted in hundredths of a second.
 */
module GifRender {
  import opened Geometry
  import opened Bits
  import opened Arith
  import Device
  import Raster
  import Median
  import FrameCycle
  import ImageRender

  const U16_LIMIT: nat := 0x1_0000
  const U32_LIMIT: nat := 0x1_0000_0000

  /** A decoded GIF frame: its size, its pixels as RGBA bytes (four per pixel, row by
      row, possibly fewer than the size promises) and its delay in units of 10 ms. */
  datatype GifFrame = GifFrame(width: nat, height: nat, buffer: seq<Byte>, delay: nat)

  /** The frame's header fields are `u16`s. */
  predicate WellFormed(f: GifFrame) {
    f.width < U16_LIMIT && f.height < U16_LIMIT && f.delay < U16_LIMIT
  }

  /** Offset of pixel (x, y) in the buffer. */
  function Start(f: GifFrame, x: nat, y: nat): nat {
    (y * f.width + x) * 4
  }

  /** `pixels.get(i).unwrap_or(&0)`. */
  function ByteOr0(buffer: seq<Byte>, i: nat): (b: Byte)
    ensures i >= |buffer| ==> b == 0
  {
    if i < |buffer| then buffer[i] else 0
  }

  /** `pixel_r / 3 + pixel_g / 3 + pixel_b / 3`, in `u8` without overflow. */
  function Mean(f: GifFrame, x: nat, y: nat): (m: nat)
    ensures m <= 255
    ensures Start(f, x, y) >= |f.buffer| ==> m == 0
  {
    var s := Start(f, x, y);
    ByteOr0(f.buffer, s) / 3 + ByteOr0(f.buffer, s + 1) / 3 + ByteOr0(f.buffer, s + 2) / 3
  }

  function KeptRows(f: GifFrame, gh: int): (r: nat)
    ensures r <= ImageRender.DISPLAY_HEIGHT && r <= f.height
  {
    Raster.KeptRows(gh, ImageRender.Min(f.height, ImageRender.DISPLAY_HEIGHT))
  }

  function KeptColumns(f: GifFrame, gw: int): (r: nat)
    ensures r <= ImageRender.DISPLAY_WIDTH && r <= f.width
  {
    Raster.KeptRows(gw, ImageRender.Min(f.width, ImageRender.DISPLAY_WIDTH))
  }

  /** What the median loop adds for pixel (x, y): only when four bytes are available at
      its offset, in the bucket of its channel average, with weight `alpha / 255` (1 for
      a fully opaque pixel, else 0). */
  function SampleAt(f: GifFrame, x: nat, y: nat): (s: Median.Sample)
    ensures s.bucket < 256 && s.weight <= 1
    ensures s.weight == 1 <==> Start(f, x, y) + 4 <= |f.buffer| && f.buffer[Start(f, x, y) + 3] == 255
  {
    var st := Start(f, x, y);
    if st + 4 <= |f.buffer| then
      Median.Sample((f.buffer[st] as int + f.buffer[st + 1] + f.buffer[st + 2]) / 3, f.buffer[st + 3] / 255)
    else Median.Sample(0, 0)
  }

  function MedianSamples(f: GifFrame, gh: int, gw: int): (s: seq<Median.Sample>)
    ensures |s| == KeptRows(f, gh) * KeptColumns(f, gw)
    ensures Median.Buckets(s)
  {
    var cols := KeptColumns(f, gw);
    var n := KeptRows(f, gh) * cols;
    if cols == 0 then []
    else seq(n, i requires 0 <= i < n => WalkSample(f, cols, i))
  }

  /** Sample `i` of the row-major walk over `cols` columns. */
  function WalkSample(f: GifFrame, cols: nat, i: nat): (s: Median.Sample)
    requires cols > 0
    ensures s.bucket < 256
  {
    SampleAt(f, i % cols, i / cols)
  }

  /** `gif_width as u32 * gif_height as u32`, wrapping like a release build. */
  function NumPixels(gw: int, gh: int): (n: nat)
    ensures n < U32_LIMIT
    ensures 0 <= gw && 0 <= gh && gw * gh < U32_LIMIT ==> n == gw * gh
  {
    var p := ImageRender.U32(gw) * ImageRender.U32(gh);
    ModBounds(p, U32_LIMIT);
    FactorsFit(gw, gh);
    p % U32_LIMIT
  }

  /** When a product of two non-negative values fits in `u32`, so does each factor. */
  lemma FactorsFit(gw: int, gh: int)
    ensures 0 <= gw && 0 <= gh && gw * gh < U32_LIMIT ==>
      ImageRender.U32(gw) * ImageRender.U32(gh) == gw * gh
  {
    if 0 <= gw && 0 <= gh && gw * gh < U32_LIMIT && gw > 0 && gh > 0 {
      MulSign(gh, gw);
      MulSign(gw, gh);
    }
  }

  function MedianWeights(f: GifFrame, gh: int, gw: int): (ws: seq<nat>)
    ensures |ws| == 256
  {
    var s := MedianSamples(f, gh, gw);
    seq(256, v requires 0 <= v < 256 => Median.Hist(s, v))
  }

  /** `calculate_median_color_value`: the first bucket at which the count of opaque
      pixels reaches half of `gif_width * gif_height`; always in [1, 255]. */
  function MedianColor(f: GifFrame, gh: int, gw: int): (m: Byte)
    ensures 1 <= m <= 255
  {
    Median.MedianOf(MedianWeights(f, gh, gw), NumPixels(gw, gh) / 2)
  }

  lemma MedianColorIsFirstReaching(f: GifFrame, gh: int, gw: int, v: nat)
    requires 2 <= v < 256
    ensures var ws := MedianWeights(f, gh, gw);
      var t := NumPixels(gw, gh) / 2;
      MedianColor(f, gh, gw) == v <==> Median.Prefix(ws, v) < t <= Median.Prefix(ws, v + 1)
  {
    var ws := MedianWeights(f, gh, gw);
    var t := NumPixels(gw, gh) / 2;
    Median.MedianIff(ws, t);
    assert Median.MedianOf(ws, t) == v <==> Median.Prefix(ws, v) < t <= Median.Prefix(ws, v + 1);
  }

  function Lit(f: GifFrame, median: nat): (nat, nat) -> bool {
    (x: nat, y: nat) => x < f.width && x < ImageRender.DISPLAY_WIDTH && Mean(f, x, y) >= median
  }

  /** `read_frame`: the kept rows, packed eight pixels to a byte. */
  function ReadFrame(f: GifFrame, gh: int, gw: int): (data: seq<Byte>)
    ensures |data| == KeptRows(f, gh) * Raster.RowBytes(gw)
  {
    Raster.PackRows(gw, KeptRows(f, gh), Lit(f, MedianColor(f, gh, gw)))
  }

  /** Pixel (x, y) of the packed frame is on iff it lies inside the frame and the display
      and its mean reaches the median; a pixel whose bytes lie past the end of the buffer
      reads as black and is therefore off. */
  lemma ReadFrameBits(f: GifFrame, gh: int, gw: nat, x: nat, y: nat)
    requires x < gw && y < KeptRows(f, gh)
    ensures Raster.RawHeight(ReadFrame(f, gh, gw), gw) == KeptRows(f, gh)
    ensures Raster.RawBit(ReadFrame(f, gh, gw), gw, x, y) <==>
      x < f.width && x < ImageRender.DISPLAY_WIDTH && Mean(f, x, y) >= MedianColor(f, gh, gw)
    ensures Start(f, x, y) >= |f.buffer| ==> !Raster.RawBit(ReadFrame(f, gh, gw), gw, x, y)
  {
    Raster.PackReadRoundTrip(gw, KeptRows(f, gh), Lit(f, MedianColor(f, gh, gw)), x, y);
  }

  /** The wait before the next frame as the source computes it: `delay * 10` in `u16`
      arithmetic, which wraps (in a release build) once the delay reaches 6554. */
  function FrameWaitAsWritten(delay: nat): (ms: nat)
    requires delay < U16_LIMIT
    ensures ms < U16_LIMIT
    ensures delay * 10 < U16_LIMIT ==> ms == delay * 10
  {
    ModBounds(delay * 10, U16_LIMIT);
    (delay * 10) % U16_LIMIT
  }

  /** A delay of 6554 hundredths (65.54 s) overflows: the frame advances after 4 ms. */
  lemma FrameWaitOverflows()
    ensures FrameWaitAsWritten(6554) == 4
    ensures FrameWait(6554) == 65540
  {
    DivUnique(65540, U16_LIMIT, 1, 4);
  }

  /** The wait the delay field means: ten milliseconds per unit, computed without
      overflow (as `u64::from(delay) * 10`). */
  function FrameWait(delay: nat): (ms: nat)
    ensures delay >= 1 ==> ms >= 10
    ensures ms / 10 == delay && ms % 10 == 0
  {
    DivUnique(delay * 10, 10, delay, 0);
    delay * 10
  }

  /** The two agree on every delay below 6554 and the source's wait is strictly shorter
      on every larger one. */
  lemma FrameWaitAgreement(delay: nat)
    requires delay < U16_LIMIT
    ensures delay < 6554 ==> FrameWaitAsWritten(delay) == FrameWait(delay)
    ensures delay >= 6554 ==> FrameWaitAsWritten(delay) < FrameWait(delay)
  {
  }

  datatype Gif = Gif(
    origin: Point,
    stop: Point,
    decodedFrames: seq<seq<Byte>>,
    cycle: FrameCycle.Cycle,
    delays: seq<nat>)

  /** `Gif::new` once the decoder has produced its frames: every frame binarised at the
      requested size, its delay kept as is, the first frame current. */
  function New(origin: Point, stop: Point, frames: seq<GifFrame>, now: nat): (g: Gif)
    ensures |g.decodedFrames| == |g.delays| == |frames|
    ensures forall i :: 0 <= i < |frames| ==>
      g.decodedFrames[i] == ReadFrame(frames[i], stop.y - origin.y, stop.x - origin.x) &&
      g.delays[i] == frames[i].delay
    ensures g.cycle == FrameCycle.Cycle(0, now)
    ensures |frames| > 0 && (forall i :: 0 <= i < |frames| ==> WellFormed(frames[i])) ==> Valid(g)
  {
    var gh := stop.y - origin.y;
    var gw := stop.x - origin.x;
    Gif(origin, stop,
      seq(|frames|, i requires 0 <= i < |frames| => ReadFrame(frames[i], gh, gw)),
      FrameCycle.Cycle(0, now),
      seq(|frames|, i requires 0 <= i < |frames| => frames[i].delay))
  }

  predicate Valid(g: Gif) {
    |g.delays| == |g.decodedFrames| && g.cycle.current < |g.decodedFrames| &&
    forall i :: 0 <= i < |g.delays| ==> g.delays[i] < U16_LIMIT
  }

  function FramePixels(g: Gif): seq<Pixel>
    requires Valid(g)
  {
    Raster.RawPixels(g.decodedFrames[g.cycle.current], ImageRender.U32(g.stop.x - g.origin.x), g.origin)
  }

  /** `draw`: render the current frame; once the frame's wait has passed, move to the
      next frame, wrapping to 0 and reporting true after the last. The wait is the
      source's `delay * 10` in `u16`, which wraps from a delay of 6554 on. */
  function Draw(g: Gif, target: Device.FrameBuffer, now: nat): (out: (Device.FrameBuffer, Gif, bool))
    requires Valid(g) && g.cycle.lastUpdate <= now
    ensures Valid(out.1) && out.1.(cycle := g.cycle) == g
    ensures out.0 == Device.DrawIter(target, FramePixels(g))
    ensures now - g.cycle.lastUpdate < FrameWaitAsWritten(g.delays[g.cycle.current]) ==> out.1 == g && !out.2
    ensures now - g.cycle.lastUpdate >= FrameWaitAsWritten(g.delays[g.cycle.current]) ==>
      out.1.cycle == FrameCycle.Cycle((g.cycle.current + 1) % |g.decodedFrames|, now) &&
      (out.2 <==> g.cycle.current == |g.decodedFrames| - 1)
  {
    var drawn := Device.DrawIter(target, FramePixels(g));
    var step := FrameCycle.Tick(g.cycle, |g.decodedFrames|, FrameWaitAsWritten(g.delays[g.cycle.current]), now);
    (drawn, g.(cycle := step.0), step.1)
  }

  /** `draw` with the intended wait of ten milliseconds per delay unit. */
  function DrawIntended(g: Gif, target: Device.FrameBuffer, now: nat): (out: (Device.FrameBuffer, Gif, bool))
    requires Valid(g) && g.cycle.lastUpdate <= now
    ensures Valid(out.1) && out.1.(cycle := g.cycle) == g
    ensures out.0 == Device.DrawIter(target, FramePixels(g))
    ensures now - g.cycle.lastUpdate < 10 * g.delays[g.cycle.current] ==> out.1 == g && !out.2
    ensures now - g.cycle.lastUpdate >= 10 * g.delays[g.cycle.current] ==>
      out.1.cycle == FrameCycle.Cycle((g.cycle.current + 1) % |g.decodedFrames|, now) &&
      (out.2 <==> g.cycle.current == |g.decodedFrames| - 1)
  {
    var drawn := Device.DrawIter(target, FramePixels(g));
    var step := FrameCycle.Tick(g.cycle, |g.decodedFrames|, FrameWait(g.delays[g.cycle.current]), now);
    (drawn, g.(cycle := step.0), step.1)
  }

  /** While the current frame's delay is below 6554 the source's `draw` is the intended
      one. */
  lemma DrawAgreesBelowOverflow(g: Gif, target: Device.FrameBuffer, now: nat)
    requires Valid(g) && g.cycle.lastUpdate <= now && g.delays[g.cycle.current] < 6554
    ensures Draw(g, target, now) == DrawIntended(g, target, now)
  {
    FrameWaitAgreement(g.delays[g.cycle.current]);
  }

  /** A frame with a delay of 6554 (65.54 s) is left after 4 ms by the source's `draw`,
      where the intended one keeps it up. */
  lemma DrawOverflowAdvancesEarly(g: Gif, target: Device.FrameBuffer, now: nat)
    requires Valid(g) && g.cycle.lastUpdate <= now
    requires g.delays[g.cycle.current] == 6554 && now - g.cycle.lastUpdate == 4
    ensures Draw(g, target, now).1.cycle.current == (g.cycle.current + 1) % |g.decodedFrames|
    ensures DrawIntended(g, target, now).1 == g
  {
    FrameWaitOverflows();
  }
}
