/**
 * The GIF content provider of `providers/gif.rs`: every decoded frame is binarised into
 * a full-screen 128x40 one-bit image (640 bytes) at registration, and `render` shows the
 * frames one after another on a global counter.
 */
module GifProvider {
  import opened Geometry
  import opened Bits
  import opened Arith
  import opened Wrappers
  import Device
  import Raster
  import Median
  import FrameCycle
  import GifRender

  const DISPLAY_WIDTH: nat := 128
  const DISPLAY_HEIGHT: nat := 40

  /** `128 * 40 / 8`: the size of one packed frame. */
  const FRAME_BYTES: nat := 640

  /** Group `k` of the buffer (bytes `4k .. 4k + 3`) as a histogram sample: the sum of
      the thirds of its red, green and blue bytes, counted once. */
  function GroupSample(buffer: seq<Byte>, k: nat): (s: Median.Sample)
    requires 4 * k + 3 < |buffer|
    ensures s.bucket < 256 && s.weight == 1
  {
    Median.Sample(buffer[4 * k] / 3 + buffer[4 * k + 1] / 3 + buffer[4 * k + 2] / 3, 1)
  }

  /** The first `n` complete groups. */
  function Groups(buffer: seq<Byte>, n: nat): (s: seq<Median.Sample>)
    requires 4 * n <= |buffer|
    ensures |s| == n && Median.Buckets(s)
  {
    seq(n, k requires 0 <= k < n => GroupSample(buffer, k))
  }

  lemma GroupsGrow(buffer: seq<Byte>, n: nat)
    requires 4 * n + 4 <= |buffer|
    ensures Groups(buffer, n + 1)[..n] == Groups(buffer, n)
    ensures Groups(buffer, n + 1)[n] == GroupSample(buffer, n)
  {
  }

  /** Where byte `i` falls: group `i / 4`, channel `i % 4`. */
  lemma ByteStep(i: nat)
    ensures i - i % 4 == 4 * (i / 4)
    ensures i % 4 == 3 ==> (i + 1) / 4 == i / 4 + 1 && (i + 1) % 4 == 0
    ensures i % 4 != 3 ==> (i + 1) / 4 == i / 4 && (i + 1) % 4 == i % 4 + 1
  {
  }

  /** `colors` is the histogram of the first `n` groups. */
  predicate Counted(colors: seq<nat>, buffer: seq<Byte>, n: nat)
    requires 4 * n <= |buffer|
  {
    |colors| == 256 && forall v :: 0 <= v < 256 ==> colors[v] == Median.Hist(Groups(buffer, n), v)
  }

  /** Counting group `n` in its bucket extends the histogram by that group. */
  lemma CountGroup(colors: seq<nat>, buffer: seq<Byte>, n: nat)
    requires 4 * n + 4 <= |buffer| && Counted(colors, buffer, n)
    ensures var k := GroupSample(buffer, n).bucket;
      Counted(colors[k := colors[k] + 1], buffer, n + 1)
  {
    GroupsGrow(buffer, n);
  }

  /** The byte loop of `calculate_median_color_value`: the red, green and blue bytes of a
      group are remembered, and at its alpha byte the group is counted; a trailing
      incomplete group is never counted. */
  method GroupHistogram(buffer: seq<Byte>) returns (colors: seq<nat>)
    ensures |colors| == 256
    ensures forall v :: 0 <= v < 256 ==> colors[v] == Median.Hist(Groups(buffer, |buffer| / 4), v)
  {
    colors := seq(256, _ => 0);
    var r: Byte, g: Byte, b: Byte := 0, 0, 0;
    var i := 0;
    ghost var n, ch := 0, 0;
    while i < |buffer|
      invariant 0 <= i <= |buffer| && |colors| == 256
      invariant i == 4 * n + ch && ch < 4 && i % 4 == ch && i / 4 == n
      invariant Counted(colors, buffer, n)
      invariant ch >= 1 ==> r == buffer[4 * n]
      invariant ch >= 2 ==> g == buffer[4 * n + 1]
      invariant ch == 3 ==> b == buffer[4 * n + 2]
    {
      ByteStep(i);
      if i % 4 == 0 && i != 0 {
        r, g, b := 0, 0, 0;
      }
      if i % 4 == 3 {
        assert r / 3 + g / 3 + b / 3 == GroupSample(buffer, n).bucket;
        CountGroup(colors, buffer, n);
        colors := colors[r / 3 + g / 3 + b / 3 := colors[r / 3 + g / 3 + b / 3] + 1];
      }
      if i % 4 == 0 {
        r := buffer[i];
      }
      if i % 4 == 1 {
        g := buffer[i];
      }
      if i % 4 == 2 {
        b := buffer[i];
      }
      i := i + 1;
      n, ch := if ch == 3 then n + 1 else n, if ch == 3 then 0 else ch + 1;
    }
  }

  /** Every complete group is counted exactly once: the histogram's buckets add up to the
      number of complete groups. */
  lemma EveryGroupCountedOnce(buffer: seq<Byte>)
    ensures Median.Prefix(Median.Buckets256(Groups(buffer, |buffer| / 4)), 256) == |buffer| / 4
  {
    var s := Groups(buffer, |buffer| / 4);
    Median.HistogramAccountsAll(s);
    TotalOfOnes(s);
  }

  lemma {:induction false} TotalOfOnes(s: seq<Median.Sample>)
    requires forall i :: 0 <= i < |s| ==> s[i].weight == 1
    ensures Median.Total(s) == |s|
  {
    if |s| > 0 {
      TotalOfOnes(s[..|s| - 1]);
    }
  }

  /** `calculate_median_color_value`: the first bucket at which the group count reaches
      half of `width * height` (a `u16` product, which fits a `u32`). */
  function MedianColor(f: GifRender.GifFrame): (m: Byte)
    ensures 1 <= m <= 255
  {
    var s := Groups(f.buffer, |f.buffer| / 4);
    Median.MedianOf(Median.Buckets256(s), (f.width * f.height) / 2)
  }

  lemma MedianColorIsFirstReaching(f: GifRender.GifFrame, v: nat)
    requires 2 <= v < 256
    ensures var ws := Median.Buckets256(Groups(f.buffer, |f.buffer| / 4));
      var t := (f.width * f.height) / 2;
      MedianColor(f) == v <==> Median.Prefix(ws, v) < t <= Median.Prefix(ws, v + 1)
  {
    var ws := Median.Buckets256(Groups(f.buffer, |f.buffer| / 4));
    var t := (f.width * f.height) / 2;
    Median.MedianIff(ws, t);
    assert Median.MedianOf(ws, t) == v <==> Median.Prefix(ws, v) < t <= Median.Prefix(ws, v + 1);
  }

  /** A pixel is on when its column is inside the frame and its mean reaches the median;
      bytes past the end of the buffer read as 0. */
  function Lit(f: GifRender.GifFrame, median: nat): (nat, nat) -> bool {
    (x: nat, y: nat) => x < f.width && GifRender.Mean(f, x, y) >= median
  }

  /** The packing loop of `register_callback`: all 40 rows of 128 columns. */
  function PackFrame(f: GifRender.GifFrame): (data: seq<Byte>)
    ensures |data| == FRAME_BYTES
  {
    Raster.PackRows(DISPLAY_WIDTH, DISPLAY_HEIGHT, Lit(f, MedianColor(f)))
  }

  /** `convert_vec_to_array::<_, 640>`: a vector of any other length is a panic. */
  function ConvertToArray(v: seq<Byte>): (r: Result<seq<Byte>>)
    ensures r.Ok? <==> |v| == FRAME_BYTES
    ensures r.Ok? ==> r.value == v
  {
    if |v| == FRAME_BYTES then Ok(v)
    else Err("Expected a Vec of a different length")
  }

  /** Registration packs every frame into exactly 640 bytes, so the conversion to an
      array never panics. */
  lemma PackedFramesConvert(f: GifRender.GifFrame)
    ensures ConvertToArray(PackFrame(f)) == Ok(PackFrame(f))
  {
  }

  /** Pixel (x, y) of a packed frame is on iff its column is inside the frame and its
      mean reaches the median; columns past the frame width, and pixels past the end of
      the buffer, are off. */
  lemma PackFrameBits(f: GifRender.GifFrame, x: nat, y: nat)
    requires x < DISPLAY_WIDTH && y < DISPLAY_HEIGHT
    ensures Raster.RawHeight(PackFrame(f), DISPLAY_WIDTH) == DISPLAY_HEIGHT
    ensures Raster.RawBit(PackFrame(f), DISPLAY_WIDTH, x, y) <==>
      x < f.width && GifRender.Mean(f, x, y) >= MedianColor(f)
    ensures x >= f.width || GifRender.Start(f, x, y) >= |f.buffer| ==>
      !Raster.RawBit(PackFrame(f), DISPLAY_WIDTH, x, y)
  {
    Raster.PackReadRoundTrip(DISPLAY_WIDTH, DISPLAY_HEIGHT, Lit(f, MedianColor(f)), x, y);
  }

  /** `render`'s frame counter as written: show the counter's frame and increment it,
      but when the counter equals the frame count show frame 0 and reset it to 0.
      Returns the frame shown and the new counter. */
  function CounterStep(counter: nat, len: nat): (r: (nat, nat))
    requires counter <= len
    ensures r.1 <= len
    ensures len >= 1 ==> r.0 < len
  {
    if counter == len then (0, 0) else (counter, counter + 1)
  }

  /** The frames shown by `n` renders from counter `c`, and the counter afterwards. */
  function Shown(c: nat, len: nat, n: nat): (r: (seq<nat>, nat))
    requires c <= len
    ensures |r.0| == n && r.1 <= len
    decreases n
  {
    if n == 0 then ([], c)
    else
      var step := CounterStep(c, len);
      var rest := Shown(step.1, len, n - 1);
      ([step.0] + rest.0, rest.1)
  }

  /** After the last frame, the next two renders both show frame 0: with two frames the
      first five renders show 0, 1, 0, 0, 1. */
  lemma CounterRepeatsFirstFrame(len: nat)
    requires len >= 1
    ensures CounterStep(len - 1, len).0 == len - 1
    ensures CounterStep(CounterStep(len - 1, len).1, len).0 == 0
    ensures CounterStep(CounterStep(CounterStep(len - 1, len).1, len).1, len).0 == 0
    ensures Shown(0, 2, 5).0 == [0, 1, 0, 0, 1]
  {
    assert Shown(2, 2, 0).0 == [];
    assert Shown(1, 2, 1).0 == [1];
    assert Shown(0, 2, 2).0 == [0, 1];
    assert Shown(2, 2, 3).0 == [0, 0, 1];
    assert Shown(1, 2, 4).0 == [1, 0, 0, 1];
  }

  /** The evidently intended counter: show the counter's frame and move to the next,
      wrapping after the last. */
  function IntendedStep(counter: nat, len: nat): (r: (nat, nat))
    requires counter < len
    ensures r.0 == counter && r.1 < len
  {
    (counter, FrameCycle.Next(counter, len))
  }

  function IntendedShown(c: nat, len: nat, n: nat): (r: (seq<nat>, nat))
    requires c < len
    ensures |r.0| == n && r.1 < len
    decreases n
  {
    if n == 0 then ([], c)
    else
      var step := IntendedStep(c, len);
      var rest := IntendedShown(step.1, len, n - 1);
      ([step.0] + rest.0, rest.1)
  }

  /** With the intended counter render `k` shows frame `(c + k) % len`: every frame once
      per cycle of `len` renders. */
  lemma {:induction false} IntendedShownIsModular(c: nat, len: nat, n: nat, k: nat)
    requires c < len && k < n
    ensures IntendedShown(c, len, n).0[k] == (c + k) % len
    decreases k
  {
    if k == 0 {
      ModSmall(c, len);
    } else {
      var next := FrameCycle.Next(c, len);
      IntendedShownIsModular(next, len, n - 1, k - 1);
      ModStep(c, len);
      ModSmall(c, len);
      ModAddPeriod(next + k - 1, len);
      assert IntendedShown(c, len, n).0[k] == IntendedShown(next, len, n - 1).0[k - 1];
      if c + 1 == len {
        assert (c + k) % len == (k - 1 + len) % len;
      }
    }
  }

  datatype Gif = Gif(decodedFrames: seq<seq<Byte>>)

  /** `register_callback` once the decoder has produced its frames. */
  function Register(frames: seq<GifRender.GifFrame>): (g: Gif)
    ensures |g.decodedFrames| == |frames|
    ensures forall i :: 0 <= i < |frames| ==> g.decodedFrames[i] == PackFrame(frames[i])
  {
    Gif(seq(|frames|, i requires 0 <= i < |frames| => PackFrame(frames[i])))
  }

  /** `render` of a frame: a fresh buffer with the packed frame drawn at the origin. */
  function Render(g: Gif, frame: nat): (fb: Device.FrameBuffer)
    requires frame < |g.decodedFrames|
    ensures forall x: nat, y: nat ::
      x < DISPLAY_WIDTH && y < DISPLAY_HEIGHT && y < Raster.RawHeight(g.decodedFrames[frame], DISPLAY_WIDTH) ==>
        Device.Get(fb, x, y) == Raster.RawBit(g.decodedFrames[frame], DISPLAY_WIDTH, x, y)
  {
    DrawFrameShowsRows(g.decodedFrames[frame]);
    Device.DrawIter(Device.New(), Raster.RawPixels(g.decodedFrames[frame], DISPLAY_WIDTH, Origin))
  }

  /** Rendering draws the packed frame registered for that index. */
  lemma RenderDrawsPacked(frames: seq<GifRender.GifFrame>, frame: nat)
    requires frame < |frames|
    ensures Render(Register(frames), frame)
         == Device.DrawIter(Device.New(), Raster.RawPixels(PackFrame(frames[frame]), DISPLAY_WIDTH, Origin))
  {
  }

  /** A rendered frame shows, pixel for pixel, the packed frame it was registered with. */
  lemma RenderShowsFrame(frames: seq<GifRender.GifFrame>, frame: nat, x: nat, y: nat)
    requires frame < |frames| && x < DISPLAY_WIDTH && y < DISPLAY_HEIGHT
    ensures Device.Get(Render(Register(frames), frame), x, y) <==>
      x < frames[frame].width && GifRender.Mean(frames[frame], x, y) >= MedianColor(frames[frame])
  {
    RenderDrawsPacked(frames, frame);
    PackFrameBits(frames[frame], x, y);
    DrawFramePixel(PackFrame(frames[frame]), x, y);
  }

  /** `DrawFramePixel` for every covered screen pixel at once. */
  lemma DrawFrameShowsRows(data: seq<Byte>)
    ensures forall x: nat, y: nat ::
      x < DISPLAY_WIDTH && y < DISPLAY_HEIGHT && y < Raster.RawHeight(data, DISPLAY_WIDTH) ==>
        Device.Get(Device.DrawIter(Device.New(), Raster.RawPixels(data, DISPLAY_WIDTH, Origin)), x, y)
        == Raster.RawBit(data, DISPLAY_WIDTH, x, y)
  {
    forall x: nat, y: nat | x < DISPLAY_WIDTH && y < DISPLAY_HEIGHT && y < Raster.RawHeight(data, DISPLAY_WIDTH)
      ensures Device.Get(Device.DrawIter(Device.New(), Raster.RawPixels(data, DISPLAY_WIDTH, Origin)), x, y)
              == Raster.RawBit(data, DISPLAY_WIDTH, x, y)
    {
      DrawFramePixel(data, x, y);
    }
  }

  /** Drawing packed rows at the origin sets each screen pixel they cover to its bit. */
  lemma DrawFramePixel(data: seq<Byte>, x: nat, y: nat)
    requires x < DISPLAY_WIDTH && y < DISPLAY_HEIGHT && y < Raster.RawHeight(data, DISPLAY_WIDTH)
    ensures Device.Get(Device.DrawIter(Device.New(), Raster.RawPixels(data, DISPLAY_WIDTH, Origin)), x, y)
         == Raster.RawBit(data, DISPLAY_WIDTH, x, y)
  {
    var fb := Device.DrawIter(Device.New(), Raster.RawPixels(data, DISPLAY_WIDTH, Origin));
    Raster.DrawRaw(Device.New(), data, DISPLAY_WIDTH, Origin, x, y);
    assert Device.Get(fb, Origin.x + x, Origin.y + y) == Raster.RawBit(data, DISPLAY_WIDTH, x, y);
    assert Origin.x + x == x && Origin.y + y == y;
  }
}
