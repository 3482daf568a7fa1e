/**
 * The display's frame buffer: 128x40 one-bit pixels stored most significant bit
 * first behind a one-byte header (0x61) and followed by one padding byte, so the
 * whole report can be sent to the device without copying.
 */
module Device {
  import opened Geometry
  import opened Bits
  import opened Wrappers
  import opened Arith

  const DISPLAY_WIDTH: nat := 128
  const DISPLAY_HEIGHT: nat := 40
  /** Bytes in the buffer: one bit per pixel, plus header and padding byte. */
  const FB_SIZE: nat := 40 * 128 / 8 + 2
  const FB_BITS: nat := FB_SIZE * 8
  /** The report id every buffer starts with. */
  const HEADER: Byte := 0x61
  /** Pixel (0, 0) is stored right after the header byte. */
  const HEADER_BITS: nat := 8
  const PIXEL_COUNT: nat := 40 * 128

  type Bitmap = s: seq<bool> | |s| == FB_BITS witness seq(FB_BITS, _ => false)

  datatype FrameBuffer = FrameBuffer(bits: Bitmap)

  /** Byte `k` of the buffer as sent to the device. */
  function ByteAt(fb: FrameBuffer, k: nat): Byte
    requires k < FB_SIZE
  {
    ByteVal(fb.bits[8 * k .. 8 * k + 8]);
    Val(fb.bits[8 * k .. 8 * k + 8])
  }

  /** The coordinates a frame buffer stores; anything else is ignored on write. */
  predicate InRange(x: int, y: int) {
    0 <= x <= 127 && 0 <= y <= 39
  }

  /** Where pixel (x, y) lives in the bit array. */
  function BitIndex(x: int, y: int): int {
    x + y * 128 + 8
  }

  /** The colour of an on-screen pixel. */
  function Get(fb: FrameBuffer, x: int, y: int): bool
    requires InRange(x, y)
  {
    BitIndexBounds(x, y);
    fb.bits[BitIndex(x, y)]
  }

  /** Every in-range pixel lies strictly between the header byte and the padding byte. */
  lemma BitIndexBounds(x: int, y: int)
    requires InRange(x, y)
    ensures HEADER_BITS <= BitIndex(x, y) < HEADER_BITS + PIXEL_COUNT
    ensures HEADER_BITS + PIXEL_COUNT == FB_BITS - 8
  {
  }

  /** Distinct pixels never share a bit. */
  lemma BitIndexInjective(x: int, y: int, x': int, y': int)
    requires InRange(x, y) && InRange(x', y')
    ensures BitIndex(x, y) == BitIndex(x', y') ==> x == x' && y == y'
  {
  }

  /** Header byte and padding byte: the bits no pixel write may touch. */
  predicate IsEnvelopeBit(k: int) {
    0 <= k < HEADER_BITS || HEADER_BITS + PIXEL_COUNT <= k < FB_BITS
  }

  /** 0x61 written most significant bit first. */
  lemma HeaderBits()
    ensures Val([false, true, true, false, false, false, false, true]) == HEADER
  {
    var s := [false, true, true, false, false, false, false, true];
    assert Val(s[7..]) == 1;
    assert s[6..][1..] == s[7..];
    assert Val(s[6..]) == 1;
    assert s[5..][1..] == s[6..];
    assert Val(s[5..]) == 1;
    assert s[4..][1..] == s[5..];
    assert Val(s[4..]) == 1;
    assert s[3..][1..] == s[4..];
    assert Val(s[3..]) == 1;
    assert s[2..][1..] == s[3..];
    assert Val(s[2..]) == 33;
    assert s[1..][1..] == s[2..];
    assert Val(s[1..]) == 97;
  }

  /** The bits of a fresh buffer: only the header's ones are set. */
  function Blank(): (s: Bitmap)
    ensures forall i :: 0 <= i < FB_BITS ==> (s[i] <==> i == 1 || i == 2 || i == 7)
  {
    seq(FB_BITS, i => i == 1 || i == 2 || i == 7)
  }

  lemma BlankHeader()
    ensures ByteAt(FrameBuffer(Blank()), 0) == HEADER
  {
    assert Blank()[0 .. 8] == [false, true, true, false, false, false, false, true];
    HeaderBits();
  }

  lemma BlankByte(k: nat)
    requires 1 <= k < FB_SIZE
    ensures ByteAt(FrameBuffer(Blank()), k) == 0
  {
    var byte := Blank()[8 * k .. 8 * k + 8];
    assert forall i :: 0 <= i < 8 ==> byte[i] == Blank()[8 * k + i];
    ValZero(byte);
  }

  /** `FrameBuffer::new()` / `Default`: header set, every pixel off. */
  function New(): (fb: FrameBuffer)
    ensures ByteAt(fb, 0) == HEADER
    ensures forall k :: 1 <= k < FB_SIZE ==> ByteAt(fb, k) == 0
    ensures forall x, y :: InRange(x, y) ==> !Get(fb, x, y)
  {
    BlankHeader();
    forall k | 1 <= k < FB_SIZE
      ensures ByteAt(FrameBuffer(Blank()), k) == 0
    {
      BlankByte(k);
    }
    FrameBuffer(Blank())
  }

  /** One step of `DrawTarget::draw_iter`: an in-range pixel sets its bit, any other is ignored. */
  function DrawPixel(fb: FrameBuffer, p: Pixel): (r: FrameBuffer)
    ensures InRange(p.at.x, p.at.y) ==> Get(r, p.at.x, p.at.y) == p.on
    ensures forall x, y :: InRange(x, y) && (x, y) != (p.at.x, p.at.y) ==> Get(r, x, y) == Get(fb, x, y)
    ensures forall k :: IsEnvelopeBit(k) ==> r.bits[k] == fb.bits[k]
    ensures !InRange(p.at.x, p.at.y) ==> r == fb
  {
    if InRange(p.at.x, p.at.y) then
      BitIndexBounds(p.at.x, p.at.y);
      FrameBuffer(fb.bits[BitIndex(p.at.x, p.at.y) := p.on])
    else
      fb
  }

  /** `DrawTarget::draw_iter`: the pixels are written in order. */
  function DrawIter(fb: FrameBuffer, pixels: seq<Pixel>): (r: FrameBuffer)
    ensures forall k :: IsEnvelopeBit(k) ==> r.bits[k] == fb.bits[k]
  {
    if |pixels| == 0 then fb
    else DrawPixel(DrawIter(fb, pixels[..|pixels| - 1]), pixels[|pixels| - 1])
  }

  /** The colour the last pixel at (x, y) in `pixels` carries, if there is one. */
  function LastWrite(pixels: seq<Pixel>, x: int, y: int): Option<bool>
  {
    if |pixels| == 0 then None
    else if pixels[|pixels| - 1].at == Point(x, y) then Some(pixels[|pixels| - 1].on)
    else LastWrite(pixels[..|pixels| - 1], x, y)
  }

  /** After `draw_iter` every on-screen pixel shows the last colour written to it (or its
      old colour when none was), and the header and padding bytes are untouched. */
  lemma {:induction false} DrawIterLastWriteWins(fb: FrameBuffer, pixels: seq<Pixel>, x: int, y: int)
    requires InRange(x, y)
    ensures Get(DrawIter(fb, pixels), x, y)
         == (match LastWrite(pixels, x, y) case Some(c) => c case None => Get(fb, x, y))
    ensures forall k :: IsEnvelopeBit(k) ==> DrawIter(fb, pixels).bits[k] == fb.bits[k]
  {
    if |pixels| > 0 {
      DrawIterLastWriteWins(fb, pixels[..|pixels| - 1], x, y);
    }
  }

  /** A point no pixel of the list lands on keeps its colour. */
  lemma {:induction false} DrawIterUntouched(fb: FrameBuffer, pixels: seq<Pixel>, x: int, y: int)
    requires InRange(x, y)
    requires forall i :: 0 <= i < |pixels| ==> pixels[i].at != Point(x, y)
    ensures Get(DrawIter(fb, pixels), x, y) == Get(fb, x, y)
  {
    if |pixels| > 0 {
      DrawIterUntouched(fb, pixels[..|pixels| - 1], x, y);
    }
  }

  /** A point exactly one pixel of the list lands on shows that pixel's colour. */
  lemma {:induction false} DrawIterUnique(fb: FrameBuffer, pixels: seq<Pixel>, k: nat, x: int, y: int)
    requires InRange(x, y) && k < |pixels| && pixels[k].at == Point(x, y)
    requires forall j :: 0 <= j < |pixels| && j != k ==> pixels[j].at != Point(x, y)
    ensures Get(DrawIter(fb, pixels), x, y) == pixels[k].on
  {
    var last := |pixels| - 1;
    if k < last {
      DrawIterUnique(fb, pixels[..last], k, x, y);
    }
  }

  /** Pixel `i` of the row-major walk: (i % 128, i / 128) with bit i + 8. */
  function PixelOf(fb: FrameBuffer, i: nat): Pixel
    requires i < PIXEL_COUNT
  {
    Pixel(Point(i % 128, i / 128), fb.bits[i + 8])
  }

  /** The walk reaches display point (x, y) at step x + 128y, with its colour. */
  lemma PixelOfAt(fb: FrameBuffer)
    ensures forall x, y :: InRange(x, y) ==> PixelOf(fb, x + 128 * y) == Pixel(Point(x, y), Get(fb, x, y))
  {
    forall x, y | InRange(x, y)
      ensures PixelOf(fb, x + 128 * y) == Pixel(Point(x, y), Get(fb, x, y))
    {
      DivUnique(x + 128 * y, 128, y, x);
    }
  }

  /** `Drawable::draw` for a frame buffer: every display point once, row by row, each
      with its colour. */
  function Pixels(fb: FrameBuffer): (r: seq<Pixel>)
    ensures |r| == PIXEL_COUNT
    ensures forall x, y :: InRange(x, y) ==> r[x + 128 * y] == Pixel(Point(x, y), Get(fb, x, y))
  {
    PixelOfAt(fb);
    seq(PIXEL_COUNT, i requires 0 <= i < PIXEL_COUNT => PixelOf(fb, i))
  }

  /** `size()`: the drawable area. */
  function Dimensions(): (s: Size)
    ensures s.width == DISPLAY_WIDTH && s.height == DISPLAY_HEIGHT
    ensures s.width * s.height == PIXEL_COUNT
  {
    Size(DISPLAY_WIDTH, DISPLAY_HEIGHT)
  }

  /** `Drawable::draw` emits every on-screen point exactly once, each with its own colour. */
  lemma PixelsCoverDisplay(fb: FrameBuffer)
    ensures forall i :: 0 <= i < PIXEL_COUNT ==>
      (var p := Pixels(fb)[i];
       InRange(p.at.x, p.at.y) && BitIndex(p.at.x, p.at.y) == i + 8
       && p.at.x < Dimensions().width && p.at.y < Dimensions().height)
    ensures forall x, y :: InRange(x, y) ==> Pixels(fb)[x + 128 * y] == Pixel(Point(x, y), Get(fb, x, y))
  {
    forall i | 0 <= i < PIXEL_COUNT
      ensures 0 <= i % 128 <= 127 && 0 <= i / 128 <= 39 && i % 128 + i / 128 * 128 == i
    {
      DivUnique(i, 128, i / 128, i % 128);
    }
  }

  lemma {:induction false} DrawPrefix(a: FrameBuffer, b: FrameBuffer, n: nat)
    requires n <= PIXEL_COUNT
    ensures forall k :: 0 <= k < FB_BITS ==>
      DrawIter(b, Pixels(a)[..n]).bits[k] == if 8 <= k < 8 + n then a.bits[k] else b.bits[k]
  {
    if n > 0 {
      var ps := Pixels(a)[..n];
      assert ps[..n - 1] == Pixels(a)[..n - 1];
      DrawPrefix(a, b, n - 1);
      var p := ps[n - 1];
      assert p.at == Point((n - 1) % 128, (n - 1) / 128);
      assert BitIndex(p.at.x, p.at.y) == n - 1 + 8;
    }
  }

  /** Drawing buffer `a` onto buffer `b` copies all of `a`'s pixels and keeps `b`'s
      header and padding; in particular drawing onto a fresh buffer reproduces `a`. */
  lemma DrawRoundTrip(a: FrameBuffer, b: FrameBuffer)
    ensures forall x, y :: InRange(x, y) ==> Get(DrawIter(b, Pixels(a)), x, y) == Get(a, x, y)
    ensures forall k :: IsEnvelopeBit(k) ==> DrawIter(b, Pixels(a)).bits[k] == b.bits[k]
    ensures (forall k :: IsEnvelopeBit(k) ==> a.bits[k] == b.bits[k]) ==> DrawIter(b, Pixels(a)) == a
  {
    DrawPrefix(a, b, PIXEL_COUNT);
    assert Pixels(a)[..PIXEL_COUNT] == Pixels(a);
    var r := DrawIter(b, Pixels(a));
    if forall k :: IsEnvelopeBit(k) ==> a.bits[k] == b.bits[k] {
      assert r.bits == a.bits;
    }
  }
}
