/**
 * One-bit rasters as the image and GIF renderers build them: rows of pixels packed
 * eight to a byte, most significant bit first (`buf += 128 >> (x % 8)`), one byte pushed
 * every eight columns and one more at the end of every row; and the inverse reading
 * (`ImageRaw<BinaryColor>`), which turns such bytes back into pixels.
 */
module Raster {
  import opened Geometry
  import opened Bits
  import opened Arith
  import Device

  /** Bytes a packed row of `iw` columns takes: `ceil(iw / 8)`, and a single byte when
      the width is not positive (the forced end-of-row push). */
  function RowBytes(iw: int): (r: nat)
    ensures r >= 1
    ensures iw >= 1 ==> r == (iw + 7) / 8 && 8 * (r - 1) < iw <= 8 * r
  {
    if iw <= 0 then 1 else (iw + 7) / 8
  }

  /** The eight columns `8j .. 8j + 7` of a row; a column at or past `limit` is off. */
  function Octet(j: nat, limit: int, lit: nat -> bool): (r: seq<bool>)
    ensures |r| == 8
    ensures forall k :: 0 <= k < 8 ==> (r[k] <==> 8 * j + k < limit && lit(8 * j + k))
  {
    seq(8, k requires 0 <= k < 8 => 8 * j + k < limit && lit(8 * j + k))
  }

  /** Reference packing of one row: byte `j` holds columns `8j .. 8j + 7`. */
  function PackRow(iw: int, lit: nat -> bool): (r: seq<Byte>)
    ensures |r| == RowBytes(iw)
  {
    seq(RowBytes(iw), j requires 0 <= j < RowBytes(iw) => ByteOf(Octet(j, iw, lit)))
  }

  /** Adding column `x` to the partial byte that holds it sets exactly its bit. */
  lemma OctetStep(j: nat, x: nat, lit: nat -> bool)
    requires 8 * j <= x < 8 * j + 8
    ensures !Octet(j, x, lit)[x - 8 * j]
    ensures Octet(j, x + 1, lit) == Octet(j, x, lit)[x - 8 * j := lit(x)]
  {
  }

  /** Once all eight of its columns are behind `limit`, a partial byte is complete. */
  lemma OctetComplete(j: nat, x: int, iw: int, lit: nat -> bool)
    requires 8 * j + 8 <= x <= iw || (8 * j < x && x == iw)
    ensures Octet(j, x, lit) == Octet(j, iw, lit)
  {
  }

  lemma OctetEmpty(j: nat, lit: nat -> bool)
    ensures Val(Octet(j, 8 * j, lit)) == 0
  {
    ValZero(Octet(j, 8 * j, lit));
  }

  /** Where column `x` falls: its byte `x / 8` and its bit `x % 8`, and how the byte
      index moves from column `x - 1` to column `x`. */
  lemma ColumnSplit(x: nat)
    ensures 8 * (x / 8) <= x < 8 * (x / 8) + 8
    ensures x % 8 == x - 8 * (x / 8)
    ensures x > 0 && x % 8 == 0 ==> (x - 1) / 8 == x / 8 - 1
    ensures x % 8 != 0 ==> (x - 1) / 8 == x / 8
    ensures x > 0 ==> (x - 1) / 8 + 1 == (x + 7) / 8
  {
  }

  /** One column of the packing loop: a lit column adds its mask to the partial byte,
      which stays below 256; an unlit one leaves it alone. */
  lemma PackStep(j: nat, x: nat, lit: nat -> bool, buf: nat)
    requires 8 * j <= x < 8 * j + 8 && x % 8 == x - 8 * j
    requires buf == Val(Octet(j, x, lit))
    ensures lit(x) ==> buf + Mask(x % 8) == Val(Octet(j, x + 1, lit)) < 256
    ensures !lit(x) ==> buf == Val(Octet(j, x + 1, lit))
  {
    var o := Octet(j, x, lit);
    OctetStep(j, x, lit);
    ByteVal(Octet(j, x + 1, lit));
    if lit(x) {
      ValSetBit(o, x - 8 * j);
    } else {
      assert o[x - 8 * j := false] == o;
    }
  }

  /** What the packing loop knows after the columns before `x`: every finished byte is
      the reference byte, and the partial byte holds the columns seen so far. */
  predicate RowProgress(iw: int, lit: nat -> bool, x: nat, out: seq<Byte>, buf: nat) {
    (iw >= 0 ==> x <= iw) && (iw < 0 ==> x == 0) &&
    (x == 0 ==> out == [] && buf == 0) &&
    (x > 0 ==> |out| == (x - 1) / 8 && buf == Val(Octet((x - 1) / 8, x, lit))) &&
    (forall j :: 0 <= j < |out| ==> out[j] == ByteOf(Octet(j, iw, lit)))
  }

  /** One column of the packing loop: push the finished byte when a new one starts,
      then set `128 >> (x % 8)` if the column is lit. */
  method PackColumn(iw: int, lit: nat -> bool, x: nat, out: seq<Byte>, buf: Byte)
    returns (out': seq<Byte>, buf': Byte)
    requires x < iw && RowProgress(iw, lit, x, out, buf)
    ensures RowProgress(iw, lit, x + 1, out', buf')
  {
    ghost var j := x / 8;
    ColumnSplit(x);
    out', buf' := out, buf;
    if x % 8 == 0 && x != 0 {
      OctetComplete(j - 1, x, iw, lit);
      out' := out' + [buf'];
      buf' := 0;
    }
    if x % 8 == 0 {
      OctetEmpty(j, lit);
    }
    PackStep(j, x, lit, buf');
    if lit(x) {
      buf' := buf' + Mask(x % 8);
    }
    ColumnSplit(x + 1);
  }

  /** The packing loop of one row, written as the renderers write it: push the byte
      every eight columns, set `128 >> (x % 8)` for a lit column, push once more at the
      end of the row. `lit` already includes the "inside the image and the display"
      tests that skip a column. */
  method PackRowLoop(iw: int, lit: nat -> bool) returns (out: seq<Byte>)
    ensures out == PackRow(iw, lit)
  {
    out := [];
    var buf: Byte := 0;
    var x: nat := 0;
    while x < iw
      invariant RowProgress(iw, lit, x, out, buf)
    {
      out, buf := PackColumn(iw, lit, x, out, buf);
      x := x + 1;
    }
    if x > 0 {
      ColumnSplit(x);
      OctetComplete((x - 1) / 8, x, iw, lit);
    } else {
      ValZero(Octet(0, iw, lit));
    }
    out := out + [buf];
  }

  /** Row `y` of a two-dimensional lighting rule. */
  function RowOf(lit: (nat, nat) -> bool, y: nat): (row: nat -> bool)
    ensures forall x: nat :: row(x) == lit(x, y)
  {
    (x: nat) => lit(x, y)
  }

  /** Packing of the first `rows` rows, one packed row after another. */
  function PackRows(iw: int, rows: nat, lit: (nat, nat) -> bool): (r: seq<Byte>)
    ensures |r| == rows * RowBytes(iw)
  {
    if rows == 0 then []
    else PackRows(iw, rows - 1, lit) + PackRow(iw, RowOf(lit, rows - 1))
  }

  /** How many leading rows survive the row tests: those below `ih` and below `limit`
      (the image height and the display height). */
  function KeptRows(ih: int, limit: nat): (r: nat)
    ensures r <= limit && (ih >= 0 ==> r <= ih)
    ensures ih >= limit ==> r == limit
    ensures 0 <= ih < limit ==> r == ih
    ensures ih < 0 ==> r == 0
  {
    if ih <= 0 then 0 else if ih < limit then ih else limit
  }

  /** The row loop around `PackRowLoop`: rows past the image or the display are skipped
      entirely (they push nothing). */
  method PackImageLoop(iw: int, ih: int, limit: nat, lit: (nat, nat) -> bool) returns (out: seq<Byte>)
    ensures out == PackRows(iw, KeptRows(ih, limit), lit)
    ensures |out| == KeptRows(ih, limit) * RowBytes(iw)
  {
    out := [];
    var y: nat := 0;
    while y < ih
      invariant ih >= 0 ==> y <= ih
      invariant ih < 0 ==> y == 0
      invariant out == PackRows(iw, KeptRows(y, limit), lit)
    {
      if y < limit {
        var row := PackRowLoop(iw, RowOf(lit, y));
        out := out + row;
      }
      y := y + 1;
    }
  }

  /** Byte `j` of packed row `y` sits at offset `y * RowBytes + j`. */
  lemma {:induction false} PackRowsIndex(iw: int, rows: nat, lit: (nat, nat) -> bool, y: nat, j: nat)
    requires y < rows && j < RowBytes(iw)
    ensures y * RowBytes(iw) + j < |PackRows(iw, rows, lit)|
    ensures PackRows(iw, rows, lit)[y * RowBytes(iw) + j] == PackRow(iw, RowOf(lit, y))[j]
  {
    var R := RowBytes(iw);
    RowEnd(y, R, rows);
    var prefix := PackRows(iw, rows - 1, lit);
    assert |prefix| == (rows - 1) * R;
    if y < rows - 1 {
      PackRowsIndex(iw, rows - 1, lit, y, j);
    } else {
      assert y * R + j == |prefix| + j;
    }
  }

  /** `ImageRaw`: bytes per row for a width. */
  function BytesPerRow(w: nat): (r: nat)
    ensures w >= 1 ==> r == RowBytes(w) && r >= 1
  {
    (w + 7) / 8
  }

  /** `ImageRaw::new(data, width)`: the height is the number of whole rows in the data;
      a width of zero gives an empty image. */
  function RawHeight(data: seq<Byte>, w: nat): nat {
    if w == 0 then 0 else |data| / BytesPerRow(w)
  }

  lemma RawIndex(data: seq<Byte>, w: nat, x: nat, y: nat)
    requires x < w && y < RawHeight(data, w)
    ensures RowsOffset(BytesPerRow(w), y) + x / 8 < |data|
    ensures x / 8 < BytesPerRow(w)
  {
    var R := BytesPerRow(w);
    RowsOffsetIsProduct(R, y);
    DivUnique(|data|, R, |data| / R, |data| % R);
    RowEnd(y, R, |data| / R);
    MulMonotone(|data| / R, |data| / R, R);
    assert (|data| / R) * R <= |data|;
  }

  /** The colour `ImageRaw` reads for pixel (x, y): bit `x % 8` (most significant first)
      of byte `x / 8` of row `y`. */
  function RawBit(data: seq<Byte>, w: nat, x: nat, y: nat): bool
    requires x < w && y < RawHeight(data, w)
  {
    RawIndex(data, w, x, y);
    BitSet(data[RowsOffset(BytesPerRow(w), y) + x / 8], x % 8)
  }

  /** Packing then reading back is the identity: every pixel of the packed image reads as
      lit exactly when it was lit, and the image has exactly the kept rows. */
  lemma PackReadRoundTrip(iw: nat, rows: nat, lit: (nat, nat) -> bool, x: nat, y: nat)
    requires iw >= 1 && x < iw && y < rows
    ensures RawHeight(PackRows(iw, rows, lit), iw) == rows
    ensures RawBit(PackRows(iw, rows, lit), iw, x, y) == lit(x, y)
  {
    var R := RowBytes(iw);
    DivUnique(rows * R, R, rows, 0);
    assert x / 8 < R;
    PackRowsIndex(iw, rows, lit, y, x / 8);
    RowsOffsetIsProduct(R, y);
    var row := RowOf(lit, y);
    var octet := Octet(x / 8, iw, row);
    assert PackRow(iw, row)[x / 8] == ByteOf(octet);
    assert octet[x % 8] == lit(x, y);
  }

  /** Row `y` of the raw image, placed at `origin`: one pixel per column. */
  function RawRow(data: seq<Byte>, w: nat, origin: Point, y: nat): (r: seq<Pixel>)
    requires y < RawHeight(data, w)
    ensures |r| == w
    ensures forall x :: 0 <= x < w ==> r[x] == Pixel(origin.Add(Point(x, y)), RawBit(data, w, x, y))
  {
    seq(w, x requires 0 <= x < w => Pixel(origin.Add(Point(x, y)), RawBit(data, w, x, y)))
  }

  /** Rows `y` up to (excluding) `h`, one after another. */
  function RawRows(data: seq<Byte>, w: nat, origin: Point, y: nat, h: nat): (r: seq<Pixel>)
    requires y <= h <= RawHeight(data, w)
    decreases h - y
  {
    if y == h then [] else RawRow(data, w, origin, y) + RawRows(data, w, origin, y + 1, h)
  }

  lemma {:induction false} RawRowsLength(data: seq<Byte>, w: nat, origin: Point, y: nat, h: nat)
    requires y <= h <= RawHeight(data, w)
    ensures |RawRows(data, w, origin, y, h)| == (h - y) * w
    decreases h - y
  {
    if y < h {
      RawRowsLength(data, w, origin, y + 1, h);
      assert (h - y) * w == w + (h - (y + 1)) * w;
    }
  }

  /** The pixels `Image::new(&raw, origin).draw(..)` emits, row by row. */
  function RawPixels(data: seq<Byte>, w: nat, origin: Point): (r: seq<Pixel>)
    ensures |r| == w * RawHeight(data, w)
  {
    RawRowsLength(data, w, origin, 0, RawHeight(data, w));
    RawRows(data, w, origin, 0, RawHeight(data, w))
  }

  /** The rows from `y0` are row `y0` followed by the rows after it. */
  lemma RawRowsSplit(data: seq<Byte>, w: nat, origin: Point, y0: nat, h: nat)
    requires y0 < h <= RawHeight(data, w)
    ensures RawRows(data, w, origin, y0, h) ==
      RawRow(data, w, origin, y0) + RawRows(data, w, origin, y0 + 1, h)
  {
  }

  /** Pixel (x, y0) is the x-th of the rows from `y0`, and the only one at its point. */
  lemma RawRowsAtFirst(data: seq<Byte>, w: nat, origin: Point, y0: nat, h: nat, x: nat)
    requires y0 < h <= RawHeight(data, w) && x < w
    ensures x < |RawRows(data, w, origin, y0, h)|
    ensures RawRows(data, w, origin, y0, h)[x] == Pixel(origin.Add(Point(x, y0)), RawBit(data, w, x, y0))
    ensures forall j :: 0 <= j < |RawRows(data, w, origin, y0, h)| && j != x ==>
      RawRows(data, w, origin, y0, h)[j].at != origin.Add(Point(x, y0))
  {
    var rest := RawRows(data, w, origin, y0 + 1, h);
    var rr := RawRows(data, w, origin, y0, h);
    RawRowsSplit(data, w, origin, y0, h);
    forall j | 0 <= j < |rr| && j != x
      ensures rr[j].at != origin.Add(Point(x, y0))
    {
      if j >= w {
        assert rr[j] == rest[j - w];
        RawRowsAllBelow(data, w, origin, y0 + 1, h, j - w);
      }
    }
  }

  /** `n` rows of `w` pixels, counted row by row: the offset of row `n`. */
  function RowsOffset(w: nat, n: nat): (r: nat) {
    if n == 0 then 0 else w + RowsOffset(w, n - 1)
  }

  lemma {:induction false} RowsOffsetIsProduct(w: nat, n: nat)
    ensures RowsOffset(w, n) == n * w
  {
    if n > 0 {
      RowsOffsetIsProduct(w, n - 1);
      assert n * w == w + (n - 1) * w;
    }
  }

  /** Pixel (x, y) sits at offset `(y - y0) * w + x` of the rows from `y0`, and is the
      only one there placed at its point. */
  lemma RawRowsAt(data: seq<Byte>, w: nat, origin: Point, y0: nat, h: nat, x: nat, y: nat)
    requires y0 <= y < h <= RawHeight(data, w) && x < w
    ensures RowsOffset(w, y - y0) + x < |RawRows(data, w, origin, y0, h)|
    ensures RawRows(data, w, origin, y0, h)[RowsOffset(w, y - y0) + x] ==
      Pixel(origin.Add(Point(x, y)), RawBit(data, w, x, y))
    ensures forall j :: 0 <= j < |RawRows(data, w, origin, y0, h)| && j != RowsOffset(w, y - y0) + x ==>
      RawRows(data, w, origin, y0, h)[j].at != origin.Add(Point(x, y))
  {
    RawRowsIndexOf(data, w, origin, y0, h, x, y);
    RawRowsOnlyAt(data, w, origin, y0, h, x, y);
  }

  /** Pixel (x, y) sits at offset `(y - y0) * w + x` of the rows from `y0`. */
  lemma {:induction false} RawRowsIndexOf(data: seq<Byte>, w: nat, origin: Point, y0: nat, h: nat, x: nat, y: nat)
    requires y0 <= y < h <= RawHeight(data, w) && x < w
    ensures RowsOffset(w, y - y0) + x < |RawRows(data, w, origin, y0, h)|
    ensures RawRows(data, w, origin, y0, h)[RowsOffset(w, y - y0) + x] ==
      Pixel(origin.Add(Point(x, y)), RawBit(data, w, x, y))
    decreases h - y0
  {
    if y == y0 {
      RawRowsIndexOfFirst(data, w, origin, y0, h, x);
    } else {
      RawRowsIndexOf(data, w, origin, y0 + 1, h, x, y);
      RawRowsIndexOfStep(data, w, origin, y0, h, x, y);
    }
  }

  /** The base case of `RawRowsIndexOf`: pixel (x, y0) is the `x`-th of the rows from `y0`. */
  lemma RawRowsIndexOfFirst(data: seq<Byte>, w: nat, origin: Point, y0: nat, h: nat, x: nat)
    requires y0 < h <= RawHeight(data, w) && x < w
    ensures RowsOffset(w, 0) + x < |RawRows(data, w, origin, y0, h)|
    ensures RawRows(data, w, origin, y0, h)[RowsOffset(w, 0) + x] ==
      Pixel(origin.Add(Point(x, y0)), RawBit(data, w, x, y0))
  {
    RawRowsAtFirst(data, w, origin, y0, h, x);
  }

  /** The inductive step of `RawRowsIndexOf`: the rows from `y0` hold the rows below it
      shifted by one row's width. */
  lemma RawRowsIndexOfStep(data: seq<Byte>, w: nat, origin: Point, y0: nat, h: nat, x: nat, y: nat)
    requires y0 < y < h <= RawHeight(data, w) && x < w
    requires RowsOffset(w, y - (y0 + 1)) + x < |RawRows(data, w, origin, y0 + 1, h)|
    ensures RowsOffset(w, y - y0) + x < |RawRows(data, w, origin, y0, h)|
    ensures RawRows(data, w, origin, y0, h)[RowsOffset(w, y - y0) + x] ==
      RawRows(data, w, origin, y0 + 1, h)[RowsOffset(w, y - (y0 + 1)) + x]
  {
    var k := RowsOffset(w, y - (y0 + 1)) + x;
    RawRowsTail(data, w, origin, y0, h);
    assert RowsOffset(w, y - y0) + x == w + k;
  }

  /** No pixel of the rows from `y0` other than the one at offset `(y - y0) * w + x` is
      placed at point (x, y). */
  lemma {:induction false} RawRowsOnlyAt(data: seq<Byte>, w: nat, origin: Point, y0: nat, h: nat, x: nat, y: nat)
    requires y0 <= y < h <= RawHeight(data, w) && x < w
    ensures forall j :: 0 <= j < |RawRows(data, w, origin, y0, h)| && j != RowsOffset(w, y - y0) + x ==>
      RawRows(data, w, origin, y0, h)[j].at != origin.Add(Point(x, y))
    decreases h - y0
  {
    if y == y0 {
      RawRowsAtFirst(data, w, origin, y0, h, x);
      assert RowsOffset(w, y - y0) == 0;
    } else {
      RawRowsOnlyAt(data, w, origin, y0 + 1, h, x, y);
      RawRowsOnlyAtStep(data, w, origin, y0, h, x, y, RawRows(data, w, origin, y0 + 1, h));
    }
  }

  /** The inductive step of `RawRowsOnlyAt`: uniqueness in the rows below `y0` carries
      over to the rows from `y0`, whose first row lies above the point. */
  lemma RawRowsOnlyAtStep(data: seq<Byte>, w: nat, origin: Point, y0: nat, h: nat, x: nat, y: nat, rest: seq<Pixel>)
    requires y0 < y < h <= RawHeight(data, w) && x < w
    requires rest == RawRows(data, w, origin, y0 + 1, h)
    requires forall j :: 0 <= j < |rest| && j != RowsOffset(w, y - (y0 + 1)) + x ==> rest[j].at != origin.Add(Point(x, y))
    ensures forall j :: 0 <= j < |RawRows(data, w, origin, y0, h)| && j != RowsOffset(w, y - y0) + x ==>
      RawRows(data, w, origin, y0, h)[j].at != origin.Add(Point(x, y))
  {
    var rr := RawRows(data, w, origin, y0, h);
    var k := RowsOffset(w, y - (y0 + 1)) + x;
    RawRowsIndexOf(data, w, origin, y0 + 1, h, x, y);
    RawRowsTail(data, w, origin, y0, h);
    RawRowsFirstRow(data, w, origin, y0, h);
    assert RowsOffset(w, y - y0) + x == w + k;
    ShiftedUnique(rr, rest, w, k, origin.Add(Point(x, y)), origin.y + y0);
  }

  /**
   * A pixel sequence made of one row on line `row` followed by `rest`: a point off that
   * line that `rest` holds only at index `k` is held by the whole sequence only at `w + k`.
   */
  lemma ShiftedUnique(rr: seq<Pixel>, rest: seq<Pixel>, w: nat, k: nat, at: Point, row: int)
    requires |rr| == w + |rest| && k < |rest| && at.y != row
    requires forall j :: w <= j < |rr| ==> rr[j] == rest[j - w]
    requires forall j :: 0 <= j < w ==> rr[j].at.y == row
    requires forall j :: 0 <= j < |rest| && j != k ==> rest[j].at != at
    ensures rr[w + k] == rest[k]
    ensures forall j :: 0 <= j < |rr| && j != w + k ==> rr[j].at != at
  {
    forall j | 0 <= j < |rr| && j != w + k
      ensures rr[j].at != at
    {
      if j >= w {
        assert rr[j] == rest[j - w];
      }
    }
  }

  /** The first `w` pixels of the rows from `y0` lie on row `y0`. */
  lemma RawRowsFirstRow(data: seq<Byte>, w: nat, origin: Point, y0: nat, h: nat)
    requires y0 < h <= RawHeight(data, w)
    ensures w <= |RawRows(data, w, origin, y0, h)|
    ensures forall j :: 0 <= j < w ==> RawRows(data, w, origin, y0, h)[j].at.y == origin.y + y0
  {
    var rr := RawRows(data, w, origin, y0, h);
    RawRowsSplit(data, w, origin, y0, h);
    forall j | 0 <= j < w
      ensures rr[j].at.y == origin.y + y0
    {
      assert rr[j] == RawRow(data, w, origin, y0)[j];
    }
  }

  /** Past the first row, the rows from `y0` are the rows from `y0 + 1`. */
  lemma RawRowsTail(data: seq<Byte>, w: nat, origin: Point, y0: nat, h: nat)
    requires y0 < h <= RawHeight(data, w)
    ensures |RawRows(data, w, origin, y0, h)| == w + |RawRows(data, w, origin, y0 + 1, h)|
    ensures forall j :: w <= j < |RawRows(data, w, origin, y0, h)| ==>
      RawRows(data, w, origin, y0, h)[j] == RawRows(data, w, origin, y0 + 1, h)[j - w]
  {
    RawRowsSplit(data, w, origin, y0, h);
  }

  /** Every pixel of the rows from `y0` lies on row `y0` or below. */
  lemma {:induction false} RawRowsAllBelow(data: seq<Byte>, w: nat, origin: Point, y0: nat, h: nat, j: nat)
    requires y0 <= h <= RawHeight(data, w) && j < |RawRows(data, w, origin, y0, h)|
    ensures RawRows(data, w, origin, y0, h)[j].at.y >= origin.y + y0
    decreases h - y0
  {
    var row := RawRow(data, w, origin, y0);
    var rest := RawRows(data, w, origin, y0 + 1, h);
    assert RawRows(data, w, origin, y0, h) == row + rest;
    if j >= w {
      RawRowsAllBelow(data, w, origin, y0 + 1, h, j - w);
    }
  }

  /** Pixel (x, y) of the raw image is the `(x + y * w)`-th pixel drawn, and no other
      pixel lands on the same point. */
  lemma RawPixelsUnique(data: seq<Byte>, w: nat, origin: Point, x: nat, y: nat)
    requires x < w && y < RawHeight(data, w)
    ensures x + y * w < |RawPixels(data, w, origin)|
    ensures RawPixels(data, w, origin)[x + y * w] == Pixel(Point(origin.x + x, origin.y + y), RawBit(data, w, x, y))
    ensures forall j :: 0 <= j < |RawPixels(data, w, origin)| && j != x + y * w ==>
      RawPixels(data, w, origin)[j].at != Point(origin.x + x, origin.y + y)
  {
    RawRowsAt(data, w, origin, 0, RawHeight(data, w), x, y);
    RowsOffsetIsProduct(w, y);
  }

  /** Drawing a raw image puts every one of its on-screen pixels on the frame buffer. */
  lemma DrawRaw(fb: Device.FrameBuffer, data: seq<Byte>, w: nat, origin: Point, x: nat, y: nat)
    requires x < w && y < RawHeight(data, w)
    requires Device.InRange(origin.x + x, origin.y + y)
    ensures Device.Get(Device.DrawIter(fb, RawPixels(data, w, origin)), origin.x + x, origin.y + y)
         == RawBit(data, w, x, y)
  {
    var pixels := RawPixels(data, w, origin);
    var k := x + y * w;
    RawPixelsUnique(data, w, origin, x, y);
    assert k < |pixels| && pixels[k] == Pixel(Point(origin.x + x, origin.y + y), RawBit(data, w, x, y));
    Device.DrawIterUnique(fb, pixels, k, origin.x + x, origin.y + y);
  }
}
