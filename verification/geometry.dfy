/** Points, sizes and binary pixels of the drawing library the displays use. */
module Geometry {

  /** A signed position (`Point`). */
  datatype Point = Point(x: int, y: int) {
    function Add(other: Point): Point {
      Point(x + other.x, y + other.y)
    }
  }

  /** An unsigned extent (`Size`). */
  datatype Size = Size(width: nat, height: nat)

  /** A coloured point (`Pixel<BinaryColor>`); `on` is `BinaryColor::On`. */
  datatype Pixel = Pixel(at: Point, on: bool)

  const Origin: Point := Point(0, 0)
}
