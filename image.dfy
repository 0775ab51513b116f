/** Rasters: 8-bit channels, BGR pixels as OpenCV decodes them, RGBA
    pixels as PIL writes them, and grids of either. */
module Image {

  /** One 8-bit channel value (NumPy `uint8`). */
  type Byte = x: int | 0 <= x < 256

  /** A decoded pixel in OpenCV's channel order. */
  datatype Bgr = Bgr(b: Byte, g: Byte, r: Byte)

  /** An output pixel: colour in display order plus opacity. */
  datatype Rgba = Rgba(r: Byte, g: Byte, b: Byte, a: Byte)

  /** A raster, row by row. */
  type Grid<T> = seq<seq<T>>

  type Frame = Grid<Bgr>

  /** A single-channel raster (an alpha mask). */
  type Mask = Grid<Byte>

  /** (i, j) is a pixel of `m`. */
  predicate Cell<T>(m: Grid<T>, i: int, j: int) {
    0 <= i < |m| && 0 <= j < |m[i]|
  }

  /** (p, q) lies in the 3x3 window centred at (i, j). */
  predicate Adjacent(i: int, j: int, p: int, q: int) {
    -1 <= p - i <= 1 && -1 <= q - j <= 1
  }

  predicate SameShape<A, B>(x: Grid<A>, y: Grid<B>) {
    |x| == |y| && forall i :: 0 <= i < |x| ==> |x[i]| == |y[i]|
  }

  /** Every pixel of `m` is `v`. */
  ghost predicate Uniform(m: Mask, v: Byte) {
    forall i, j :: Cell(m, i, j) ==> m[i][j] == v
  }

  /** Every pixel of `m` is fully transparent or fully opaque. */
  ghost predicate IsBinary(m: Mask) {
    forall i, j :: Cell(m, i, j) ==> m[i][j] == 0 || m[i][j] == 255
  }

  /** cv2.inRange's per-pixel test: every channel lies in its inclusive band. */
  predicate InBand(p: Bgr, lower: Bgr, upper: Bgr) {
    && lower.b <= p.b <= upper.b
    && lower.g <= p.g <= upper.g
    && lower.r <= p.r <= upper.r
  }
}
