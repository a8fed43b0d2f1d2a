/** Pixel and grid types shared by the transforms of the image tool. */
module Raster {

  /** One 8-bit channel value, as held by a numpy `uint8` array. */
  type byte = x: int | 0 <= x < 256

  /** An RGB pixel of the decoded image (PIL mode "RGB"). */
  datatype Rgb = Rgb(r: byte, g: byte, b: byte)

  /** A single-channel grid in row-major order: `g[i][j]` is row `i`, column `j`. */
  type Grid = seq<seq<int>>

  /** An RGB raster, row-major. */
  type RgbGrid = seq<seq<Rgb>>

  /** Number of columns of a grid; a grid with no rows has none. */
  function Width<T>(g: seq<seq<T>>): nat
  {
    if |g| == 0 then 0 else |g[0]|
  }

  /** Every row has the same length. */
  predicate Rectangular<T>(g: seq<seq<T>>)
  {
    forall i :: 0 <= i < |g| ==> |g[i]| == Width(g)
  }

  /** A rectangular grid whose every cell is a byte: the shape of a PIL "L" image as a numpy array. */
  predicate IsGray(g: Grid)
  {
    Rectangular(g) &&
    forall i, j :: 0 <= i < |g| && 0 <= j < |g[i]| ==> 0 <= g[i][j] < 256
  }

  /** A grey grid, as produced by converting an image to mode "L". */
  type GrayGrid = g: Grid | IsGray(g) witness []
}
