/**
 * The RGB to grayscale mapping of `rgb_to_grayscale`: a dot product of each
 * pixel with the weights 0.2989, 0.5870, 0.1140, cast to `uint8`.
 *
 * The weights are kept exactly by scaling them by 10000, so the float sum
 * 0.2989 R + 0.5870 G + 0.1140 B is `WeightedSum(p) / 10000` and the cast,
 * which truncates, is integer division of a non-negative number.
 */
module Grayscale {
  import opened Raster

  /** 10000 times 0.2989 R + 0.5870 G + 0.1140 B. The weights add up to 0.9999, not 1. */
  function WeightedSum(p: Rgb): (s: nat)
    ensures s <= 9999 * 255
    ensures p.r == p.g == p.b ==> s == 9999 * p.r
  {
    2989 * p.r + 5870 * p.g + 1140 * p.b
  }

  /**
   * The grey value of one pixel: the weighted sum truncated, not rounded.
   * It never exceeds 254, so the `uint8` cast never wraps.
   */
  function Luma(p: Rgb): (y: byte)
    ensures 10000 * y <= WeightedSum(p) < 10000 * (y + 1)
    ensures y <= 254
  {
    WeightedSum(p) / 10000
  }

  /**
   * A neutral pixel R = G = B = v loses one level (0 stays 0): the weights
   * give 0.9999 v, which lies strictly between v - 1 and v for 1 <= v <= 255.
   */
  lemma LumaOfNeutral(v: byte)
    ensures Luma(Rgb(v, v, v)) == if v == 0 then 0 else v - 1
  {
    assert WeightedSum(Rgb(v, v, v)) == 9999 * v;
    if v > 0 {
      assert 10000 * (v - 1) <= 9999 * v < 10000 * v;
    }
  }

  /**
   * The whole image mapped pixel by pixel: same rows and columns, one channel.
   */
  function Grayscale(img: RgbGrid): (g: Grid)
    ensures |g| == |img|
    ensures forall i :: 0 <= i < |g| ==> |g[i]| == |img[i]|
    ensures forall i, j :: 0 <= i < |img| && 0 <= j < |img[i]| ==>
              10000 * g[i][j] <= WeightedSum(img[i][j]) < 10000 * (g[i][j] + 1)
    ensures forall i, j :: 0 <= i < |img| && 0 <= j < |img[i]| ==> 0 <= g[i][j] <= 254
    ensures Rectangular(img) ==> IsGray(g)
  {
    seq(|img|, i requires 0 <= i < |img| => seq(|img[i]|, j requires 0 <= j < |img[i]| => Luma(img[i][j]) as int))
  }

  /**
   * A uniformly neutral image of level v comes out uniformly v - 1 (or 0 for
   * black): a 4 x 4 image of (128, 128, 128) gives 127 everywhere, not 128.
   */
  lemma {:induction false} GrayscaleOfNeutral(img: RgbGrid, v: byte)
    requires forall i, j :: 0 <= i < |img| && 0 <= j < |img[i]| ==> img[i][j] == Rgb(v, v, v)
    ensures forall i, j :: 0 <= i < |img| && 0 <= j < |img[i]| ==>
              Grayscale(img)[i][j] == if v == 0 then 0 else v - 1
  {
    LumaOfNeutral(v);
    var g := Grayscale(img);
    forall i, j | 0 <= i < |img| && 0 <= j < |img[i]|
      ensures g[i][j] == if v == 0 then 0 else v - 1
    {
      assert 10000 * g[i][j] <= WeightedSum(Rgb(v, v, v)) < 10000 * (g[i][j] + 1);
    }
  }
}
