/**
 * Laplacian edge detection (`laplacian_edge`): the grey grid is padded by one
 * cell of zeros, a 3 x 3 kernel is applied at every cell, and each response
 * is stored into a `uint8` buffer of the grey grid's shape.
 *
 * The source's kernel is `Kernel4` divided by 4. Every tap is a multiple of
 * 1/4 times a byte, so the float sum is exact and equals `r / 4` for the
 * integer `r` computed here with `Kernel4`; all quantities below are `r`.
 */
module Laplacian {
  import opened Raster

  /** Four times the source's kernel [[0, 1, 0], [1, -4, 1], [0, 1, 0]] / 4. */
  const Kernel4: seq<seq<int>> := [[0, 1, 0], [1, -4, 1], [0, 1, 0]]

  /** A row of `n` zeros. */
  function Zeros(n: nat): (z: seq<int>)
    ensures |z| == n && forall k :: 0 <= k < n ==> z[k] == 0
  {
    seq(n, _ => 0)
  }

  /** Constant (zero) padding by one cell on every side: a (rows + 2) x (cols + 2) grid. */
  function Pad(g: Grid): (p: Grid)
    requires Rectangular(g)
    ensures |p| == |g| + 2 && Rectangular(p) && Width(p) == Width(g) + 2
  {
    var w := Width(g);
    [Zeros(w + 2)] + seq(|g|, i requires 0 <= i < |g| => [0] + g[i] + [0]) + [Zeros(w + 2)]
  }

  /** The padded grid's border is zero and its inside is the grid, shifted by one row and one column. */
  lemma PadCells(g: Grid)
    requires Rectangular(g)
    ensures var p := Pad(g);
            (forall j :: 0 <= j < Width(p) ==> p[0][j] == 0 && p[|p| - 1][j] == 0) &&
            (forall i :: 0 <= i < |p| ==> p[i][0] == 0 && p[i][Width(p) - 1] == 0) &&
            (forall i, j :: 0 <= i < |g| && 0 <= j < Width(g) ==> p[i + 1][j + 1] == g[i][j])
  {
    var p := Pad(g);
    forall i | 0 <= i < |g|
      ensures p[i + 1] == [0] + g[i] + [0]
    {
    }
  }

  /**
   * The kernel applied to the 3 x 3 window of `p` whose top-left corner is
   * (i, j): all nine products summed, as `np.sum(region * kernel)` does.
   * The four diagonal taps have weight 0, so only the centre and its four
   * orthogonal neighbours contribute.
   */
  function Window4(p: Grid, i: int, j: int): (r: int)
    requires Rectangular(p) && 0 <= i && i + 3 <= |p| && 0 <= j && j + 3 <= Width(p)
    ensures r == p[i][j + 1] + p[i + 2][j + 1] + p[i + 1][j] + p[i + 1][j + 2] - 4 * p[i + 1][j + 1]
  {
    Kernel4[0][0] * p[i][j]     + Kernel4[0][1] * p[i][j + 1]     + Kernel4[0][2] * p[i][j + 2] +
    Kernel4[1][0] * p[i + 1][j] + Kernel4[1][1] * p[i + 1][j + 1] + Kernel4[1][2] * p[i + 1][j + 2] +
    Kernel4[2][0] * p[i + 2][j] + Kernel4[2][1] * p[i + 2][j + 1] + Kernel4[2][2] * p[i + 2][j + 2]
  }

  /** The grid's value at (i, j), reading 0 outside the grid. */
  function At(g: Grid, i: int, j: int): int
  {
    if 0 <= i < |g| && 0 <= j < |g[i]| then g[i][j] else 0
  }

  /**
   * Reference definition of the response at (i, j), four times the float:
   * the four orthogonal neighbours minus four times the centre, with
   * neighbours outside the grid read as 0. Diagonal neighbours do not occur.
   */
  function Response(g: Grid, i: int, j: int): int
  {
    At(g, i - 1, j) + At(g, i + 1, j) + At(g, i, j - 1) + At(g, i, j + 1) - 4 * At(g, i, j)
  }

  /**
   * The padded-window computation is the five-point stencil on the unpadded
   * grid: output cell (i, j) depends only on the centre and its four
   * orthogonal neighbours, out-of-range ones counting as zero.
   */
  lemma WindowIsFivePoint(g: Grid, i: int, j: int)
    requires Rectangular(g) && 0 <= i < |g| && 0 <= j < Width(g)
    ensures Window4(Pad(g), i, j) == Response(g, i, j)
  {
    var p := Pad(g);
    PadCells(g);
    assert p[i][j + 1] == At(g, i - 1, j);
    assert p[i + 2][j + 1] == At(g, i + 1, j);
    assert p[i + 1][j] == At(g, i, j - 1);
    assert p[i + 1][j + 2] == At(g, i, j + 1);
    assert p[i + 1][j + 1] == At(g, i, j);
  }

  /** `r / 4` truncated toward zero, as a float-to-integer cast truncates. */
  function QuarterTowardZero(r: int): (q: int)
    ensures r >= 0 ==> q == r / 4
    ensures r < 0 ==> q <= 0 && 4 * q - 4 < r <= 4 * q
  {
    if r >= 0 then r / 4 else -((-r) / 4)
  }

  /**
   * The byte `output[i, j] = <float r / 4>` stores into the `uint8` buffer.
   * The cast truncates toward zero; a truncated value in 0..255 is stored as
   * it is, and any other is converted by the platform, modelled by `wrap`.
   */
  function StoredByte(r: int, wrap: int -> byte): (b: byte)
    ensures 0 <= r < 1024 ==> b == r / 4
    ensures -4 < r < 0 ==> b == 0
    ensures r <= -4 ==> b == wrap(QuarterTowardZero(r))
  {
    var q := QuarterTowardZero(r);
    if 0 <= q < 256 then q else wrap(q)
  }

  /** The output byte at (i, j) of a grey grid. */
  function EdgeByte(g: Grid, i: int, j: int, wrap: int -> byte): byte
  {
    StoredByte(Response(g, i, j), wrap)
  }

  /** `np.clip(np.abs(x), 0, 255)` on one value. */
  function ClipAbs(x: int): (y: int)
    ensures 0 <= y <= 255
    ensures 0 <= x <= 255 ==> y == x
  {
    var a := if x < 0 then -x else x;
    if a > 255 then 255 else a
  }

  /**
   * The stencil loop of `laplacian_edge`: pads the grey grid, allocates a
   * zero buffer of its shape, writes each cell once from its padded window,
   * then applies abs and clip, which leave bytes unchanged. The result has
   * the grey grid's shape and each cell is the reference `EdgeByte`.
   */
  method LaplacianEdge(gray: GrayGrid, wrap: int -> byte) returns (edges: array2<int>)
    ensures edges.Length0 == |gray| && edges.Length1 == Width(gray)
    ensures forall i, j :: 0 <= i < edges.Length0 && 0 <= j < edges.Length1 ==>
              edges[i, j] == EdgeByte(gray, i, j, wrap)
  {
    var rows, cols := |gray|, Width(gray);
    var padded := Pad(gray);
    var output := new int[rows, cols]((_, _) => 0);
    for i := 0 to rows
      invariant forall i', j :: 0 <= i' < i && 0 <= j < cols ==> output[i', j] == EdgeByte(gray, i', j, wrap)
      invariant forall i', j :: i <= i' < rows && 0 <= j < cols ==> output[i', j] == 0
    {
      for j := 0 to cols
        invariant forall i', j' :: 0 <= i' < i && 0 <= j' < cols ==> output[i', j'] == EdgeByte(gray, i', j', wrap)
        invariant forall j' :: 0 <= j' < j ==> output[i, j'] == EdgeByte(gray, i, j', wrap)
        invariant forall i', j' :: i <= i' < rows && 0 <= j' < cols && (i' > i || j' >= j) ==> output[i', j'] == 0
      {
        WindowIsFivePoint(gray, i, j);
        output[i, j] := StoredByte(Window4(padded, i, j), wrap);
      }
    }
    edges := new int[rows, cols]((i, j) reads output requires 0 <= i < rows && 0 <= j < cols => ClipAbs(output[i, j]));
  }

  /** The whole output grid, row by row, as a value. */
  function EdgeGrid(gray: GrayGrid, wrap: int -> byte): (e: Grid)
    ensures |e| == |gray| && IsGray(e)
    ensures forall i :: 0 <= i < |e| ==> |e[i]| == Width(gray)
  {
    seq(|gray|, i requires 0 <= i < |gray| => seq(Width(gray), j => EdgeByte(gray, i, j, wrap) as int))
  }

  /**
   * A response that is not negative is stored as its quarter truncated,
   * which is a byte: a grey grid gives responses of at most 4 * 255.
   */
  lemma NonNegativeResponse(g: Grid, i: int, j: int, wrap: int -> byte)
    requires IsGray(g) && 0 <= i < |g| && 0 <= j < Width(g)
    requires Response(g, i, j) >= 0
    ensures EdgeByte(g, i, j, wrap) == Response(g, i, j) / 4 <= 255
  {
    AtIsByte(g, i - 1, j);
    AtIsByte(g, i + 1, j);
    AtIsByte(g, i, j - 1);
    AtIsByte(g, i, j + 1);
  }

  lemma AtIsByte(g: Grid, i: int, j: int)
    requires IsGray(g)
    ensures 0 <= At(g, i, j) <= 255
  {
  }

  /** A cell inside a region where the centre and its four neighbours equal c gives 0. */
  lemma FlatRegionIsZero(g: Grid, i: int, j: int, c: int, wrap: int -> byte)
    requires Rectangular(g) && 0 < i < |g| - 1 && 0 < j < Width(g) - 1
    requires g[i][j] == c && g[i - 1][j] == c && g[i + 1][j] == c && g[i][j - 1] == c && g[i][j + 1] == c
    ensures Response(g, i, j) == 0 && EdgeByte(g, i, j, wrap) == 0
  {
  }

  /**
   * On a uniform grid of value c > 0, a border cell has a negative response:
   * the zero padding stands in for each missing neighbour, so the response
   * is -c times the number of missing neighbours. What is stored for it is a
   * separate matter: a response above -4 is stored as 0 (`StoredByte`).
   */
  lemma UniformBorderIsNegative(g: Grid, i: int, j: int, c: int)
    requires Rectangular(g) && 0 <= i < |g| && 0 <= j < Width(g)
    requires forall i', j' :: 0 <= i' < |g| && 0 <= j' < Width(g) ==> g[i'][j'] == c
    requires c > 0 && (i == 0 || i == |g| - 1 || j == 0 || j == Width(g) - 1)
    ensures Response(g, i, j) < 0
    ensures Response(g, i, j) == -c * ((if i == 0 then 1 else 0) + (if i == |g| - 1 then 1 else 0)
                                       + (if j == 0 then 1 else 0) + (if j == Width(g) - 1 then 1 else 0))
  {
    assert At(g, i, j) == c;
    assert At(g, i - 1, j) == if i == 0 then 0 else c;
    assert At(g, i + 1, j) == if i == |g| - 1 then 0 else c;
    assert At(g, i, j - 1) == if j == 0 then 0 else c;
    assert At(g, i, j + 1) == if j == Width(g) - 1 then 0 else c;
  }

  /**
   * The top-left corner of a uniform grid of at least 2 x 2 cells and value
   * c >= 2 misses two neighbours, so its response is -2c <= -4. Its byte is
   * the platform's conversion of -(c / 2), not a value the code fixes.
   */
  lemma UniformCornerByte(g: Grid, c: int, wrap: int -> byte)
    requires Rectangular(g) && |g| >= 2 && Width(g) >= 2
    requires forall i, j :: 0 <= i < |g| && 0 <= j < Width(g) ==> g[i][j] == c
    requires c >= 2
    ensures Response(g, 0, 0) == -2 * c
    ensures EdgeByte(g, 0, 0, wrap) == wrap(-(c / 2))
  {
    UniformBorderIsNegative(g, 0, 0, c);
    assert QuarterTowardZero(-2 * c) == -(c / 2);
  }

  /**
   * In a uniform grid of a single row, every cell misses its upper and lower
   * neighbour, so a cell away from both ends has response -2c as a corner
   * does: at level 2 its byte is the platform's conversion of -1, not 0.
   */
  lemma UniformSingleRowByte(g: Grid, j: int, c: int, wrap: int -> byte)
    requires Rectangular(g) && |g| == 1 && 0 < j < Width(g) - 1
    requires forall j' :: 0 <= j' < Width(g) ==> g[0][j'] == c
    requires c >= 2
    ensures Response(g, 0, j) == -2 * c
    ensures EdgeByte(g, 0, j, wrap) == wrap(-(c / 2))
  {
    UniformBorderIsNegative(g, 0, j, c);
    assert QuarterTowardZero(-2 * c) == -(c / 2);
  }

  /**
   * A 1 x 1 image misses all four neighbours: at level c >= 1 its response is
   * -4c and its byte is the platform's conversion of -c.
   */
  lemma SinglePixelByte(c: int, wrap: int -> byte)
    requires 1 <= c <= 255
    ensures Response([[c]], 0, 0) == -4 * c
    ensures EdgeByte([[c]], 0, 0, wrap) == wrap(-c)
  {
    assert QuarterTowardZero(-4 * c) == -c;
  }

  /** A 3 x 3 grid, black but for a single 255 in the centre. */
  const BrightCentre: Grid := [[0, 0, 0], [0, 255, 0], [0, 0, 0]]

  /**
   * On `BrightCentre` the four orthogonal neighbours of the centre give 63
   * and the corners 0, while the centre's response is -1020, whose byte is
   * the platform's conversion of -255: the centre is not guaranteed to be
   * the largest output.
   */
  lemma SingleBrightPixel(wrap: int -> byte)
    ensures forall i, j :: 0 <= i < 3 && 0 <= j < 3 && (i == 1) != (j == 1) ==> EdgeByte(BrightCentre, i, j, wrap) == 63
    ensures forall i, j :: 0 <= i < 3 && 0 <= j < 3 && i != 1 && j != 1 ==> EdgeByte(BrightCentre, i, j, wrap) == 0
    ensures EdgeByte(BrightCentre, 1, 1, wrap) == wrap(-255)
  {
    var g := BrightCentre;
    forall i, j | 0 <= i < 3 && 0 <= j < 3 && (i == 1) != (j == 1)
      ensures EdgeByte(g, i, j, wrap) == 63
    {
      assert Response(g, i, j) == 255 by { BrightCentreCells(); }
    }
    forall i, j | 0 <= i < 3 && 0 <= j < 3 && i != 1 && j != 1
      ensures EdgeByte(g, i, j, wrap) == 0
    {
      assert Response(g, i, j) == 0 by { BrightCentreCells(); }
    }
    assert Response(g, 1, 1) == -1020 by { BrightCentreCells(); }
  }

  lemma BrightCentreCells()
    ensures |BrightCentre| == 3 && forall i :: 0 <= i < 3 ==> |BrightCentre[i]| == 3
    ensures forall i, j :: 0 <= i < 3 && 0 <= j < 3 ==> BrightCentre[i][j] == if i == 1 && j == 1 then 255 else 0
  {
  }
}
