# Image processing tool: integer model of the transforms and the session slots

`main.py` is a small tkinter application, `ImageProcessorApp`. It loads an image,
applies one of four transforms to it (grayscale, HSV round trip, Laplacian edge
detection, Butterworth high-pass) and saves the last result. This project
models in Dafny the part of it that can be stated exactly in integers:

- **Grayscale** (`grayscale.dfy`): the per-pixel mapping of `rgb_to_grayscale`. It takes
  `0.2989 R + 0.5870 G + 0.1140 B` and casts it to `uint8`, which truncates.
  The weights are scaled by 10000, so the value is `(2989 R + 5870 G + 1140 B) / 10000`.
  The model proves that it never exceeds 254, so the cast never wraps. It also proves
  that a neutral pixel `(v, v, v)` becomes `v - 1`, because the weights add up to 0.9999.
- **Laplacian** (`laplacian.dfy`): `laplacian_edge`. The grey grid is zero-padded by one
  cell (`Pad`, `PadCells`). A zero `uint8` buffer of the grid's shape is allocated. Nested
  loops fill it from the 3 x 3 padded windows with the kernel
  `[[0,1,0],[1,-4,1],[0,1,0]] / 4` (`LaplacianEdge`). The model works with four times the
  response, which is exact: every tap is a quarter of a byte. `WindowIsFivePoint` proves
  that the window sum is the five-point stencil `N + S + E + W - 4C` on the unpadded grid,
  with out-of-range neighbours read as 0.
  The response is stored into the `uint8` buffer before `np.abs` and `np.clip` run.
  Those two therefore change nothing (`ClipAbs`).
  A float-to-`uint8` cast truncates toward zero. A value still in 0..255 is stored
  as it is (`StoredByte`). A response of -1/4, -2/4 or -3/4 therefore becomes 0.
  The byte stored for a more negative response depends on the platform, so it is a
  parameter `wrap` of the model.
- **Session** (`session.dfy`): the fields `original_image` and `processed_image` as a class
  with two optional slots. Uploading replaces the original and keeps the processed image.
  The original slot holds the upload shrunk to fit 300 x 300, because `display_image`
  calls PIL's in-place `thumbnail` on the very object stored there (main.py:59, 62).
  Every transform therefore works on that thumbnail. It does nothing without an original
  and otherwise overwrites the processed slot. Saving writes nothing without a processed
  image or a chosen path, and so never writes before an upload.
- `raster.dfy` holds the shared types: bytes, RGB pixels and rectangular grids.

Four consequences of the code as written:

- The grey value is truncated, not rounded: `(128, 128, 128)` gives 127, not 128 (`GrayscaleOfNeutral`).
- The Laplacian response is not rectified. `np.abs` runs after the cast to `uint8`, where it has no effect.
- With zero padding, every border cell of a uniform image of value c > 0 has a negative response (`UniformBorderIsNegative`), while interior cells give 0 (`FlatRegionIsZero`). On a grid of at least 2 x 2 cells, the stored byte of a border cell is 0 when its response is above -4: at level 1, and at the non-corner edge cells of levels 2 and 3. A grid of one row or one column has cells missing two neighbours that are not corners, so there a level-2 cell away from the ends (`UniformSingleRowByte`) and the single cell of a 1 x 1 image at level 1 (`SinglePixelByte`) store the platform's conversion of -1. Otherwise it is the platform's conversion of the truncated negative quarter; for a corner at level c >= 2 that is the conversion of -(c / 2) (`UniformCornerByte`). Whether a uniform image gives an all-zero output therefore depends on the platform.
- A single bright pixel does not necessarily give the largest output at its centre. The centre's response is negative and its byte is the platform's conversion of -255 (`SingleBrightPixel`).

## Model

| member | source | states |
|---|---|---|
| `Grayscale.WeightedSum` | main.py:70 | 10000 times the dot product with (0.2989, 0.5870, 0.1140). It is at most 9999 * 255, and a neutral pixel (v, v, v) gives 9999 v: the weights add up to 0.9999. |
| `Grayscale.Luma` | main.py:70 | The grey value of a pixel is the weighted sum 0.2989 R + 0.5870 G + 0.1140 B truncated: `10000 y <= 2989 R + 5870 G + 1140 B < 10000 (y + 1)`. It never exceeds 254, so the `uint8` cast never wraps. |
| `Grayscale.LumaOfNeutral` | main.py:70 | A neutral pixel R = G = B = v maps to v - 1 for 1 <= v <= 255 and to 0 for v = 0. |
| `Grayscale.Grayscale` | main.py:69-70 | The grey image has the input's rows and columns and one channel. Each pixel is the truncated weighted sum of its RGB pixel and lies in 0..254. A rectangular input gives a grey grid. |
| `Grayscale.GrayscaleOfNeutral` | main.py:70 | A uniformly neutral image of level v maps to a uniform image of level v - 1, or 0 when v = 0. |
| `Laplacian.Pad` | main.py:92 | The padded grid is rectangular, with (rows + 2) x (cols + 2) cells. |
| `Laplacian.PadCells` | main.py:92 | The padded grid's first and last rows and columns are zero, and `padded[i+1][j+1] == gray[i][j]`. |
| `Laplacian.Window4` | main.py:98-99 | Four times the kernel applied to `padded[i:i+3, j:j+3]`, all nine products summed. The diagonal taps weigh 0, so it is N + S + E + W - 4C of the window's centre. |
| `Laplacian.WindowIsFivePoint` | main.py:86-99 | The kernel applied to the padded 3 x 3 window at (i, j) equals four times N + S + E + W - 4C on the grey grid, with out-of-range neighbours read as 0. Diagonal neighbours carry no weight. |
| `Laplacian.QuarterTowardZero` | main.py:99 | The cast truncates the float response r / 4 toward zero: r / 4 floored for r >= 0, and the smallest-magnitude integer quotient for r < 0. |
| `Laplacian.StoredByte` | main.py:93-99 | The byte written into the `uint8` buffer: r / 4 truncated when 0 <= r < 1024; 0 when -4 < r < 0; the platform's byte for the truncated quotient when r <= -4. |
| `Laplacian.ClipAbs` | main.py:102 | `clip(abs(x), 0, 255)` lies in 0..255 and is the identity on bytes, so `edges` equals `output` cell for cell. |
| `Laplacian.LaplacianEdge` | main.py:82-102 | The output has exactly the grey grid's shape, and each cell equals the reference `EdgeByte`: the stored byte of the five-point response at that cell. (The loop invariants, not the contract, show that each cell is written once into a zero buffer.) |
| `Laplacian.EdgeGrid` | main.py:93-104 | The edge image as a value: the grey grid's rows and columns, every cell a byte. |
| `Laplacian.NonNegativeResponse` | main.py:87-99 | When N + S + E + W - 4C >= 0, the stored value is that response over 4, truncated, and it lies in 0..255. |
| `Laplacian.FlatRegionIsZero` | main.py:87-99 | An interior cell whose centre and four neighbours all equal c has response 0 and output 0. |
| `Laplacian.UniformBorderIsNegative` | main.py:92-99 | On a uniform grid of value c > 0, a border cell's response is -c times its number of missing neighbours, so it is negative. |
| `Laplacian.UniformCornerByte` | main.py:92-99 | On a uniform grid of at least 2 x 2 cells and value c >= 2, the top-left corner's response is -2c and its stored byte is the platform's conversion of -(c / 2). |
| `Laplacian.UniformSingleRowByte` | main.py:92-99 | On a uniform one-row grid of value c >= 2, a cell away from both ends misses its upper and lower neighbour: its response is -2c and its stored byte is the platform's conversion of -(c / 2). |
| `Laplacian.SinglePixelByte` | main.py:92-99 | A 1 x 1 image of value c in 1..255 misses all four neighbours: its response is -4c and its stored byte is the platform's conversion of -c. |
| `Laplacian.SingleBrightPixel` | main.py:86-102 | For a 3 x 3 grid with one 255 in the centre, the centre's four neighbours give 63 and the corners 0. The centre's response is -1020, stored as the platform's byte for -255. |
| `Session.ImageProcessorApp.constructor` | main.py:14-16 | Both slots start empty. |
| `Session.ImageProcessorApp.UploadImage` | main.py:55-62 | A chosen image, shrunk in place to its thumbnail, replaces the original. A cancelled dialog changes nothing. The processed image is kept either way. |
| `Session.ImageProcessorApp.RgbToGrayscale` | main.py:67-72 | Without an original nothing changes. Otherwise the processed slot becomes the grayscale of the original, a grey grid of at most 300 rows, and the original is unchanged. |
| `Session.ImageProcessorApp.RgbToHsv` | main.py:74-80 | Without an original nothing changes. Otherwise the processed slot becomes the HSV round trip of the original, which fits 300 x 300 like the original, given that the per-pixel round trip keeps rows and columns. |
| `Session.ImageProcessorApp.LaplacianEdge` | main.py:82-105 | Without an original nothing changes. Otherwise the processed slot becomes the edge grid of the grey-converted original, a grey grid with the original's rows and columns, given that the "L" conversion keeps them. |
| `Session.ImageProcessorApp.ButterworthHighpass` | main.py:107-126 | Without an original nothing changes. Otherwise the processed slot becomes the high-pass image of the original, a rectangular grid with the original's rows and columns, given that the filter keeps them. |
| `Session.ImageProcessorApp.SaveImage` | main.py:128-137 | Something is written exactly when a processed image exists and a path was chosen. What is written is the processed image at that path. Nothing is written before an upload. |

## Left out

- The tkinter window, buttons and labels, and the photo handed to a label (main.py:9-53, 63-65), are UI. So are the message box after saving and the encoding of the saved file; `SaveImage` returns the path and image instead of writing them. The in-place `thumbnail` at main.py:62 is not only UI: its effect on the original slot is modelled in `UploadImage`.
- Session.ImageProcessorApp.UploadImage: PIL's `thumbnail` resampling (main.py:62) is a foreign library call. It is the parameter `thumbnail`, assumed to return a rectangular image of at most 300 x 300. The pixel values it computes and its preservation of the aspect ratio are not modelled. Thumbnailing the processed image on display is also left out: every transform keeps the original's rows and columns (proved for grayscale, and for the HSV, Laplacian and Butterworth paths given that `roundTrip`, `toGray` and `highPass` keep them), so the processed image already fits 300 x 300.
- File dialogs and image decoding (main.py:56-58) are I/O and a foreign library. The decoded RGB image is a parameter of `UploadImage`, and a cancelled dialog is `None`.
- PIL's conversion to mode "L" (main.py:84) is a foreign library call. It is the parameter `toGray` of the session's `LaplacianEdge`, and the stencil takes the grey grid as input.
- The HSV round trip (main.py:76-78) is float arithmetic inside matplotlib. Only its slot logic is modelled; the conversion is the parameter `roundTrip`.
- The Butterworth high-pass (main.py:109-123) uses an FFT, square roots, powers and float normalisation, and has no guard for a zero maximum. Only its slot logic is modelled; the filter, with its `cutoff` and `order`, is the parameter `highPass`.
- Laplacian.StoredByte: does not fix the byte a float at or below -1 becomes when cast to `uint8`. That conversion is platform-dependent, so it is the parameter `wrap`.
- Grayscale.Luma: uses the exact decimal weights. The float weights are binary approximations, and the float sum could be one below the exact value only when the exact sum `2989 R + 5870 G + 1140 B` is a multiple of 10000; that float rounding is not modelled.
- The grids are values, so the grey grid and the padded grid are trivially unchanged by the stencil loop. Only the output buffer and the final edge array are arrays.
- A grid with no rows has width 0 in this model. numpy would still record a column count for such an array; PIL never produces an empty image.
