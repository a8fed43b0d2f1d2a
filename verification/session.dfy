/**
 * The two image slots of `ImageProcessorApp` and the guard-and-overwrite
 * logic of its actions: every transform does nothing until an original
 * image is loaded and otherwise replaces the processed image; saving does
 * nothing until a processed image exists.
 *
 * What the file dialogs return, the decoded image, PIL's "L" conversion and
 * the HSV and Butterworth filters are parameters of the actions.
 */
module Session {
  import opened Raster
  import Grayscale
  import Laplacian

  datatype Option<T> = None | Some(value: T)

  /** What the processed slot holds: a one-channel or an RGB image. */
  datatype Image = GrayImage(gray: Grid) | RgbImage(rgb: RgbGrid)

  /** The largest width and height `display_image` leaves an image with. */
  const ThumbnailSize := 300

  /** A rectangular RGB raster no larger than the thumbnail box. */
  predicate FitsThumbnail(img: RgbGrid)
  {
    Rectangular(img) && |img| <= ThumbnailSize && Width(img) <= ThumbnailSize
  }

  class ImageProcessorApp {
    /** The decoded upload in RGB, shrunk to its thumbnail; `None` until an image is loaded. */
    var original: Option<RgbGrid>
    /** The result of the last transform; `None` until one has run. */
    var processed: Option<Image>

    /**
     * The original is a rectangular raster of at most 300 x 300 pixels (the
     * thumbnail it was shrunk to), and a processed image exists only once an
     * original does.
     */
    ghost predicate Valid()
      reads this
    {
      (original.Some? ==> FitsThumbnail(original.value)) &&
      (processed.Some? ==> original.Some?)
    }

    /** Both slots start empty. */
    constructor ()
      ensures Valid() && original == None && processed == None
    {
      original := None;
      processed := None;
    }

    /**
     * `upload_image`: `decoded` is the image the user picked, converted to
     * RGB, or `None` when the dialog was cancelled. Displaying it shrinks
     * that same image object in place to fit 300 x 300 (`thumbnail`), so the
     * original slot ends up holding the thumbnail, not the full image. A new
     * upload leaves the processed image as it was.
     */
    method UploadImage(decoded: Option<RgbGrid>, thumbnail: RgbGrid -> RgbGrid)
      requires Valid()
      requires decoded.Some? ==> FitsThumbnail(thumbnail(decoded.value))
      modifies this
      ensures Valid()
      ensures original == if decoded.Some? then Some(thumbnail(decoded.value)) else old(original)
      ensures processed == old(processed)
    {
      if decoded.Some? {
        original := Some(thumbnail(decoded.value));
      }
    }

    /** `rgb_to_grayscale`: the grey image of the original, one channel of the same shape. */
    method RgbToGrayscale()
      requires Valid()
      modifies this
      ensures Valid() && original == old(original)
      ensures old(original).None? ==> processed == old(processed)
      ensures old(original).Some? ==> processed == Some(GrayImage(Grayscale.Grayscale(original.value)))
      ensures old(original).Some? ==> |processed.value.gray| <= ThumbnailSize && IsGray(processed.value.gray)
    {
      if original.Some? {
        var gray := Grayscale.Grayscale(original.value);
        processed := Some(GrayImage(gray));
      }
    }

    /**
     * `rgb_to_hsv`: `roundTrip` is the RGB to HSV to RGB conversion with its
     * cast back to bytes; it works pixel by pixel, so it keeps rows and columns.
     */
    method RgbToHsv(roundTrip: RgbGrid -> RgbGrid)
      requires Valid()
      requires forall x :: Rectangular(x) ==>
                 Rectangular(roundTrip(x)) && |roundTrip(x)| == |x| && Width(roundTrip(x)) == Width(x)
      modifies this
      ensures Valid() && original == old(original)
      ensures old(original).None? ==> processed == old(processed)
      ensures old(original).Some? ==> processed == Some(RgbImage(roundTrip(original.value)))
      ensures old(original).Some? ==> FitsThumbnail(processed.value.rgb)
    {
      if original.Some? {
        processed := Some(RgbImage(roundTrip(original.value)));
      }
    }

    /**
     * `laplacian_edge`: `toGray` is PIL's conversion to mode "L", which keeps
     * the image's rows and columns; `wrap` is the platform's conversion of an
     * out-of-range value to `uint8`. The processed image is the edge grid of
     * the grey original, of the original's shape.
     */
    method LaplacianEdge(toGray: RgbGrid -> GrayGrid, wrap: int -> byte)
      requires Valid()
      requires forall x :: Rectangular(x) ==> |toGray(x)| == |x| && Width(toGray(x)) == Width(x)
      modifies this
      ensures Valid() && original == old(original)
      ensures old(original).None? ==> processed == old(processed)
      ensures old(original).Some? ==> processed == Some(GrayImage(Laplacian.EdgeGrid(toGray(original.value), wrap)))
      ensures old(original).Some? ==>
                IsGray(processed.value.gray) &&
                |processed.value.gray| == |original.value| && Width(processed.value.gray) == Width(original.value)
    {
      if original.Some? {
        var gray := toGray(original.value);
        var edges := Laplacian.LaplacianEdge(gray, wrap);
        var pixels := seq(edges.Length0, i requires 0 <= i < edges.Length0 reads edges =>
                          seq(edges.Length1, j requires 0 <= j < edges.Length1 reads edges => edges[i, j]));
        ghost var expected := Laplacian.EdgeGrid(gray, wrap);
        forall i | 0 <= i < |pixels|
          ensures pixels[i] == expected[i]
        {
          assert forall j :: 0 <= j < |pixels[i]| ==> pixels[i][j] == expected[i][j];
        }
        assert pixels == expected;
        processed := Some(GrayImage(pixels));
      }
    }

    /**
     * `butterworth_highpass`: `highPass` is the whole frequency-domain filter
     * of the original; like the FFT it is built on, it keeps rows and columns.
     */
    method ButterworthHighpass(highPass: RgbGrid -> Grid)
      requires Valid()
      requires forall x :: Rectangular(x) ==>
                 Rectangular(highPass(x)) && |highPass(x)| == |x| && Width(highPass(x)) == Width(x)
      modifies this
      ensures Valid() && original == old(original)
      ensures old(original).None? ==> processed == old(processed)
      ensures old(original).Some? ==> processed == Some(GrayImage(highPass(original.value)))
      ensures old(original).Some? ==>
                Rectangular(processed.value.gray) &&
                |processed.value.gray| == |original.value| && Width(processed.value.gray) == Width(original.value)
    {
      if original.Some? {
        processed := Some(GrayImage(highPass(original.value)));
      }
    }

    /**
     * `save_image`: `path` is the file the user picked, or `None` when the
     * dialog was cancelled. The result is what gets written where: nothing
     * without a processed image or a path, and otherwise the processed image.
     */
    method SaveImage(path: Option<string>) returns (written: Option<(string, Image)>)
      requires Valid()
      ensures written.Some? <==> processed.Some? && path.Some?
      ensures written.Some? ==> written.value == (path.value, processed.value)
      ensures written.Some? ==> original.Some?
    {
      written := None;
      if processed.Some? {
        if path.Some? {
          written := Some((path.value, processed.value));
        }
      }
    }
  }
}
