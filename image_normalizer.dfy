/** The decision part of `process_image_for_ai` (deconstruct.py): which images
    are composited over white, which are converted straight to RGB, and which
    end in the `except` branch that returns `None`. Pixel work is done by the
    imaging library and is not part of this model. */
module ImageNormalizer {

  /** What `process_image_for_ai` returns for one image. */
  datatype Outcome =
    | Composited   // pasted over a white RGB canvas through its alpha band
    | Converted    // `img.convert('RGB')`
    | Failed       // an exception was caught and `None` returned

  /** The test on line 28: the mode has an alpha band, or is a palette with a
      `transparency` entry. */
  predicate TakesCompositeBranch(mode: string, hasTransparency: bool) {
    mode == "RGBA" || mode == "LA" || (mode == "P" && hasTransparency)
  }

  /** Number of bands `Image.split()` returns for the listed imaging modes; the
      model only distinguishes modes with fewer than four bands from the rest. */
  function BandCount(mode: string): (n: nat)
    ensures mode == "RGBA" || mode == "CMYK" ==> n == 4
    ensures mode == "LA" || mode == "PA" ==> n == 2
  {
    if mode == "RGBA" || mode == "CMYK" || mode == "RGBX" then 4
    else if mode == "RGB" || mode == "YCbCr" || mode == "LAB" || mode == "HSV" then 3
    else if mode == "LA" || mode == "PA" then 2
    else 1
  }

  /** `process_image_for_ai`. `decodes` is whether opening the file and
      loading its pixels succeed (the imaging library opens lazily, so a
      truncated file can fail only at the first pixel access).
      A palette image is first converted to RGBA; the alpha band is band 3,
      so an image with fewer than four bands raises and yields `Failed`. */
  function ProcessImage(decodes: bool, mode: string, hasTransparency: bool): (r: Outcome)
    ensures r == Composited <==> decodes && (mode == "RGBA" || (mode == "P" && hasTransparency))
    ensures r == Converted <==> decodes && !TakesCompositeBranch(mode, hasTransparency)
    ensures r == Failed <==> !decodes || mode == "LA"
  {
    if !decodes then Failed
    else if TakesCompositeBranch(mode, hasTransparency) then
      var composedMode := if mode == "P" then "RGBA" else mode;
      if BandCount(composedMode) > 3 then Composited else Failed
    else Converted
  }

  /** The result `create_visual_reference_pdf` keeps: anything but `None`. */
  predicate Usable(r: Outcome) {
    r != Failed
  }
}
