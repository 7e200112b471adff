/**
 * generateAscii as a whole (script.js, lines 146-205): read the controls,
 * size the canvas, obtain its pixel buffer and render it as text.
 *
 * The controls arrive already parsed: `None` stands for a NaN from
 * parseInt/parseFloat. Drawing the image onto the canvas (the browser's
 * resampling) is not modelled; the buffer that getImageData returns is an
 * input, and `None` stands for getImageData throwing.
 */
module Generate {
  import opened Wrappers
  import opened Dimensions
  import opened Mapper

  /** The loaded image; only its size is used before the canvas is drawn. */
  datatype Image = Image(width: nat, height: nat)

  /** The four form controls read at the start of generateAscii. */
  datatype Controls = Controls(
    maxWidth: Option<int>,          // parseInt(maxWidthInput.value)
    charSet: string,                // charSetSelect.value
    invert: bool,                   // invertCheckbox.checked
    aspectCorrection: Option<real>  // parseFloat(aspectRatioCorrectionInput.value)
  )

  /** What generateAscii leaves behind: the art shown in the output, or an error. */
  datatype Outcome = Art(text: string) | ImageDataError

  /** The canvas size generateAscii computes from the image and the controls. */
  function TargetSize(img: Image, controls: Controls): (s: Size)
    requires img.width > 0 && img.height > 0
    ensures s.width >= 1 && s.height >= 1
    ensures controls.maxWidth.None? || controls.maxWidth == Some(0) ==> s.width == DefaultMaxWidth
    ensures controls.maxWidth.Some? && controls.maxWidth.value >= 1 ==> s.width == controls.maxWidth.value
    ensures controls.maxWidth.Some? && controls.maxWidth.value < 0 ==> s.width == 1
    ensures controls.aspectCorrection.None? || controls.aspectCorrection == Some(0.0) ==>
      s.height == Max(1, Round(TargetHeight(img.width, img.height, MaxWidthOrDefault(controls.maxWidth), DefaultCorrection)))
    ensures controls.aspectCorrection.Some? && controls.aspectCorrection.value != 0.0 ==>
      s.height == Max(1, Round(TargetHeight(img.width, img.height, MaxWidthOrDefault(controls.maxWidth),
                                            controls.aspectCorrection.value)))
  {
    CanvasSize(img.width, img.height,
               MaxWidthOrDefault(controls.maxWidth),
               CorrectionOrDefault(controls.aspectCorrection))
  }

  /**
   * generateAscii: on a buffer, the rendered text of TargetSize's height lines of
   * its width characters and a newline each; when getImageData fails, the error.
   */
  method GenerateAscii(img: Image, controls: Controls, imageData: Option<seq<byte>>) returns (out: Outcome)
    requires img.width > 0 && img.height > 0 && |controls.charSet| > 0
    requires imageData.Some? ==>
      IsImageData(imageData.value, TargetSize(img, controls).width, TargetSize(img, controls).height)
    ensures out.ImageDataError? <==> imageData.None?
    ensures out.Art? ==>
      out.text == Render(imageData.value, TargetSize(img, controls).width, TargetSize(img, controls).height,
                         controls.charSet, controls.invert)
    ensures out.Art? ==>
      |out.text| == TargetSize(img, controls).height * (TargetSize(img, controls).width + 1)
  {
    var size := TargetSize(img, controls);
    if imageData.None? {
      return ImageDataError;
    }
    var asciiArt := RenderAscii(imageData.value, size.width, size.height, controls.charSet, controls.invert);
    out := Art(asciiArt);
  }

  /**
   * Every line of the art has TargetSize's width: character `x` of line `y` is the
   * ramp character of pixel (x, y), the position after the last one is a newline.
   */
  lemma GeneratedLayout(img: Image, controls: Controls, data: seq<byte>, x: nat, y: nat)
    requires img.width > 0 && img.height > 0 && |controls.charSet| > 0
    requires IsImageData(data, TargetSize(img, controls).width, TargetSize(img, controls).height)
    requires x <= TargetSize(img, controls).width && y < TargetSize(img, controls).height
    ensures var s := TargetSize(img, controls);
      var text := Render(data, s.width, s.height, controls.charSet, controls.invert);
      y * (s.width + 1) + x < |text| &&
      (x == s.width ==> text[y * (s.width + 1) + x] == '\n') &&
      (x < s.width ==> text[y * (s.width + 1) + x] in controls.charSet)
  {
    var s := TargetSize(img, controls);
    RenderAt(data, s.width, s.height, controls.charSet, controls.invert, x, y);
    RampLength(controls.charSet, controls.invert);
    if x < s.width {
      var ramp := Ramp(controls.charSet, controls.invert);
      var i := PixelIndex(data, s.width, s.height, |controls.charSet|, x, y);
      assert ramp[i] in multiset(ramp);
    }
  }
}
