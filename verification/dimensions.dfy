/**
 * Target size of the sampling canvas: the fallbacks for the width and
 * aspect-correction controls and the height computed from the image's
 * aspect ratio (script.js, generateAscii, lines 147-159).
 *
 * Numbers are exact: `real` is a rational, so `maxWidth / aspectRatio *
 * correction` has no IEEE-754 rounding.
 */
module Dimensions {
  import opened Wrappers

  /** Column count used when the width control is empty, not a number or zero. */
  const DefaultMaxWidth: int := 100
  /** Correction used when the aspect-correction control is empty, not a number or zero. */
  const DefaultCorrection: real := 0.6

  function Max(a: int, b: int): int { if a < b then b else a }

  /**
   * `parseInt(value) || 100`: a parse result of NaN (`None`) or 0 is falsy and is
   * replaced by the default; every other integer, negative ones included, is kept.
   */
  function MaxWidthOrDefault(parsed: Option<int>): (w: int)
    ensures w != 0
    ensures parsed.Some? && parsed.value != 0 ==> w == parsed.value
    ensures w != DefaultMaxWidth ==> parsed == Some(w)
  {
    match parsed
    case Some(v) => if v != 0 then v else DefaultMaxWidth
    case None => DefaultMaxWidth
  }

  /** `parseFloat(value) || 0.6`, with the same falsy rule as the width. */
  function CorrectionOrDefault(parsed: Option<real>): (c: real)
    ensures c != 0.0
    ensures parsed.Some? && parsed.value != 0.0 ==> c == parsed.value
    ensures c != DefaultCorrection ==> parsed == Some(c)
  {
    match parsed
    case Some(v) => if v != 0.0 then v else DefaultCorrection
    case None => DefaultCorrection
  }

  /** `Math.round`: the nearest integer, halves rounded up (towards +infinity). */
  function Round(v: real): (n: int)
    ensures n as real - 0.5 <= v < n as real + 0.5
  {
    (v + 0.5).Floor
  }

  /** Width and height of the canvas the image is drawn onto, in pixels (= characters). */
  datatype Size = Size(width: nat, height: nat)

  /**
   * `canvasWidth = max(1, maxWidth)` and `canvasHeight = max(1, round(maxWidth /
   * (imgWidth / imgHeight) * correction))`. Note that the height is computed from
   * the unclamped `maxWidth`.
   */
  function CanvasSize(imgWidth: nat, imgHeight: nat, maxWidth: int, correction: real): (s: Size)
    requires imgWidth > 0 && imgHeight > 0
    ensures s.width >= 1 && s.height >= 1
    ensures maxWidth >= 1 ==> s.width == maxWidth
    ensures maxWidth < 1 ==> s.width == 1
    ensures s.height == Max(1, Round(TargetHeight(imgWidth, imgHeight, maxWidth, correction)))
  {
    var aspectRatio := imgWidth as real / imgHeight as real;
    var canvasWidth := maxWidth;
    var canvasHeight := Round(maxWidth as real / aspectRatio * correction);
    DivideByRatio(maxWidth as real, imgWidth as real, imgHeight as real);
    assert maxWidth as real / aspectRatio * correction == TargetHeight(imgWidth, imgHeight, maxWidth, correction);
    Size(Max(1, canvasWidth), Max(1, canvasHeight))
  }

  /** Dividing by the aspect ratio `w / h` is multiplying by `h / w`. */
  lemma DivideByRatio(m: real, w: real, h: real)
    requires w > 0.0 && h > 0.0
    ensures m / (w / h) == m * h / w
  {
    var a := w / h;
    assert a * h == w;
    var q := m / a;
    assert q * a == m;
    assert q * w == m * h by {
      calc {
        q * w;
        q * (a * h);
        (q * a) * h;
        m * h;
      }
    }
  }

  /** The exact row count the canvas height approximates: `maxWidth · imgHeight / imgWidth · correction`. */
  function TargetHeight(imgWidth: nat, imgHeight: nat, maxWidth: int, correction: real): real
    requires imgWidth > 0
  {
    maxWidth as real * imgHeight as real / imgWidth as real * correction
  }

  /**
   * The canvas height is the target row count rounded to the nearest integer
   * whenever that target is at least one half; below that it is clamped to 1.
   */
  lemma HeightRoundsTarget(imgWidth: nat, imgHeight: nat, maxWidth: int, correction: real)
    requires imgWidth > 0 && imgHeight > 0
    ensures var t := TargetHeight(imgWidth, imgHeight, maxWidth, correction);
            var h := CanvasSize(imgWidth, imgHeight, maxWidth, correction).height;
            (t >= 0.5 ==> h as real - 0.5 <= t < h as real + 0.5) &&
            (t < 0.5 ==> h == 1)
  {
    var t := TargetHeight(imgWidth, imgHeight, maxWidth, correction);
    var n := Round(t);
    if t >= 0.5 {
      assert n >= 1;
    }
  }

  /** A negative or zero width with a positive correction yields the 1×1 canvas. */
  lemma NonPositiveWidthGivesUnitCanvas(imgWidth: nat, imgHeight: nat, maxWidth: int, correction: real)
    requires imgWidth > 0 && imgHeight > 0
    requires maxWidth <= 0 && correction > 0.0
    ensures CanvasSize(imgWidth, imgHeight, maxWidth, correction) == Size(1, 1)
  {
    var t := TargetHeight(imgWidth, imgHeight, maxWidth, correction);
    assert maxWidth as real * imgHeight as real <= 0.0;
    assert maxWidth as real * imgHeight as real / imgWidth as real <= 0.0;
    assert t <= 0.0;
  }

  /** A 200×100 image, width 80 and correction 0.6 give an 80×24 canvas. */
  lemma LandscapeExample()
    ensures CanvasSize(200, 100, MaxWidthOrDefault(Some(80)), CorrectionOrDefault(Some(0.6))) == Size(80, 24)
  {
    assert TargetHeight(200, 100, 80, 0.6) == 24.0;
  }

  /** With both controls unparseable, a square image gives a 100×60 canvas. */
  lemma DefaultsExample(side: nat)
    requires side > 0
    ensures CanvasSize(side, side, MaxWidthOrDefault(None), CorrectionOrDefault(None)) == Size(100, 60)
  {
    assert TargetHeight(side, side, 100, 0.6) == 60.0;
  }
}
