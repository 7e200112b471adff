# ASCII art generator: a Dafny model of `generateAscii`

The web page turns an uploaded picture into ASCII art. Its core is
`generateAscii` in `script.js`, which works in three steps:

1. It reads four controls: the output width in characters, the character
   set (the "ramp", darkest first), the invert checkbox and the
   character-aspect correction. A control that parses to NaN or to 0 falls
   back to 100 or to 0.6.
2. It sizes a canvas. The width is the requested width. The height is the
   width divided by the image's aspect ratio, times the correction, rounded.
   Both are clamped to at least 1.
3. It draws the image on the canvas and reads back the RGBA bytes. It then
   walks the pixels row by row. Each pixel's luminance
   `0.21·r + 0.71·g + 0.07·b` picks a ramp character at index
   `min(floor(gray/255 · n), n − 1)`. The charset is reversed first when
   invert is set. Each row ends with a newline.

The project has four modules:

- `Wrappers` holds the `Option` type. `None` stands for a NaN from
  `parseInt`/`parseFloat`.
- `Dimensions` (`dimensions.dfy`) holds the fallbacks and the canvas size,
  as pure functions on exact rationals.
- `Mapper` (`mapper.dfy`) holds the pixel walk. It has two layers:
  - a specification: `Lines`, a sequence of rows of characters built by
    comprehension, and `Join`, which appends a newline to each row. The
    properties are proved about this layer.
  - the imperative loops `RenderAscii`, `AppendLine` and `PixelChar`. They
    are proved to compute exactly `Render`.
- `Generate` (`generate.dfy`) combines the two steps into `GenerateAscii`.
  It includes the `getImageData` failure path.

All arithmetic is exact. The gray level is kept as the integer
`Gray100 = 21r + 71g + 7b`, which is 100 times the gray level. So the index
`floor(gray/255 · n)` becomes `Gray100 · n / 25500`, and `Math.round(v)`
becomes `floor(v + 1/2)` on a `real`.

The three weights add up to 0.99, not 1. As a result:

- A white pixel gets index `floor(0.99·n)`. That is the last character
  exactly when the ramp has at most 100 characters
  (`Mapper.WhiteIsLastIffShortRamp`).
- The `Math.min` clamp, which the code comments as guarding the gray-255
  case, never changes the index (`Mapper.ClampNeverFires`).

The model follows the code on both points.

## Model

| member | source | states |
|---|---|---|
| Dimensions.MaxWidthOrDefault | script.js:147 | The width is never 0. A parsed nonzero width, negative ones included, is kept. Any other result is the default 100, used only for NaN or 0. |
| Dimensions.CorrectionOrDefault | script.js:150 | The correction is never 0. A parsed nonzero correction is kept. Any other result is the default 0.6, used only for NaN or 0. |
| Dimensions.Round | script.js:155 | `Math.round`: the result is within one half of its argument, with halves rounded up. |
| Dimensions.CanvasSize | script.js:152-159 | Both sides are at least 1. The width is `maxWidth` when that is positive and 1 otherwise. The height is `max(1, round(maxWidth·imgHeight/imgWidth·correction))`, which is the source's `maxWidth / aspectRatio * correction`. |
| Dimensions.TargetHeight | script.js:155 | The exact row count `maxWidth·imgHeight/imgWidth·correction` that `Math.round` receives. It has no contract of its own; CanvasSize and HeightRoundsTarget state its role. |
| Dimensions.HeightRoundsTarget | script.js:155-159 | The canvas height is the exact target row count rounded to nearest once that target is at least 1/2. Below 1/2 it is 1. |
| Dimensions.NonPositiveWidthGivesUnitCanvas | script.js:154-159 | A width of zero or less, with a positive correction, gives the 1×1 canvas. |
| Dimensions.LandscapeExample | script.js:147-159 | A 200×100 image with width 80 and correction 0.6 gives an 80×24 canvas. |
| Dimensions.DefaultsExample | script.js:147-159 | When neither control parses, a square image gives a 100×60 canvas. |
| Mapper.Gray100 | script.js:192 | Luminance ×100 is at most 99·255, because the weights sum to 0.99. |
| Mapper.CharIndex | script.js:194-197 | The ramp index is always a valid index, less than the ramp length. |
| Mapper.CharIndexBucket | script.js:194-197 | The index `i` is the bucket with `i/n ≤ gray/255 < (i+1)/n`. The last bucket also takes everything above it. |
| Mapper.BlackIsFirst | script.js:192-197 | Black picks ramp index 0. |
| Mapper.WhiteIsLastIffShortRamp | script.js:192-197 | White picks the last character if and only if the ramp has at most 100 characters. |
| Mapper.ClampNeverFires | script.js:195-197 | `floor(gray/255·n)` is already at most `n − 1` for every pixel, so the `Math.min` is a no-op. |
| Mapper.CharIndexMonotone | script.js:192-197 | A brighter pixel never picks an earlier ramp character. |
| Mapper.Reverse | script.js:180 | `split('').reverse().join('')`. It has no contract of its own; ReverseAt, ReverseLength, ReverseReverse and ReversePermutes state its properties. |
| Mapper.ReverseAt | script.js:180 | Character `i` of the reversed charset is character `n−1−i` of the original, and the length is kept. |
| Mapper.ReverseLength | script.js:180 | Reversing keeps the charset's length. |
| Mapper.ReverseReverse | script.js:180 | Reversing twice gives back the charset. |
| Mapper.ReversePermutes | script.js:180 | The reversed charset has the same characters with the same multiplicities. |
| Mapper.Ramp | script.js:179-181 | The charset, reversed when invert is set. It has no contract of its own; RampLength and InvertedCell state its properties. |
| Mapper.RampLength | script.js:179-181 | The ramp actually indexed, inverted or not, is a permutation of the charset. |
| Mapper.PixelInBuffer | script.js:185-188 | The offset `(y·width + x)·4` plus each of its channels 0-3 lies inside the `4·width·height` buffer. |
| Mapper.PixelOffset | script.js:185 | The offset `(y·width + x)·4`. It has no contract of its own; PixelInBuffer states its bounds. |
| Mapper.PixelIndex | script.js:185-197 | The index a pixel picks is less than the ramp length. |
| Mapper.PixelIndexLocal | script.js:185-197 | Two buffers that agree on the red, green and blue bytes of pixel (x, y) give it the same index, whatever the rest of the buffers hold. |
| Mapper.Cell | script.js:185-199 | The ramp character at pixel (x, y)'s index. It has no contract of its own; LinesAt, PixelChar and RenderAt state its role. |
| Mapper.Lines | script.js:183-200 | There are `height` rows, each of `width` characters. |
| Mapper.LinesAt | script.js:183-199 | Row `y`, column `x` holds the character of pixel (x, y). |
| Mapper.LineStartIsProduct | script.js:183-201 | Row `y` of the text starts at offset `y·(width+1)`. |
| Mapper.LineStartMonotone | script.js:183-201 | Later rows start no earlier. |
| Mapper.Join | script.js:199-201 | The rows in order, each followed by a newline. It has no contract of its own; JoinLength, JoinAt and JoinAlphabet state its properties. |
| Mapper.JoinLength | script.js:199-201 | Rows of `width` characters, each with a newline appended, give `width+1` characters per row. |
| Mapper.JoinAt | script.js:199-201 | Columns `0..width−1` of row `y` of the text are row `y` itself, and column `width` is the newline. |
| Mapper.JoinAlphabet | script.js:199-201 | Every character of the joined text is a newline or comes from one of the rows. |
| Mapper.Render | script.js:176-202 | The whole text for a buffer, a charset and the invert flag. It has no contract of its own; RenderLength, RenderAt, RenderAlphabet, InvertIsReversedCharset and AlphaIgnored state its properties, and RenderAscii is proved to compute it. |
| Mapper.RenderLength | script.js:183-202 | The text is `height` lines of `width` characters plus a newline: `height·(width+1)` characters. |
| Mapper.RenderAt | script.js:183-202 | The character at line `y`, column `x` is the ramp character at pixel (x, y)'s index, which depends on that pixel's bytes alone (PixelIndexLocal). Column `width` is the newline. |
| Mapper.RenderAlphabet | script.js:179-202 | Every character of the text is a newline or a charset character. |
| Mapper.InvertedCell | script.js:179-199 | With invert set, the pixel that would pick `chars[i]` picks `chars[n−1−i]` instead. |
| Mapper.InvertIsReversedCharset | script.js:179-181 | Inverting is rendering with the reversed charset. Inverting a reversed charset gives the plain rendering back. |
| Mapper.AlphaIgnored | script.js:185-189 | Two buffers that differ only in alpha bytes give the same text. |
| Mapper.PixelChar | script.js:185-199 | The inner-loop body yields exactly the character `Cell` assigns to pixel (x, y). |
| Mapper.AppendLine | script.js:184-200 | The inner loop appends exactly row `y` of `Lines` to the text so far. |
| Mapper.RenderAscii | script.js:176-202 | The two loops, after the optional reversal, build exactly `Render`, which has `height·(width+1)` characters. |
| Generate.TargetSize | script.js:147-159 | The canvas size from the image and the controls: both sides are at least 1. The width is 100 when the control is NaN or 0, the parsed value when positive, and 1 when negative. The height is `max(1, round(w·imgHeight/imgWidth·correction))`, with `w` the unclamped width value (parsed or 100), using the parsed correction when it is nonzero and 0.6 when it is NaN or 0. |
| Generate.GenerateAscii | script.js:146-205 | It yields an error exactly when `getImageData` fails. Otherwise it yields the text `Render` gives for the buffer at `TargetSize`, which has `height·(width+1)` characters. |
| Generate.GeneratedLayout | script.js:176-204 | In the text shown, column `width` of each line is a newline and every other column holds a charset character. |

## Left out

- The page around the function is not part of this model: the DOM, the
  upload and drag-and-drop handlers, `FileReader`, image decoding, the
  copy-to-clipboard button, `showError`'s message text, and re-generation
  when a control changes. They are I/O.
- `context.drawImage` is not modelled. The browser's resampling of the
  image onto the canvas is outside the code. The pixel buffer it produces
  is an input of `GenerateAscii`, and a failing `getImageData` is the
  input `None`.
- String parsing by `parseInt`/`parseFloat` is left out. The controls enter
  as already-parsed `Option` values, with `None` for NaN. Infinite results
  are not modelled.
- IEEE-754 floating point is replaced by exact rationals. Because of that,
  `0.21·r + 0.71·g + 0.07·b` and the division by 255 can differ from the
  browser's doubles when a pixel falls exactly on a bucket boundary.
  `Math.round` of a huge value is not modelled either.
- GenerateAscii: requires a non-empty charset. With an empty one the code
  indexes `asciiChars[-1]` and appends the string `"undefined"` for every
  pixel. The model does not capture that.
- GenerateAscii: requires an image with positive width and height. With a
  zero side, the code's aspect ratio is 0, Infinity or NaN.
- GenerateAscii: requires a buffer of exactly `4·width·height` bytes, as
  `getImageData` returns for the canvas it sized.
- Writing the text into `asciiOutput.textContent` is modelled as the
  returned `Art` value.
- Characters are Dafny `char`s, so the model measures and indexes the ramp
  in code points. The source uses UTF-16 code units: `asciiChars.length`
  (script.js:195, 197) and `asciiChars[finalCharIndex]` (script.js:199). For
  a charset with characters outside the Basic Multilingual Plane (for
  example "a😀", where the source's n is 3), the two differ in several ways:
  - the ramp length;
  - the bucket boundaries;
  - the output characters, since the source can append a lone surrogate;
  - the reversal under invert, which splits surrogate pairs.
- GenerateAscii: assumes that the canvas keeps the size it was given. In
  the source, the loops run to `canvas.width` and `canvas.height`
  (script.js:183-184). Those are the values stored into the canvas's
  unsigned-long attributes at script.js:162-163. The model's `TargetSize`
  is an unbounded integer. A computed side above 2^31−1, or beyond the
  browser's canvas size limits, is not stored as computed (for example, a
  width control of 3000000000). The source then walks a different grid,
  which the model does not capture.
- The inner-loop body and the inner loop are separate methods
  (`PixelChar`, `AppendLine`) so that each can be proved on its own. The
  source has them inline in one function.
