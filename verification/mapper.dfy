/**
 * Luminance-to-character mapping of generateAscii (script.js, lines 176-202):
 * the RGBA buffer that the canvas returns is walked row by row, each pixel's
 * gray level picks a character of the ramp, and every row ends with a newline.
 *
 * The gray level `0.21·r + 0.71·g + 0.07·b` is kept exactly as the integer
 * `Gray100 = 100·gray`, so `floor(gray / 255 · n)` is `Gray100 · n / 25500`.
 */
module Mapper {

  /** One channel of the canvas pixel buffer (an element of a Uint8ClampedArray). */
  newtype byte = x: int | 0 <= x < 256

  /** Bytes per pixel in the buffer: red, green, blue, alpha. */
  const Channels: nat := 4

  /** Luminance of a pixel, scaled by 100. The weights add up to 0.99, so white is 99·255. */
  function Gray100(r: byte, g: byte, b: byte): (l: nat)
    ensures l <= 99 * 255
  {
    21 * (r as int) + 71 * (g as int) + 7 * (b as int)
  }

  /** Ramp index for a gray level: `min(floor(gray / 255 · n), n - 1)`. */
  function CharIndex(gray100: nat, n: nat): (i: nat)
    requires n > 0
    ensures i < n
  {
    var charIndex := gray100 * n / 25500;
    if charIndex <= n - 1 then charIndex else n - 1
  }

  /**
   * The index is the bucket `i` with `i/n <= gray/255 < (i+1)/n`, the last
   * bucket also taking everything above it.
   */
  lemma CharIndexBucket(gray100: nat, n: nat)
    requires n > 0
    ensures var i := CharIndex(gray100, n);
            i * 25500 <= gray100 * n &&
            (gray100 * n < (i + 1) * 25500 || i == n - 1)
  {
  }

  /** The characters of `s` in the opposite order (`split('').reverse().join('')`). */
  function Reverse(s: string): string
  {
    if s == [] then [] else [s[|s| - 1]] + Reverse(s[..|s| - 1])
  }

  lemma {:induction false} ReverseAt(s: string, i: nat)
    requires i < |s|
    ensures |Reverse(s)| == |s|
    ensures Reverse(s)[i] == s[|s| - 1 - i]
  {
    ReverseLength(s);
    if i > 0 {
      ReverseAt(s[..|s| - 1], i - 1);
    }
  }

  lemma {:induction false} ReverseLength(s: string)
    ensures |Reverse(s)| == |s|
  {
    if s != [] {
      ReverseLength(s[..|s| - 1]);
    }
  }

  /** Reversing twice gives back the original charset. */
  lemma ReverseReverse(s: string)
    ensures Reverse(Reverse(s)) == s
  {
    ReverseLength(s);
    ReverseLength(Reverse(s));
    forall i | 0 <= i < |s|
      ensures Reverse(Reverse(s))[i] == s[i]
    {
      ReverseAt(Reverse(s), i);
      ReverseAt(s, |s| - 1 - i);
    }
  }

  /** Reversing keeps every character and its number of occurrences. */
  lemma {:induction false} ReversePermutes(s: string)
    ensures multiset(Reverse(s)) == multiset(s)
  {
    if s != [] {
      ReversePermutes(s[..|s| - 1]);
      assert s == s[..|s| - 1] + [s[|s| - 1]];
    }
  }

  /** The ramp actually indexed: the charset, reversed when `invert` is set. */
  function Ramp(chars: string, invert: bool): string
  {
    if invert then Reverse(chars) else chars
  }

  lemma RampLength(chars: string, invert: bool)
    ensures |Ramp(chars, invert)| == |chars|
    ensures multiset(Ramp(chars, invert)) == multiset(chars)
  {
    ReverseLength(chars);
    ReversePermutes(chars);
  }

  /** The buffer offset of channel 0 of pixel (x, y) in a row-major buffer `width` pixels wide. */
  function PixelOffset(width: nat, x: nat, y: nat): nat
  {
    (y * width + x) * Channels
  }

  /** Every channel of every pixel of a `width`×`height` image lies inside its `4·width·height` buffer. */
  lemma PixelInBuffer(width: nat, height: nat, x: nat, y: nat)
    requires x < width && y < height
    ensures PixelOffset(width, x, y) + 3 < Channels * width * height
  {
    assert y * width + x < (y + 1) * width;
    assert (y + 1) * width <= height * width by {
      MultiplyMonotone(y + 1, height, width);
    }
  }

  lemma MultiplyMonotone(a: nat, b: nat, c: nat)
    requires a <= b
    ensures a * c <= b * c
  {
  }

  /** Whether `data` holds exactly the RGBA bytes of a `width`×`height` image. */
  predicate IsImageData(data: seq<byte>, width: nat, height: nat)
  {
    |data| == Channels * width * height
  }

  /** The ramp index that pixel (x, y) of the buffer selects, for a ramp of `n` characters. */
  function PixelIndex(data: seq<byte>, width: nat, height: nat, n: nat, x: nat, y: nat): (i: nat)
    requires IsImageData(data, width, height) && n > 0
    requires x < width && y < height
    ensures i < n
  {
    PixelInBuffer(width, height, x, y);
    var index := PixelOffset(width, x, y);
    CharIndex(Gray100(data[index], data[index + 1], data[index + 2]), n)
  }

  /**
   * Locality: the index pixel (x, y) picks depends only on its own red, green
   * and blue bytes, whatever the rest of the two buffers hold.
   */
  lemma PixelIndexLocal(data1: seq<byte>, data2: seq<byte>, width: nat, height: nat, n: nat, x: nat, y: nat)
    requires IsImageData(data1, width, height) && IsImageData(data2, width, height) && n > 0
    requires x < width && y < height
    requires PixelOffset(width, x, y) + 2 < |data1|
    requires var o := PixelOffset(width, x, y);
      data1[o] == data2[o] && data1[o + 1] == data2[o + 1] && data1[o + 2] == data2[o + 2]
    ensures PixelIndex(data1, width, height, n, x, y) == PixelIndex(data2, width, height, n, x, y)
  {
  }

  /** The character that pixel (x, y) of the buffer is mapped to. */
  function Cell(data: seq<byte>, width: nat, height: nat, ramp: string, x: nat, y: nat): char
    requires IsImageData(data, width, height) && |ramp| > 0
    requires x < width && y < height
  {
    ramp[PixelIndex(data, width, height, |ramp|, x, y)]
  }

  /** The rows of the picture: line `y`, column `x` is the character of pixel (x, y). */
  function Lines(data: seq<byte>, width: nat, height: nat, ramp: string): (lines: seq<string>)
    requires IsImageData(data, width, height) && |ramp| > 0
    ensures |lines| == height
    ensures AllWidth(lines, width)
  {
    seq(height, y requires 0 <= y < height =>
      seq(width, x requires 0 <= x < width => Cell(data, width, height, ramp, x, y)))
  }

  lemma LinesAt(data: seq<byte>, width: nat, height: nat, ramp: string, x: nat, y: nat)
    requires IsImageData(data, width, height) && |ramp| > 0
    requires x < width && y < height
    ensures |Lines(data, width, height, ramp)| == height
    ensures |Lines(data, width, height, ramp)[y]| == width
    ensures Lines(data, width, height, ramp)[y][x] == Cell(data, width, height, ramp, x, y)
  {
  }

  /** The lines in order, each followed by a newline. */
  function Join(lines: seq<string>): string
  {
    if lines == [] then "" else Join(lines[..|lines| - 1]) + lines[|lines| - 1] + "\n"
  }

  /** The whole text that generateAscii shows for a buffer and the charset/invert controls. */
  function Render(data: seq<byte>, width: nat, height: nat, chars: string, invert: bool): string
    requires IsImageData(data, width, height) && |chars| > 0
  {
    RampLength(chars, invert);
    Join(Lines(data, width, height, Ramp(chars, invert)))
  }

  // ---------------------------------------------------------------- buckets

  /** A black pixel picks the first ramp character. */
  lemma BlackIsFirst(n: nat)
    requires n > 0
    ensures CharIndex(Gray100(0, 0, 0), n) == 0
  {
    assert CharIndex(0, n) == 0;
  }

  /**
   * Because the weights add up to 0.99, white reaches the last ramp character
   * exactly when the ramp has at most 100 characters.
   */
  lemma WhiteIsLastIffShortRamp(n: nat)
    requires n > 0
    ensures CharIndex(Gray100(255, 255, 255), n) == n - 1 <==> n <= 100
  {
    var i := CharIndex(Gray100(255, 255, 255), n);
    assert Gray100(255, 255, 255) * n == 25245 * n;
    if n <= 100 {
      assert (n - 1) * 25500 <= 25245 * n;
    } else {
      assert i * 25500 <= 25245 * n < (n - 1) * 25500;
    }
  }

  /** The `Math.min` with `n - 1` never changes the index of an in-range pixel. */
  lemma ClampNeverFires(r: byte, g: byte, b: byte, n: nat)
    requires n > 0
    ensures Gray100(r, g, b) * n / 25500 <= n - 1
  {
    var l := Gray100(r, g, b);
    assert l * n <= 25245 * n by {
      MultiplyMonotone(l, 25245, n);
    }
    assert l * n < 25500 * n;
  }

  /** A brighter pixel never picks an earlier ramp character. */
  lemma CharIndexMonotone(gray1: nat, gray2: nat, n: nat)
    requires n > 0 && gray1 <= gray2
    ensures CharIndex(gray1, n) <= CharIndex(gray2, n)
  {
    MultiplyMonotone(gray1, gray2, n);
  }

  // ---------------------------------------------------------------- layout

  /**
   * Where line `y` starts in the text: after `y` lines of `width` characters
   * and a newline each. Kept recursive so that proofs about positions stay linear.
   */
  function LineStart(width: nat, y: nat): nat
  {
    if y == 0 then 0 else LineStart(width, y - 1) + width + 1
  }

  lemma {:induction false} LineStartIsProduct(width: nat, y: nat)
    ensures LineStart(width, y) == y * (width + 1)
  {
    if y > 0 {
      LineStartIsProduct(width, y - 1);
      assert y * (width + 1) == (y - 1) * (width + 1) + width + 1;
    }
  }

  lemma {:induction false} LineStartMonotone(width: nat, y1: nat, y2: nat)
    requires y1 <= y2
    ensures LineStart(width, y1) <= LineStart(width, y2)
  {
    if y1 < y2 {
      LineStartMonotone(width, y1, y2 - 1);
    }
  }

  /** Whether every line has `width` characters. */
  predicate AllWidth(lines: seq<string>, width: nat)
  {
    forall y | 0 <= y < |lines| :: |lines[y]| == width
  }

  /** Joining lines of `width` characters gives `width + 1` characters per line. */
  lemma {:induction false} JoinLength(lines: seq<string>, width: nat)
    requires AllWidth(lines, width)
    ensures |Join(lines)| == LineStart(width, |lines|)
  {
    if lines != [] {
      JoinLength(lines[..|lines| - 1], width);
    }
  }

  /**
   * Line `y` of the joined text holds line `y` at columns `0 .. width - 1` and a
   * newline at column `width`.
   */
  lemma {:induction false} JoinAt(lines: seq<string>, width: nat, x: nat, y: nat)
    requires AllWidth(lines, width)
    requires y < |lines| && x <= width
    ensures |Join(lines)| == LineStart(width, |lines|)
    ensures LineStart(width, y) + x < |Join(lines)|
    ensures Join(lines)[LineStart(width, y) + x] == if x < width then lines[y][x] else '\n'
  {
    JoinLength(lines, width);
    var h := |lines|;
    var before := Join(lines[..h - 1]);
    JoinLength(lines[..h - 1], width);
    LineStartMonotone(width, y + 1, h);
    if y < h - 1 {
      JoinAt(lines[..h - 1], width, x, y);
      LineStartMonotone(width, y + 1, h - 1);
    }
  }

  /** Every character of the joined text is a newline or a character of some line. */
  lemma {:induction false} JoinAlphabet(lines: seq<string>, alphabet: set<char>)
    requires forall y, x | 0 <= y < |lines| && 0 <= x < |lines[y]| :: lines[y][x] in alphabet
    ensures forall i | 0 <= i < |Join(lines)| :: Join(lines)[i] == '\n' || Join(lines)[i] in alphabet
  {
    if lines != [] {
      var h := |lines|;
      JoinAlphabet(lines[..h - 1], alphabet);
      var before, last := Join(lines[..h - 1]), lines[h - 1];
      assert Join(lines) == before + last + "\n";
      forall i | 0 <= i < |Join(lines)|
        ensures Join(lines)[i] == '\n' || Join(lines)[i] in alphabet
      {
        if i < |before| {
        } else if i < |before| + |last| {
          assert Join(lines)[i] == last[i - |before|];
        }
      }
    }
  }

  /** The text is `height` lines of `width` characters plus a newline, `height·(width+1)` characters in all. */
  lemma RenderLength(data: seq<byte>, width: nat, height: nat, chars: string, invert: bool)
    requires IsImageData(data, width, height) && |chars| > 0
    ensures |Render(data, width, height, chars, invert)| == height * (width + 1)
  {
    RampLength(chars, invert);
    JoinLength(Lines(data, width, height, Ramp(chars, invert)), width);
    LineStartIsProduct(width, height);
  }

  /**
   * Row-major order: the character at line `y`, column `x` is the ramp character
   * chosen by pixel (x, y) alone, and column `width` of each line is the newline.
   */
  lemma RenderAt(data: seq<byte>, width: nat, height: nat, chars: string, invert: bool, x: nat, y: nat)
    requires IsImageData(data, width, height) && |chars| > 0
    requires x <= width && y < height
    ensures |Render(data, width, height, chars, invert)| == height * (width + 1)
    ensures y * (width + 1) + x < height * (width + 1)
    ensures |Ramp(chars, invert)| == |chars|
    ensures Render(data, width, height, chars, invert)[y * (width + 1) + x] ==
            if x < width then Ramp(chars, invert)[PixelIndex(data, width, height, |chars|, x, y)] else '\n'
  {
    RampLength(chars, invert);
    JoinAt(Lines(data, width, height, Ramp(chars, invert)), width, x, y);
    LineStartIsProduct(width, height);
    LineStartIsProduct(width, y);
  }

  /** Every character of the text is a newline or a character of the charset. */
  lemma RenderAlphabet(data: seq<byte>, width: nat, height: nat, chars: string, invert: bool)
    requires IsImageData(data, width, height) && |chars| > 0
    ensures forall i | 0 <= i < |Render(data, width, height, chars, invert)| ::
              Render(data, width, height, chars, invert)[i] == '\n' ||
              Render(data, width, height, chars, invert)[i] in chars
  {
    var ramp := Ramp(chars, invert);
    RampLength(chars, invert);
    forall c | c in ramp
      ensures c in chars
    {
      assert c in multiset(ramp);
    }
    JoinAlphabet(Lines(data, width, height, ramp), set c | c in chars);
  }

  // ---------------------------------------------------------------- inversion

  /** Inverting maps pixel (x, y) to the mirrored position of the charset. */
  lemma InvertedCell(data: seq<byte>, width: nat, height: nat, chars: string, x: nat, y: nat)
    requires IsImageData(data, width, height) && |chars| > 0
    requires x < width && y < height
    ensures |Render(data, width, height, chars, true)| == height * (width + 1)
    ensures |Render(data, width, height, chars, false)| == height * (width + 1)
    ensures y * (width + 1) + x < height * (width + 1)
    ensures var i := PixelIndex(data, width, height, |chars|, x, y);
            Render(data, width, height, chars, true)[y * (width + 1) + x] == chars[|chars| - 1 - i] &&
            Render(data, width, height, chars, false)[y * (width + 1) + x] == chars[i]
  {
    RenderAt(data, width, height, chars, true, x, y);
    RenderAt(data, width, height, chars, false, x, y);
    ReverseAt(chars, PixelIndex(data, width, height, |chars|, x, y));
  }

  /** Inverting is the same as rendering with the reversed charset, and inverting a reversed charset undoes it. */
  lemma InvertIsReversedCharset(data: seq<byte>, width: nat, height: nat, chars: string)
    requires IsImageData(data, width, height) && |chars| > 0
    ensures |Reverse(chars)| == |chars|
    ensures Render(data, width, height, chars, true) == Render(data, width, height, Reverse(chars), false)
    ensures Render(data, width, height, Reverse(chars), true) == Render(data, width, height, chars, false)
  {
    ReverseLength(chars);
    ReverseReverse(chars);
  }

  // ---------------------------------------------------------------- alpha

  /** Whether two buffers agree on every red, green and blue byte (alpha bytes may differ). */
  predicate SameColours(data1: seq<byte>, data2: seq<byte>)
  {
    |data1| == |data2| &&
    forall i | 0 <= i < |data1| && i % 4 != 3 :: data1[i] == data2[i]
  }

  /** The alpha byte of a pixel never affects the text. */
  lemma AlphaIgnored(data1: seq<byte>, data2: seq<byte>, width: nat, height: nat, chars: string, invert: bool)
    requires IsImageData(data1, width, height) && |chars| > 0
    requires SameColours(data1, data2)
    ensures IsImageData(data2, width, height)
    ensures Render(data1, width, height, chars, invert) == Render(data2, width, height, chars, invert)
  {
    var ramp := Ramp(chars, invert);
    RampLength(chars, invert);
    var lines1, lines2 := Lines(data1, width, height, ramp), Lines(data2, width, height, ramp);
    forall y | 0 <= y < height
      ensures lines1[y] == lines2[y]
    {
      forall x | 0 <= x < width
        ensures lines1[y][x] == lines2[y][x]
      {
        PixelInBuffer(width, height, x, y);
        var index := PixelOffset(width, x, y);
        assert index % 4 == 0;
        assert data1[index] == data2[index];
        assert data1[index + 1] == data2[index + 1];
        assert data1[index + 2] == data2[index + 2];
      }
    }
    assert lines1 == lines2;
  }

  // ---------------------------------------------------------------- the loop

  /**
   * The body of the inner loop: read the red, green and blue bytes of pixel
   * (x, y), compute its gray level and pick the ramp character.
   */
  method PixelChar(data: seq<byte>, width: nat, height: nat, asciiChars: string, x: nat, y: nat) returns (c: char)
    requires IsImageData(data, width, height) && |asciiChars| > 0
    requires x < width && y < height
    ensures c == Cell(data, width, height, asciiChars, x, y)
  {
    PixelInBuffer(width, height, x, y);
    var index := (y * width + x) * 4;
    var r, g, b := data[index], data[index + 1], data[index + 2];
    var gray100 := 21 * (r as int) + 71 * (g as int) + 7 * (b as int);
    var charIndex := gray100 * |asciiChars| / 25500;
    var finalCharIndex := if charIndex <= |asciiChars| - 1 then charIndex else |asciiChars| - 1;
    c := asciiChars[finalCharIndex];
  }

  /**
   * The inner loop of generateAscii for line `y`: append the character of each
   * pixel of the line, left to right, to the text built so far.
   */
  method AppendLine(data: seq<byte>, width: nat, height: nat, asciiChars: string, y: nat, text: string)
    returns (asciiArt: string)
    requires IsImageData(data, width, height) && |asciiChars| > 0
    requires y < height
    ensures asciiArt == text + Lines(data, width, height, asciiChars)[y]
  {
    ghost var line := Lines(data, width, height, asciiChars)[y];
    asciiArt := text;
    var x := 0;
    while x < width
      invariant x <= width == |line|
      invariant asciiArt == text + line[..x]
    {
      var c := PixelChar(data, width, height, asciiChars, x, y);
      LinesAt(data, width, height, asciiChars, x, y);
      assert line[..x + 1] == line[..x] + [c];
      asciiArt := asciiArt + [c];
      x := x + 1;
    }
    assert line[..x] == line;
  }

  /**
   * generateAscii from the pixel buffer on: reverse the charset when inverting,
   * then, line by line from the top, append every pixel's ramp character and a
   * newline.
   */
  method RenderAscii(data: seq<byte>, width: nat, height: nat, chars: string, invert: bool) returns (asciiArt: string)
    requires IsImageData(data, width, height) && |chars| > 0
    ensures asciiArt == Render(data, width, height, chars, invert)
    ensures |asciiArt| == height * (width + 1)
  {
    var asciiChars := chars;
    if invert {
      asciiChars := Reverse(chars);
    }
    RampLength(chars, invert);
    ghost var lines := Lines(data, width, height, asciiChars);
    asciiArt := "";
    var y := 0;
    while y < height
      invariant y <= height
      invariant asciiArt == Join(lines[..y])
    {
      asciiArt := AppendLine(data, width, height, asciiChars, y, asciiArt);
      assert lines[..y + 1][..y] == lines[..y];
      asciiArt := asciiArt + "\n";
      y := y + 1;
    }
    assert lines[..y] == lines;
    RenderLength(data, width, height, chars, invert);
  }
}
