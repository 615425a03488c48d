/**
 * The luminance-to-character mapping of asciiart.js: BT.709 luma of an
 * 8-bit RGB pixel, scaled onto a ten-character ramp ordered dark to light.
 * The weights 0.2126, 0.7152 and 0.0722 are kept exact by scaling them by
 * 10000, so the luma of a pixel is an integer in [0, 2550000] and
 * 2550000 is the luma of white.
 */
module Luma {

  /** An 8-bit colour channel. */
  type Byte = n: int | 0 <= n < 256

  /** The density ramp ASCII_CHARS: index 0 darkest, index 9 lightest. */
  const Ramp: string := "@%#*+=-:. "

  /** The gray value of asciiart.js, multiplied by 10000. */
  function ScaledLuma(r: Byte, g: Byte, b: Byte): (l: int)
    ensures 0 <= l <= 2550000
  {
    2126 * r + 7152 * g + 722 * b
  }

  /**
   * floor((gray / 255) * (ASCII_CHARS.length - 1)) with ASCII_CHARS.length - 1 = 9:
   * the bucket i with i <= 9 * gray / 255 < i + 1.
   */
  function RampIndex(r: Byte, g: Byte, b: Byte): (i: int)
    ensures 0 <= i < |Ramp| == 10
    ensures i * 2550000 <= 9 * ScaledLuma(r, g, b) < (i + 1) * 2550000
  {
    (9 * ScaledLuma(r, g, b)) / 2550000
  }

  /** pixelToChar: the ramp character of a pixel; the lookup never leaves the ramp. */
  function PixelToChar(r: Byte, g: Byte, b: Byte): (c: char)
    ensures c in Ramp
    ensures c == Ramp[RampIndex(r, g, b)]
  {
    Ramp[RampIndex(r, g, b)]
  }

  /** Every pixel darker than the first bucket boundary is drawn with '@'. */
  lemma DimIsDarkest(r: Byte, g: Byte, b: Byte)
    requires 9 * ScaledLuma(r, g, b) < 2550000
    ensures PixelToChar(r, g, b) == '@'
  {
    assert RampIndex(r, g, b) == 0;
  }

  /**
   * In exact arithmetic a pixel is drawn with ' ', the last ramp character,
   * exactly when its luma is full; ' ' occurs nowhere else in the ramp.
   */
  lemma BrightIsLightest(r: Byte, g: Byte, b: Byte)
    ensures PixelToChar(r, g, b) == ' ' <==> ScaledLuma(r, g, b) == 2550000
  {
    var i := RampIndex(r, g, b);
    assert forall k :: 0 <= k < 9 ==> Ramp[k] != ' ';
    if ScaledLuma(r, g, b) == 2550000 {
      assert i == 9;
    } else {
      assert 9 * ScaledLuma(r, g, b) < 9 * 2550000;
      assert i < 9;
    }
  }

  /** Black maps to the darkest character. */
  lemma BlackIsDarkest()
    ensures PixelToChar(0, 0, 0) == '@'
  {
    DimIsDarkest(0, 0, 0);
  }

  /** In exact arithmetic white maps to the lightest character. */
  lemma WhiteIsLightest()
    ensures PixelToChar(255, 255, 255) == ' '
  {
    BrightIsLightest(255, 255, 255);
  }

  /** A brighter gray never gives a darker (smaller) ramp index. */
  lemma IndexMonotoneInLuma(r: Byte, g: Byte, b: Byte, r': Byte, g': Byte, b': Byte)
    requires ScaledLuma(r, g, b) <= ScaledLuma(r', g', b')
    ensures RampIndex(r, g, b) <= RampIndex(r', g', b')
  {
    var i, j := RampIndex(r, g, b), RampIndex(r', g', b');
    assert i * 2550000 < (j + 1) * 2550000;
  }

  /** Raising any channel never moves the pixel toward a darker character. */
  lemma IndexMonotone(r: Byte, g: Byte, b: Byte, r': Byte, g': Byte, b': Byte)
    requires r <= r' && g <= g' && b <= b'
    ensures RampIndex(r, g, b) <= RampIndex(r', g', b')
  {
    IndexMonotoneInLuma(r, g, b, r', g', b');
  }
}
