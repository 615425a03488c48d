/**
 * Grid and canvas dimensions in asciiart.js: the number of character rows
 * derived from the image's aspect ratio, halved because a monospace glyph is
 * about twice as tall as it is wide, and the canvas size of 10 by 18 pixels
 * per character cell.
 */
module Grid {

  /** Width and height of one character cell on the canvas, in pixels. */
  const CharWidth: int := 10
  const CharHeight: int := 18

  /**
   * newHeight = floor((height * cols / width) * 0.5). The factor 0.5 is an
   * exact binary scale, so this is the integer quotient of height * cols by
   * 2 * width: the largest row count not above the real-valued ratio.
   */
  function NewHeight(width: int, height: nat, cols: nat): (rows: nat)
    requires width > 0
    ensures rows * (2 * width) <= height * cols < (rows + 1) * (2 * width)
    ensures rows as real <= (height * cols) as real / width as real * 0.5 < rows as real + 1.0
  {
    var q := (height * cols) / (2 * width);
    FloorOfHalfRatio(width, height * cols, q);
    q
  }

  lemma FloorOfHalfRatio(width: int, n: nat, q: int)
    requires width > 0
    requires q == n / (2 * width)
    ensures q >= 0
    ensures q * (2 * width) <= n < (q + 1) * (2 * width)
    ensures q as real <= n as real / width as real * 0.5 < q as real + 1.0
  {
    var d := 2 * width;
    assert n == d * q + n % d;
    assert (q + 1) * d == q * d + d;
    RealQuotientBounds(q as real, n as real, width as real);
  }

  /** In the reals: q * 2w <= n < (q + 1) * 2w says q <= n / w * 0.5 < q + 1. */
  lemma RealQuotientBounds(q: real, n: real, w: real)
    requires w > 0.0
    requires q * (2.0 * w) <= n < (q + 1.0) * (2.0 * w)
    ensures q <= n / w * 0.5 < q + 1.0
  {
    var x := n / w * 0.5;
    assert x * (2.0 * w) == n;
    var c := 2.0 * w;
    CancelFactor(q, x, c, n);
    CancelFactorStrict(x, q + 1.0, c, n);
  }

  lemma CancelFactor(a: real, b: real, c: real, n: real)
    requires c > 0.0 && a * c <= n && b * c == n
    ensures a <= b
  {
  }

  lemma CancelFactorStrict(a: real, b: real, c: real, n: real)
    requires c > 0.0 && a * c == n && n < b * c
    ensures a < b
  {
  }

  /** The canvas is cols * CharWidth pixels wide and rows * CharHeight pixels high. */
  function CanvasWidth(cols: nat): (w: nat)
    ensures w % CharWidth == 0 && w / CharWidth == cols
  {
    cols * CharWidth
  }

  function CanvasHeight(rows: nat): (h: nat)
    ensures h % CharHeight == 0 && h / CharHeight == rows
  {
    rows * CharHeight
  }

  /** The worked example: a 1000 x 500 image at 200 columns gives 50 rows, on a 2000 x 900 canvas. */
  lemma Example1000x500()
    ensures NewHeight(1000, 500, 200) == 50
    ensures CanvasWidth(200) == 2000 && CanvasHeight(NewHeight(1000, 500, 200)) == 900
  {
    var rows := NewHeight(1000, 500, 200);
    assert rows * 2000 <= 100000 < (rows + 1) * 2000;
  }
}
