/**
 * The drawing half of asciiart.js: a canvas of cols * 10 by rows * 18
 * pixels, painted white, then one glyph per grid cell at (x * 10, y * 18),
 * filled black or, with --color, in the pixel's own colour. Rasterisation
 * belongs to the canvas library, so the 2D context here records the drawing
 * calls it receives, with the fill style current at each call.
 */
module Drawing {
  import opened Luma
  import opened Pixels
  import opened Grid
  import opened TextGrid

  /** A fill style: the keywords 'white' and 'black', or `rgb(r,g,b)`. */
  datatype Fill = White | Black | RgbFill(r: Byte, g: Byte, b: Byte)

  /** One call made on the 2D context. */
  datatype DrawOp =
    | FillRect(left: int, top: int, width: int, height: int, fill: Fill)
    | FillText(ch: char, px: int, py: int, fill: Fill)

  /** A 2D drawing context that records the calls made on it. */
  class Context {
    const width: nat
    const height: nat
    var fillStyle: Fill
    var ops: seq<DrawOp>

    /** createCanvas(width, height).getContext('2d'): nothing drawn, default fill black. */
    constructor (width: nat, height: nat)
      ensures this.width == width && this.height == height
      ensures fillStyle == Black && ops == []
    {
      this.width := width;
      this.height := height;
      fillStyle := Black;
      ops := [];
    }

    /** ctx.fillRect: fills a rectangle with the current fill style. */
    method FillRectangle(left: int, top: int, w: int, h: int)
      modifies this
      ensures ops == old(ops) + [FillRect(left, top, w, h, fillStyle)]
      ensures fillStyle == old(fillStyle)
    {
      ops := ops + [FillRect(left, top, w, h, fillStyle)];
    }

    /** ctx.fillText: draws one glyph with its top-left corner at (px, py) in the current fill style. */
    method DrawText(ch: char, px: int, py: int)
      modifies this
      ensures ops == old(ops) + [FillText(ch, px, py, fillStyle)]
      ensures fillStyle == old(fillStyle)
    {
      ops := ops + [FillText(ch, px, py, fillStyle)];
    }
  }

  /** The fill of cell (x, y): the pixel's RGB with --color, black without. */
  function CellFill(img: Image, x: int, y: int, color: bool): (f: Fill)
    ensures f != White
    ensures f == Black <==> !color
    ensures f.RgbFill? ==> f.r == img(x, y).r && f.g == img(x, y).g && f.b == img(x, y).b
  {
    if color then
      var p := img(x, y);
      RgbFill(p.r, p.g, p.b)
    else Black
  }

  /** The glyph drawn for cell (x, y). */
  function CellOp(img: Image, x: int, y: int, color: bool): DrawOp
  {
    FillText(CellChar(img, x, y), x * CharWidth, y * CharHeight, CellFill(img, x, y, color))
  }

  /** ctx.fillStyle = 'white'; ctx.fillRect(0, 0, canvas.width, canvas.height). */
  function Background(cols: nat, rows: nat): (op: DrawOp)
    ensures op.FillRect? && op.fill == White && op.left == 0 && op.top == 0
    ensures op.width % CharWidth == 0 && op.width / CharWidth == cols
    ensures op.height % CharHeight == 0 && op.height / CharHeight == rows
  {
    FillRect(0, 0, CanvasWidth(cols), CanvasHeight(rows), White)
  }

  /**
   * The calls made on the context once the background is painted and every
   * row above y and the first x cells of row y have been drawn.
   */
  function DrawnThrough(img: Image, cols: nat, rows: nat, color: bool, y: nat, x: nat): seq<DrawOp>
    requires x <= cols
    decreases y, x
  {
    if x > 0 then DrawnThrough(img, cols, rows, color, y, x - 1) + [CellOp(img, x - 1, y, color)]
    else if y > 0 then DrawnThrough(img, cols, rows, color, y - 1, cols)
    else [Background(cols, rows)]
  }

  /** Every call the script makes on the context, in order. */
  function DrawCalls(img: Image, cols: nat, rows: nat, color: bool): seq<DrawOp>
  {
    DrawnThrough(img, cols, rows, color, rows, 0)
  }

  /** The position in the call sequence of the glyph of cell (x, y): after the background, row-major. */
  function GlyphIndex(cols: nat, x: int, y: int): int
  {
    1 + y * cols + x
  }

  lemma {:induction false} DrawnThroughLength(img: Image, cols: nat, rows: nat, color: bool, y: nat, x: nat)
    requires x <= cols
    ensures |DrawnThrough(img, cols, rows, color, y, x)| == GlyphIndex(cols, x, y)
    decreases y, x
  {
    if x > 0 {
      DrawnThroughLength(img, cols, rows, color, y, x - 1);
    } else if y > 0 {
      DrawnThroughLength(img, cols, rows, color, y - 1, cols);
      assert GlyphIndex(cols, cols, y - 1) == GlyphIndex(cols, 0, y);
    }
  }

  lemma {:induction false} DrawnThroughPrefix(img: Image, cols: nat, rows: nat, color: bool, y': nat, x': nat, y: nat, x: nat)
    requires x' <= cols && x <= cols
    requires NotAfter(y', x', y, x)
    ensures DrawnThrough(img, cols, rows, color, y', x') <= DrawnThrough(img, cols, rows, color, y, x)
    decreases y, x
  {
    if y' == y && x' == x {
    } else if x > 0 {
      DrawnThroughPrefix(img, cols, rows, color, y', x', y, x - 1);
      PrefixOfExtension(DrawnThrough(img, cols, rows, color, y', x'), DrawnThrough(img, cols, rows, color, y, x - 1),
                        [CellOp(img, x - 1, y, color)]);
    } else {
      DrawnThroughPrefix(img, cols, rows, color, y', x', y - 1, cols);
    }
  }

  /** The first call paints the whole canvas white. */
  lemma BackgroundFirst(img: Image, cols: nat, rows: nat, color: bool)
    ensures |DrawCalls(img, cols, rows, color)| > 0
    ensures DrawCalls(img, cols, rows, color)[0] == FillRect(0, 0, cols * CharWidth, rows * CharHeight, White)
  {
    DrawnThroughPrefix(img, cols, rows, color, 0, 0, rows, 0);
  }

  /** The call after the background and the glyphs of the cells before (x, y) is the glyph of (x, y). */
  lemma GlyphAt(img: Image, cols: nat, rows: nat, color: bool, x: nat, y: nat)
    requires x < cols && y < rows
    ensures GlyphIndex(cols, x, y) < |DrawCalls(img, cols, rows, color)|
    ensures DrawCalls(img, cols, rows, color)[GlyphIndex(cols, x, y)] == CellOp(img, x, y, color)
  {
    DrawnThroughLength(img, cols, rows, color, y, x);
    DrawnThroughLength(img, cols, rows, color, rows, 0);
    DrawnThroughPrefix(img, cols, rows, color, y, x + 1, rows, 0);
    assert DrawnThrough(img, cols, rows, color, y, x + 1)[GlyphIndex(cols, x, y)] == CellOp(img, x, y, color);
  }

  /**
   * The draw loop's layout: the background, then cols * rows glyphs in
   * row-major order; the glyph of cell (x, y) draws pixelToChar of pixel
   * (x, y) with its top-left corner at (x * 10, y * 18), filled black
   * without --color and with the pixel's RGB with it.
   */
  lemma DrawingLayout(img: Image, cols: nat, rows: nat, color: bool)
    ensures |DrawCalls(img, cols, rows, color)| == 1 + cols * rows
    ensures forall x: nat, y: nat :: x < cols && y < rows ==>
              GlyphIndex(cols, x, y) < |DrawCalls(img, cols, rows, color)| &&
              DrawCalls(img, cols, rows, color)[GlyphIndex(cols, x, y)] ==
                FillText(CellChar(img, x, y), x * CharWidth, y * CharHeight,
                         if color then RgbFill(img(x, y).r, img(x, y).g, img(x, y).b) else Black)
  {
    DrawnThroughLength(img, cols, rows, color, rows, 0);
    forall x: nat, y: nat | x < cols && y < rows
      ensures GlyphIndex(cols, x, y) < |DrawCalls(img, cols, rows, color)|
      ensures DrawCalls(img, cols, rows, color)[GlyphIndex(cols, x, y)] == CellOp(img, x, y, color)
    {
      GlyphAt(img, cols, rows, color, x, y);
    }
  }

  /** A glyph whose 10 x 18 cell lies inside a canvas of cols x rows cells. */
  predicate GlyphInside(op: DrawOp, cols: nat, rows: nat) {
    op.FillText? && 0 <= op.px && op.px + CharWidth <= CanvasWidth(cols)
    && 0 <= op.py && op.py + CharHeight <= CanvasHeight(rows)
  }

  lemma {:induction false} DrawnThroughInside(img: Image, cols: nat, rows: nat, color: bool, y: nat, x: nat)
    requires x <= cols
    requires y < rows || (y == rows && x == 0)
    ensures forall i :: 1 <= i < |DrawnThrough(img, cols, rows, color, y, x)| ==>
              GlyphInside(DrawnThrough(img, cols, rows, color, y, x)[i], cols, rows)
    decreases y, x
  {
    if x > 0 {
      DrawnThroughInside(img, cols, rows, color, y, x - 1);
      MulMonotone(x, cols, CharWidth);
      MulMonotone(y + 1, rows, CharHeight);
    } else if y > 0 {
      DrawnThroughInside(img, cols, rows, color, y - 1, cols);
    }
  }

  /** Every call after the background is a fillText whose 10 x 18 cell lies inside the canvas. */
  lemma GlyphsInsideCanvas(img: Image, cols: nat, rows: nat, color: bool)
    ensures forall i :: 1 <= i < |DrawCalls(img, cols, rows, color)| ==>
              GlyphInside(DrawCalls(img, cols, rows, color)[i], cols, rows)
  {
    DrawnThroughInside(img, cols, rows, color, rows, 0);
  }

  lemma MulMonotone(a: int, b: int, c: nat)
    requires a <= b
    ensures a * c <= b * c
  {
    assert b * c - a * c == (b - a) * c;
  }

  /** The glyph of every cell carries the character asciiText has at the same cell. */
  lemma GlyphsMatchText(img: Image, cols: nat, rows: nat, color: bool, x: nat, y: nat)
    requires x < cols && y < rows
    ensures GlyphIndex(cols, x, y) < |DrawCalls(img, cols, rows, color)|
    ensures Offset(cols, x, y) < |AsciiText(img, cols, rows)|
    ensures DrawCalls(img, cols, rows, color)[GlyphIndex(cols, x, y)].FillText?
    ensures DrawCalls(img, cols, rows, color)[GlyphIndex(cols, x, y)].ch == AsciiText(img, cols, rows)[Offset(cols, x, y)]
  {
    GlyphAt(img, cols, rows, color, x, y);
    CellAt(img, cols, rows, x, y);
  }

  /**
   * The script's drawing: createCanvas(cols * 10, rows * 18), a white
   * background, then per cell: set fillStyle, fillText at (x * 10, y * 18).
   */
  method Render(img: Image, cols: nat, rows: nat, color: bool)
    returns (canvasWidth: nat, canvasHeight: nat, ops: seq<DrawOp>)
    ensures canvasWidth == CanvasWidth(cols) && canvasHeight == CanvasHeight(rows)
    ensures ops == DrawCalls(img, cols, rows, color)
  {
    var ctx := new Context(cols * CharWidth, rows * CharHeight);
    ctx.fillStyle := White;
    ctx.FillRectangle(0, 0, ctx.width, ctx.height);
    var y := 0;
    while y < rows
      invariant 0 <= y <= rows
      invariant ctx.width == CanvasWidth(cols) && ctx.height == CanvasHeight(rows)
      invariant ctx.ops == DrawnThrough(img, cols, rows, color, y, 0)
    {
      var x := 0;
      while x < cols
        invariant 0 <= x <= cols
        invariant ctx.ops == DrawnThrough(img, cols, rows, color, y, x)
      {
        var pixel := img(x, y);
        var ch := PixelToChar(pixel.r, pixel.g, pixel.b);
        ctx.fillStyle := if color then RgbFill(pixel.r, pixel.g, pixel.b) else Black;
        ctx.DrawText(ch, x * CharWidth, y * CharHeight);
        x := x + 1;
      }
      y := y + 1;
    }
    canvasWidth, canvasHeight, ops := ctx.width, ctx.height, ctx.ops;
  }
}
