/**
 * The main function of asciiart.js: settle the image path, read the image,
 * validate --width, compute the grid height, resize, build the text and
 * draw it. Reading, resizing and writing the PNG file belong to libraries:
 * the decoder and the resampler are parameters. The result holds the
 * text, which the script builds but never writes out, and the drawing
 * calls on the canvas that is written to ascii.png.
 */
module Pipeline {
  import opened Wrappers
  import opened Luma
  import opened Pixels
  import opened Grid
  import opened Width
  import opened TextGrid
  import opened Drawing
  import opened InputPath

  type Pos = n: int | n > 0 witness 1

  /** A decoded image: img.bitmap.width, img.bitmap.height and its pixels. */
  datatype Bitmap = Bitmap(width: Pos, height: nat, pixels: Image)

  /** Why the script stops with exit code 1. */
  datatype Failure =
    | ImageNotFound(path: string)   // 'Error: Image file not found at ...'
    | ReadFailed(path: string)      // Jimp.read rejected, reported by the catch
    | BadWidth(reason: WidthError)  // the two width messages
    | ResizeFailed                  // img.resize threw, reported by the catch
    | CanvasFailed(width: nat, height: nat) // createCanvas threw, reported by the catch

  /** The file the canvas is written to. */
  const OutputFile: string := "ascii.png"

  /** What a successful run produces. */
  datatype Art = Art(text: string, canvasWidth: nat, canvasHeight: nat, ops: seq<DrawOp>, file: string)

  /**
   * One run of the script. The image path is settled first, then the image
   * is read, and only then is --width checked: a missing file or an
   * unreadable image is reported whatever the width says. The image
   * library's resize and the canvas allocation may throw (a very tall
   * image asks for an enormous canvas); `resize` answers None and
   * `canvasFits` false exactly when they do.
   */
  method Run(inputFile: string, fileExists: string -> bool, answer: string,
             decode: string -> Option<Bitmap>, resize: (Bitmap, nat, nat) -> Option<Image>,
             canvasFits: (nat, nat) -> bool, widthArg: string, color: bool)
    returns (r: Result<Art, Failure>)
    ensures var path := ChosenPath(inputFile, fileExists, answer);
      && (!fileExists(path) ==> r == Err(ImageNotFound(path)))
      && (fileExists(path) && decode(path).None? ==> r == Err(ReadFailed(path)))
      && (fileExists(path) && decode(path).Some? && ValidateWidth(widthArg).Err? ==>
            r == Err(BadWidth(ValidateWidth(widthArg).error)))
    ensures var path := ChosenPath(inputFile, fileExists, answer);
      fileExists(path) && decode(path).Some? && ValidateWidth(widthArg).Ok? ==>
        var img := decode(path).value;
        var cols := ValidateWidth(widthArg).value;
        var rows := NewHeight(img.width, img.height, cols);
        && (resize(img, cols, rows).None? ==> r == Err(ResizeFailed))
        && (resize(img, cols, rows).Some? && !canvasFits(CanvasWidth(cols), CanvasHeight(rows)) ==>
              r == Err(CanvasFailed(CanvasWidth(cols), CanvasHeight(rows))))
        && (r.Ok? <==> resize(img, cols, rows).Some? && canvasFits(CanvasWidth(cols), CanvasHeight(rows)))
    ensures r.Ok? ==> var path := ChosenPath(inputFile, fileExists, answer);
      fileExists(path) && decode(path).Some? && ValidateWidth(widthArg).Ok?
    ensures r.Ok? ==>
      var path := ChosenPath(inputFile, fileExists, answer);
      var img := decode(path).value;
      var cols := ValidateWidth(widthArg).value;
      var rows := NewHeight(img.width, img.height, cols);
      var pixels := resize(img, cols, rows).value;
      && MinWidth <= cols <= MaxWidth
      && 1500 <= r.value.canvasWidth <= 5000
      && r.value == Art(AsciiText(pixels, cols, rows), CanvasWidth(cols), CanvasHeight(rows),
                        DrawCalls(pixels, cols, rows, color), OutputFile)
  {
    var resolved := ResolveImagePath(inputFile, fileExists, answer);
    if resolved.Err? {
      return Err(ImageNotFound(resolved.error.path));
    }
    var imageFilePath := resolved.value;
    var read := decode(imageFilePath);
    if read.None? {
      return Err(ReadFailed(imageFilePath));
    }
    var img := read.value;
    var checked := ValidateWidth(widthArg);
    if checked.Err? {
      return Err(BadWidth(checked.error));
    }
    var cols: nat := checked.value;
    var newHeight := NewHeight(img.width, img.height, cols);
    var resized := resize(img, cols, newHeight);
    if resized.None? {
      return Err(ResizeFailed);
    }
    var pixels := resized.value;
    var asciiText := BuildAsciiText(pixels, cols, newHeight);
    if !canvasFits(CanvasWidth(cols), CanvasHeight(newHeight)) {
      return Err(CanvasFailed(CanvasWidth(cols), CanvasHeight(newHeight)));
    }
    var canvasWidth, canvasHeight, ops := Render(pixels, cols, newHeight, color);
    return Ok(Art(asciiText, canvasWidth, canvasHeight, ops, OutputFile));
  }
}
