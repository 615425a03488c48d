# Drag2ASCII in Dafny

A verified model of `asciiart.js`, the Node command-line tool that turns an image into ASCII art and draws that art back onto a PNG canvas.

The model covers these steps:

- **Path.** Take the image path from the command line. If that file does not exist, take the answer given at the prompt, trimmed and with its quotes removed; if that file does not exist either, fail.
- **Read.** Read the image.
- **Width.** Parse `--width` with `parseInt`. It must be a positive number, and then lie between 150 and 500.
- **Grid height.** Compute `floor(H * cols / W * 0.5)` and resize the image to `cols` by that many rows.
- **Text.** Build `asciiText`: one ramp character per pixel, using the ramp `"@%#*+=-:. "`, indexed by the pixel's Rec. 709 luma. Each row ends in a newline.
- **Drawing.** Paint a white canvas of `cols * 10` by `rows * 18` pixels. Then draw each character at `(x * 10, y * 18)`, in black, or in the pixel's own colour with `--color`.

The modules follow the script's stages:

| module | file | what it holds |
|---|---|---|
| `Wrappers` | `wrappers.dfy` | `Option` and `Result` |
| `Luma` | `luma.dfy` | the ramp and `pixelToChar` |
| `JsText` | `jstext.dfy` | `String.prototype.trim` and `parseInt(s, 10)` |
| `Width` | `width.dfy` | the two width checks |
| `Grid` | `grid.dfy` | `newHeight` and the canvas size |
| `Pixels` | `pixels.dfy` | the resized bitmap as a function from positions to RGBA |
| `TextGrid` | `textgrid.dfy` | the `asciiText` loop, as a method proved against a specification function |
| `Drawing` | `drawing.dfy` | a recording 2D context (a class) and the draw loop |
| `InputPath` | `inputpath.dfy` | cleaning the prompt answer and choosing the path |
| `Pipeline` | `pipeline.dfy` | `main`, with its error precedence |

The code is exact where the script relies on floating point:

- **Luma.** `pixelToChar` computes `floor(9 * (0.2126 r + 0.7152 g + 0.0722 b) / 255)`. The model uses the exact integer form `9 * (2126 r + 7152 g + 722 b) / 2550000`.
- **Grid height.** The model computes `H * cols / (2 * W)` in integers and proves it equals the real-valued floor of `H * cols / W * 0.5`.

The file system, the terminal prompt, the image decoder, the resampler and the canvas allocator are parameters:

- `fileExists` stands for `fs.existsSync`;
- `answer` is the line typed at the prompt;
- `decode` stands for `Jimp.read`;
- `resize` stands for `img.resize`, answering nothing when it throws;
- `canvasFits(w, h)` says whether `createCanvas(w, h)` succeeds.

`replace(/["']/g, '')` deletes every `"` and `'` in the answer, including quotes inside the path, not only a surrounding pair. `RemoveQuotes` does the same, and `CleanAnswer` never returns a path that contains a quote.

## Model

| member | source | states |
|---|---|---|
| `Luma.ScaledLuma` | asciiart.js:21 | the scaled grey level `2126 r + 7152 g + 722 b` of bytes lies in [0, 2550000] |
| `Luma.RampIndex` | asciiart.js:21-22 | the ramp index lies in [0, 9] and is the floor of 9 * grey / 255 (`i * 2550000 <= 9 * luma < (i + 1) * 2550000`) |
| `Luma.PixelToChar` | asciiart.js:8-23 | the character is a member of the ramp `"@%#*+=-:. "`, the one at the ramp index |
| `Luma.DimIsDarkest` | asciiart.js:20-23 | any pixel with 9 * grey below 255 maps to `'@'` |
| `Luma.BrightIsLightest` | asciiart.js:20-23 | in exact arithmetic a pixel gets `' '` exactly when its grey is full (`' '` occurs only last in the ramp) |
| `Luma.BlackIsDarkest` | asciiart.js:20-23 | black (0, 0, 0) maps to `'@'` |
| `Luma.WhiteIsLightest` | asciiart.js:20-23 | in exact arithmetic white (255, 255, 255) maps to `' '` |
| `Luma.IndexMonotoneInLuma` | asciiart.js:21-22 | a brighter grey never gives a smaller ramp index |
| `Luma.IndexMonotone` | asciiart.js:21-22 | raising any channel never moves the character toward the dark end of the ramp |
| `JsText.LeadingSpaces` | asciiart.js:38 | counts the maximal run of ECMAScript white space at the front |
| `JsText.TrailingSpaces` | asciiart.js:38 | counts the maximal run of white space at the back |
| `JsText.Trim` | asciiart.js:38 | `trim()` returns the contiguous slice after the leading space; everything after it is space; it neither starts nor ends with space |
| `JsText.TrimKeepsUnpadded` | asciiart.js:38 | a string without padding is its own trim |
| `JsText.TrimPadded` | asciiart.js:38 | trimming white space off both sides of an unpadded core gives exactly the core |
| `JsText.DigitPrefixLength` | asciiart.js:57 | counts the maximal run of decimal digits that `parseInt` consumes |
| `JsText.Decimal` | asciiart.js:57 | the decimal numeral of n is non-empty, all digits, and has no leading zero unless n is 0 |
| `JsText.DigitsValueOfDecimal` | asciiart.js:57 | reading the digits of a numeral back gives its value |
| `JsText.DigitPrefixOfDigits` | asciiart.js:57 | `parseInt` stops exactly at the first non-digit |
| `JsText.ParseDigitsOfDecimal` | asciiart.js:57 | a numeral followed by a non-digit reads back as its value |
| `JsText.ParseDecimal` | asciiart.js:57 | `parseInt(n + rest, 10) == n` when rest does not start with a digit (so `"200px"` gives 200) |
| `JsText.ParseNegativeDecimal` | asciiart.js:57 | `parseInt("-" + n + rest, 10) == -n` |
| `JsText.SkipsLeadingSpace` | asciiart.js:57 | leading white space does not change what `parseInt` reads |
| `JsText.LeadingSpacesAfterSpace` | asciiart.js:57 | white space put in front adds exactly its length to the leading run |
| `JsText.NoDigitsIsNaN` | asciiart.js:57 | a string with no digits at all parses to NaN |
| `JsText.Unsigned` | asciiart.js:57 | drops one leading `'+'` or `'-'` when there is one; its contract states only that the result is never longer |
| `JsText.IsSpace` | asciiart.js:38 | the ECMAScript WhiteSpace and LineTerminator code points that `trim` (line 38) and `parseInt` (line 57) strip; none of them is a digit or a sign |
| `JsText.ParseSigned` | asciiart.js:57 | the sign step of `parseInt`: NaN exactly when no digit follows an optional `'-'` or `'+'`; a negative result needs a leading `'-'` |
| `JsText.ParseInt` | asciiart.js:57 | `parseInt(s, 10)` is NaN exactly when, after the leading white space and an optional sign, no digit comes first; a negative result needs a `'-'`; `ParseSignedNumeral` gives its value on every other input |
| `JsText.LeadingZerosValue` | asciiart.js:57 | leading zeros do not change the value of a digit string |
| `JsText.ParseDigitsOfPadded` | asciiart.js:57 | a zero-padded numeral followed by a non-digit reads back as its value |
| `JsText.ParseSignedDigits` | asciiart.js:57 | after no sign or a `'+'` parseInt gives the digit run's value, after a `'-'` its negation |
| `JsText.ParseSignedNumeral` | asciiart.js:57 | white space, an optional `'+'`/`'-'`, leading zeros, a numeral n and any text not starting with a digit parse to n, or -n after `'-'` (`"+0200px"` is 200) |
| `JsText.NaNExamples` | asciiart.js:57 | `"a1"`, `"- 5"` and `" +-3"` parse to NaN |
| `Width.ValidateWidth` | asciiart.js:57-67 | accepted exactly when `parseInt` gives a value in [150, 500], and then that value; fails with the positive-number error exactly when it is NaN or <= 0; otherwise fails with the range error |
| `Width.AcceptsInRange` | asciiart.js:64-67 | every numeral from 150 to 500, with any non-digit suffix, is accepted as its value |
| `Width.RejectsOutOfRange` | asciiart.js:64-67 | positive numerals below 150 or above 500 get the range error |
| `Width.RejectsNonPositive` | asciiart.js:60-63 | `"0..."` and `"-n..."` get the positive-number error, never the range error |
| `Width.RejectsNoDigits` | asciiart.js:60-63 | a width with no digits gets the positive-number error |
| `Width.Rejects149` | asciiart.js:64-67 | `"149"` is out of range |
| `Width.Rejects501` | asciiart.js:64-67 | `"501"` is out of range |
| `Width.Accepts150` | asciiart.js:64-67 | `"150"` is accepted |
| `Width.AcceptsDefault` | asciiart.js:14 | the default `"500"` is accepted as 500 |
| `Width.Accepts200px` | asciiart.js:57 | `"200px"` is accepted as 200 |
| `Width.NotPositiveExamples` | asciiart.js:60-63 | `"abc"`, `"0"` and `"-10"` get the positive-number error |
| `Grid.NewHeight` | asciiart.js:69-70 | rows is the floor of `H * cols / W * 0.5`, both as integer bounds and as real bounds |
| `Grid.FloorOfHalfRatio` | asciiart.js:70 | integer division by 2W lies within one of the real-valued quotient |
| `Grid.Example1000x500` | asciiart.js:69-86 | a 1000 x 500 image at 200 columns gives 50 rows and a 2000 x 900 canvas |
| `Grid.CanvasWidth` | asciiart.js:84-86 | the canvas width is a whole number of 10-pixel glyph columns, exactly cols of them |
| `Grid.CanvasHeight` | asciiart.js:84-86 | the canvas height is a whole number of 18-pixel glyph rows, exactly rows of them |
| `Pixels.CellChar` | asciiart.js:77-78 | the character of a cell is in the ramp and is never a newline |
| `Pixels.BlackCellIsDarkest` | asciiart.js:77-78 | a black pixel's cell gets `'@'` |
| `TextGrid.TextThroughLength` | asciiart.js:74-81 | after y rows and x cells the text has `y * (cols + 1) + x` characters |
| `TextGrid.TextThroughPrefix` | asciiart.js:74-81 | the text only grows: any earlier state is a prefix of any later one |
| `TextGrid.CellAt` | asciiart.js:75-79 | position `y * (cols + 1) + x` holds `pixelToChar` of pixel (x, y) |
| `TextGrid.RowEndAt` | asciiart.js:80 | position `y * (cols + 1) + cols` holds `'\n'` |
| `TextGrid.NewlineCount` | asciiart.js:74-81 | the text holds one newline per completed row and no other |
| `TextGrid.AsciiTextSize` | asciiart.js:74-81 | the text has `rows * (cols + 1)` characters, exactly `rows` of them newlines |
| `TextGrid.AsciiTextCells` | asciiart.js:75-79 | every cell (x, y) sits at `y * (cols + 1) + x` and holds `pixelToChar` of pixel (x, y) |
| `TextGrid.AsciiTextRowEnds` | asciiart.js:80 | every row ends in `'\n'` at `y * (cols + 1) + cols`; with the count, these are the only newlines |
| `TextGrid.BlackImageText` | asciiart.js:74-81 | an image that is black on the `cols` x `rows` grid gives a grid made only of `'@'` |
| `TextGrid.NewlinesAtRowEnds` | asciiart.js:74-81 | every newline written so far sits at the end of a completed row |
| `TextGrid.AsciiTextNewlinesOnlyAtRowEnds` | asciiart.js:74-81 | every `'\n'` in the text sits at `y * (cols + 1) + cols` for some row y |
| `TextGrid.BuildAsciiText` | asciiart.js:74-81 | the nested loop builds exactly the specified text |
| `Drawing.Context.constructor` | asciiart.js:86-87 | a fresh context of the given size has drawn nothing, with the default fill black |
| `Drawing.Context.FillRectangle` | asciiart.js:90 | appends one rectangle in the current fill style; the fill style is kept |
| `Drawing.Context.DrawText` | asciiart.js:99 | appends one glyph in the current fill style; the fill style is kept |
| `Drawing.DrawnThroughLength` | asciiart.js:89-101 | after the background and y rows plus x cells, `1 + y * cols + x` calls have been made |
| `Drawing.DrawnThroughPrefix` | asciiart.js:89-101 | the call sequence only grows |
| `Drawing.Background` | asciiart.js:89-90 | a white rectangle from (0, 0) whose width is exactly `cols` character widths and whose height exactly `rows` character heights |
| `Drawing.CellFill` | asciiart.js:98 | a glyph is filled black exactly without `--color`; with it, in the pixel's own red, green and blue; never in the background's white keyword |
| `Drawing.BackgroundFirst` | asciiart.js:89-90 | the first call fills the whole `cols * 10` by `rows * 18` canvas white |
| `Drawing.GlyphAt` | asciiart.js:94-101 | call `1 + y * cols + x` draws the glyph of cell (x, y) |
| `Drawing.DrawingLayout` | asciiart.js:94-101 | there are `1 + cols * rows` calls, in row-major order; the glyph of cell (x, y) is `pixelToChar` of pixel (x, y), drawn with its top-left corner at (x * 10, y * 18), in black, or in that pixel's RGB with `--color` |
| `Drawing.DrawnThroughInside` | asciiart.js:94-101 | every glyph drawn so far has its 10 x 18 cell inside the canvas |
| `Drawing.GlyphsInsideCanvas` | asciiart.js:84-101 | every call after the background is a `fillText` whose cell lies inside the canvas |
| `Drawing.GlyphsMatchText` | asciiart.js:74-101 | the glyph drawn for each cell is the character `asciiText` holds for that cell |
| `Drawing.Render` | asciiart.js:84-101 | the canvas is `cols * 10` by `rows * 18`, and the context receives exactly the specified calls |
| `InputPath.RemoveQuotes` | asciiart.js:38 | the result is no longer than the input and has no `"` or `'`; every other character keeps its count; the result equals the input exactly when the input has no quotes |
| `InputPath.RemoveQuotesAppend` | asciiart.js:38 | quote removal distributes over concatenation |
| `InputPath.CleanAnswer` | asciiart.js:38 | the cleaned answer has no quotes and is never longer than the answer |
| `InputPath.CleanQuotedAnswer` | asciiart.js:38 | a quoted, padded path dropped into the terminal cleans to exactly the path, inner spaces included |
| `InputPath.CleanPlainAnswer` | asciiart.js:38 | an unquoted, unpadded path keeps only the path after cleaning |
| `InputPath.ChosenPath` | asciiart.js:45-49 | the path the script goes on with is the command-line path or the cleaned answer; when it is the latter it has no quotes and is no longer than the answer |
| `InputPath.ResolveImagePath` | asciiart.js:45-54 | an existing command-line path is used unchanged; otherwise the cleaned answer is used; if that does not exist, the result is not-found with the cleaned path; a returned path always exists |
| `Pipeline.Run` | asciiart.js:43-117 | errors come in order: image not found, then read failure, then the width error, then a throw from `img.resize`, then a throw from `createCanvas` (the last two reported by the catch at 113-116). Success happens exactly when none of these occurs, and then width is in [150, 500], canvas width is in [1500, 5000], and text, canvas and drawing calls are the specified ones for the resized image |

## Left out

- Command-line parsing by `commander` is left out: the input path, `--width` and `--color` are parameters.
- The `readline` prompt, its message and the `async`/`await` plumbing are left out: the answer line is a parameter.
- `fs.existsSync`, `Jimp.read`, `img.resize` and `createCanvas` are not modelled: they are the parameters `fileExists`, `decode`, `resize` and `canvasFits`. The resampling algorithm and the canvas size limits are not modelled.
- `intToRGBA(img.getPixelColor(x, y))` is not modelled: the resized image is a function from positions to RGBA bytes.
- Glyph rasterisation is left out: the font `18px monospace`, `textBaseline = 'top'` and the pixels a glyph covers belong to the canvas library. The context records the calls made on it.
- Writing `ascii.png` is left out: the PNG stream, the pipe, the finish and error handlers and the write-error message are I/O. A successful run returns the drawing together with the file name.
- `console` output and `process.exit(1)` are left out: each failure is a `Failure` value. Every failure exits with status 1.
- The outer `main().catch` handler is left out: every throw inside `main` is caught at lines 113-116, so the outer handler is never reached.
- `Pipeline.Run` treats `getContext`, `fillRect` and `fillText` (lines 87-99) as total. A throw from one of them would end the run through the catch at lines 113-116 with exit 1, and then the success if-and-only-if does not hold.
- `Luma.PixelToChar`, `Luma.RampIndex`: computed in exact arithmetic. The script computes in IEEE doubles, and rounding moves a pixel whose exact index sits on a bucket boundary one bucket darker. For white, `0.2126 * 255 + 0.7152 * 255 + 0.0722 * 255` is `254.99999999999997`, so the index is 8 and white is drawn as `'.'`.
- `Luma.WhiteIsLightest`, `Luma.BrightIsLightest`: hold only in exact arithmetic. White is the only pixel whose exact index is 9, so the script as written maps white to `'.'` and never draws `' '`.
- `JsText.ParseInt` works on unbounded integers. The script's doubles differ only above 2^53, and such widths fail the range check either way.
- `Pipeline.Run`: when `newHeight` is 0, the model goes on with an empty grid and asks `resize` and `canvasFits` about a height of 0. Whether the image library and the canvas accept a zero height is up to those parameters.
- `Pipeline.Bitmap` requires a positive width, because a decoded image always has at least one column. The division at line 70 relies on this.
