/**
 * The resized bitmap as asciiart.js reads it: intToRGBA(img.getPixelColor(x, y))
 * gives the channels of the pixel in column x and row y. Decoding and
 * resampling belong to the image library, so the bitmap is a function.
 */
module Pixels {
  import opened Luma

  /** The record intToRGBA returns; the script never reads the alpha channel. */
  datatype Rgba = Rgba(r: Byte, g: Byte, b: Byte, a: Byte)

  /** The resized image: the colour of column x, row y. */
  type Image = (int, int) -> Rgba

  /** The ramp character the script computes for one grid cell. */
  function CellChar(img: Image, x: int, y: int): (c: char)
    ensures c in Ramp && c != '\n'
  {
    var p := img(x, y);
    PixelToChar(p.r, p.g, p.b)
  }

  /** A black pixel's cell is drawn with '@'. */
  lemma BlackCellIsDarkest(img: Image, x: int, y: int)
    requires img(x, y).r == 0 && img(x, y).g == 0 && img(x, y).b == 0
    ensures CellChar(img, x, y) == '@'
  {
    var p := img(x, y);
    DimIsDarkest(p.r, p.g, p.b);
  }
}
