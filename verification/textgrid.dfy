/**
 * The asciiText string of asciiart.js: for each row y and each column x,
 * in that order, the ramp character of pixel (x, y), and a '\n' after
 * every row. TextThrough is the specification, BuildAsciiText the script's
 * nested loop that grows the string with +=.
 */
module TextGrid {
  import opened Luma
  import opened Pixels

  /**
   * The text once every row above y and the first x cells of row y have
   * been visited: rows are visited top to bottom, cells left to right, and
   * a row's '\n' is written when the next row starts.
   */
  function TextThrough(img: Image, cols: nat, y: nat, x: nat): string
    requires x <= cols
    decreases y, x
  {
    if x > 0 then TextThrough(img, cols, y, x - 1) + [CellChar(img, x - 1, y)]
    else if y > 0 then TextThrough(img, cols, y - 1, cols) + "\n"
    else []
  }

  /** The whole asciiText of a grid of cols columns and rows rows. */
  function AsciiText(img: Image, cols: nat, rows: nat): string
  {
    TextThrough(img, cols, rows, 0)
  }

  /** The position in the text of column x of row y (x == cols is the row's '\n'). */
  function Offset(cols: nat, x: int, y: int): int
  {
    y * (cols + 1) + x
  }

  /** Cursor (y', x') is visited no later than cursor (y, x). */
  predicate NotAfter(y': nat, x': nat, y: nat, x: nat) {
    y' < y || (y' == y && x' <= x)
  }

  lemma {:induction false} TextThroughLength(img: Image, cols: nat, y: nat, x: nat)
    requires x <= cols
    ensures |TextThrough(img, cols, y, x)| == Offset(cols, x, y)
    decreases y, x
  {
    if x > 0 {
      TextThroughLength(img, cols, y, x - 1);
    } else if y > 0 {
      TextThroughLength(img, cols, y - 1, cols);
      assert Offset(cols, cols, y - 1) + 1 == Offset(cols, 0, y);
    }
  }

  /** A prefix of a sequence is a prefix of every extension of it. */
  lemma PrefixOfExtension<T>(a: seq<T>, b: seq<T>, c: seq<T>)
    requires a <= b
    ensures a <= b + c
  {
    assert forall i :: 0 <= i < |a| ==> (b + c)[i] == b[i];
  }

  /** The text only grows: an earlier cursor's text is a prefix of a later one's. */
  lemma {:induction false} TextThroughPrefix(img: Image, cols: nat, y': nat, x': nat, y: nat, x: nat)
    requires x' <= cols && x <= cols
    requires NotAfter(y', x', y, x)
    ensures TextThrough(img, cols, y', x') <= TextThrough(img, cols, y, x)
    decreases y, x
  {
    if y' == y && x' == x {
    } else if x > 0 {
      TextThroughPrefix(img, cols, y', x', y, x - 1);
      PrefixOfExtension(TextThrough(img, cols, y', x'), TextThrough(img, cols, y, x - 1), [CellChar(img, x - 1, y)]);
    } else {
      TextThroughPrefix(img, cols, y', x', y - 1, cols);
      PrefixOfExtension(TextThrough(img, cols, y', x'), TextThrough(img, cols, y - 1, cols), "\n");
    }
  }

  /** Cell (x, y) of a grid with at least y + 1 rows holds the pixel's ramp character. */
  lemma CellAt(img: Image, cols: nat, rows: nat, x: nat, y: nat)
    requires x < cols && y < rows
    ensures Offset(cols, x, y) < |AsciiText(img, cols, rows)|
    ensures AsciiText(img, cols, rows)[Offset(cols, x, y)] == CellChar(img, x, y)
  {
    TextThroughLength(img, cols, y, x);
    TextThroughLength(img, cols, rows, 0);
    TextThroughPrefix(img, cols, y, x + 1, rows, 0);
    assert TextThrough(img, cols, y, x + 1)[Offset(cols, x, y)] == CellChar(img, x, y);
  }

  /** Position cols of row y holds the row's '\n'. */
  lemma RowEndAt(img: Image, cols: nat, rows: nat, y: nat)
    requires y < rows
    ensures Offset(cols, cols, y) < |AsciiText(img, cols, rows)|
    ensures AsciiText(img, cols, rows)[Offset(cols, cols, y)] == '\n'
  {
    TextThroughLength(img, cols, y, cols);
    TextThroughLength(img, cols, rows, 0);
    TextThroughPrefix(img, cols, y + 1, 0, rows, 0);
    assert TextThrough(img, cols, y + 1, 0)[Offset(cols, cols, y)] == '\n';
  }

  /** The text holds one '\n' per completed row and no other. */
  lemma {:induction false} NewlineCount(img: Image, cols: nat, y: nat, x: nat)
    requires x <= cols
    ensures multiset(TextThrough(img, cols, y, x))['\n'] == y
    decreases y, x
  {
    if x > 0 {
      NewlineCount(img, cols, y, x - 1);
      assert CellChar(img, x - 1, y) != '\n';
    } else if y > 0 {
      NewlineCount(img, cols, y - 1, cols);
    }
  }

  /**
   * The size of asciiText: rows * (cols + 1) characters, of which exactly
   * rows are newlines.
   */
  lemma AsciiTextSize(img: Image, cols: nat, rows: nat)
    ensures |AsciiText(img, cols, rows)| == rows * (cols + 1)
    ensures multiset(AsciiText(img, cols, rows))['\n'] == rows
  {
    TextThroughLength(img, cols, rows, 0);
    NewlineCount(img, cols, rows, 0);
  }

  /** Cell (x, y) sits at y * (cols + 1) + x and holds pixelToChar of pixel (x, y). */
  lemma AsciiTextCells(img: Image, cols: nat, rows: nat)
    ensures forall x: nat, y: nat :: x < cols && y < rows ==>
              Offset(cols, x, y) < |AsciiText(img, cols, rows)| &&
              AsciiText(img, cols, rows)[Offset(cols, x, y)] == CellChar(img, x, y)
  {
    forall x: nat, y: nat | x < cols && y < rows
      ensures Offset(cols, x, y) < |AsciiText(img, cols, rows)|
      ensures AsciiText(img, cols, rows)[Offset(cols, x, y)] == CellChar(img, x, y)
    {
      CellAt(img, cols, rows, x, y);
    }
  }

  /**
   * Row y ends in '\n' at y * (cols + 1) + cols; with AsciiTextSize, these
   * are the only newlines.
   */
  lemma AsciiTextRowEnds(img: Image, cols: nat, rows: nat)
    ensures forall y: nat :: y < rows ==>
              Offset(cols, cols, y) < |AsciiText(img, cols, rows)| &&
              AsciiText(img, cols, rows)[Offset(cols, cols, y)] == '\n'
  {
    forall y: nat | y < rows
      ensures Offset(cols, cols, y) < |AsciiText(img, cols, rows)|
      ensures AsciiText(img, cols, rows)[Offset(cols, cols, y)] == '\n'
    {
      RowEndAt(img, cols, rows, y);
    }
  }

  /** Every newline written so far ends one of the completed rows. */
  lemma {:induction false} NewlinesAtRowEnds(img: Image, cols: nat, y: nat, x: nat)
    requires x <= cols
    ensures forall i :: 0 <= i < |TextThrough(img, cols, y, x)| && TextThrough(img, cols, y, x)[i] == '\n' ==>
              exists y': nat :: y' < y && i == Offset(cols, cols, y')
    decreases y, x
  {
    if x > 0 {
      NewlinesAtRowEnds(img, cols, y, x - 1);
      TextThroughLength(img, cols, y, x - 1);
    } else if y > 0 {
      NewlinesAtRowEnds(img, cols, y - 1, cols);
      TextThroughLength(img, cols, y - 1, cols);
      var prev := TextThrough(img, cols, y - 1, cols);
      forall i | 0 <= i < |TextThrough(img, cols, y, x)| && TextThrough(img, cols, y, x)[i] == '\n'
        ensures exists y': nat :: y' < y && i == Offset(cols, cols, y')
      {
        if i == |prev| {
          assert i == Offset(cols, cols, y - 1);
        } else {
          assert prev[i] == '\n';
        }
      }
    }
  }

  /** The newlines of asciiText are exactly the row ends: no cell holds one. */
  lemma AsciiTextNewlinesOnlyAtRowEnds(img: Image, cols: nat, rows: nat)
    ensures forall i :: 0 <= i < |AsciiText(img, cols, rows)| && AsciiText(img, cols, rows)[i] == '\n' ==>
              exists y: nat :: y < rows && i == Offset(cols, cols, y)
  {
    NewlinesAtRowEnds(img, cols, rows, 0);
  }

  /** A solid black image becomes a grid of '@', the darkest ramp character. */
  lemma BlackImageText(img: Image, cols: nat, rows: nat)
    requires forall x, y :: 0 <= x < cols && 0 <= y < rows ==> img(x, y).r == 0 && img(x, y).g == 0 && img(x, y).b == 0
    ensures forall x: nat, y: nat :: x < cols && y < rows ==>
              Offset(cols, x, y) < |AsciiText(img, cols, rows)| &&
              AsciiText(img, cols, rows)[Offset(cols, x, y)] == '@'
  {
    AsciiTextCells(img, cols, rows);
    forall x: nat, y: nat | x < cols && y < rows
      ensures CellChar(img, x, y) == '@'
    {
      BlackCellIsDarkest(img, x, y);
    }
  }


  /** The script's loop: asciiText += pixelToChar(...) per cell, += '\n' per row. */
  method BuildAsciiText(img: Image, cols: nat, rows: nat) returns (text: string)
    ensures text == AsciiText(img, cols, rows)
  {
    text := "";
    var y := 0;
    while y < rows
      invariant 0 <= y <= rows
      invariant text == TextThrough(img, cols, y, 0)
    {
      var x := 0;
      while x < cols
        invariant 0 <= x <= cols
        invariant text == TextThrough(img, cols, y, x)
      {
        var pixel := img(x, y);
        text := text + [PixelToChar(pixel.r, pixel.g, pixel.b)];
        x := x + 1;
      }
      text := text + "\n";
      y := y + 1;
    }
  }
}
