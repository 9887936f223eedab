/** An abstract off-screen console: a background colour per cell, a glyph with its
    foreground colour per cell, and the default foreground used by the next glyph. */
module Console {
  import opened Colours

  datatype Cell = Cell(glyph: char, fg: Colour)

  class Frame {
    const background: array2<Colour>
    const cells: array2<Cell>
    var defaultForeground: Colour

    /** A `width` by `height` console with every cell showing `blank` on `bg`. */
    constructor (width: nat, height: nat, bg: Colour, blank: Cell, fg: Colour)
      ensures fresh(background) && fresh(cells)
      ensures background.Length0 == width && background.Length1 == height
      ensures cells.Length0 == width && cells.Length1 == height
      ensures forall x, y :: 0 <= x < width && 0 <= y < height ==> background[x, y] == bg && cells[x, y] == blank
      ensures defaultForeground == fg
    {
      background := new Colour[width, height]((_, _) => bg);
      cells := new Cell[width, height]((_, _) => blank);
      defaultForeground := fg;
    }

    /** Paints the background of one cell; glyphs are untouched. */
    method SetCharBackground(x: int, y: int, c: Colour)
      requires 0 <= x < background.Length0 && 0 <= y < background.Length1
      modifies background
      ensures background[x, y] == c
      ensures forall i, j :: 0 <= i < background.Length0 && 0 <= j < background.Length1 && (i != x || j != y) ==>
                background[i, j] == old(background[i, j])
    {
      background[x, y] := c;
    }

    /** Chooses the foreground colour of the glyphs put from now on. */
    method SetDefaultForeground(c: Colour)
      modifies this`defaultForeground
      ensures defaultForeground == c
    {
      defaultForeground := c;
    }

    /** Puts a glyph in the default foreground colour at one cell, leaving the
        background layer as it is. */
    method PutChar(x: int, y: int, glyph: char)
      requires 0 <= x < cells.Length0 && 0 <= y < cells.Length1
      modifies cells
      ensures cells[x, y] == Cell(glyph, defaultForeground)
      ensures forall i, j :: 0 <= i < cells.Length0 && 0 <= j < cells.Length1 && (i != x || j != y) ==>
                cells[i, j] == old(cells[i, j])
    {
      cells[x, y] := Cell(glyph, defaultForeground);
    }
  }
}
