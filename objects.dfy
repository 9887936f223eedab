/** Entities: positioned, drawable actors that move over the map. */
module Objects {
  import opened Ints
  import opened Tiles
  import opened Colours
  import opened Console

  class Object {
    var x: I32
    var y: I32
    var glyph: char
    var color: Colour

    /** `Object::new`. */
    constructor (x: I32, y: I32, glyph: char, color: Colour)
      ensures this.x == x && this.y == y && this.glyph == glyph && this.color == color
    {
      this.x, this.y, this.glyph, this.color := x, y, glyph, color;
    }

    /** `move_by`: steps by (dx, dy) when the destination tile does not block, and
        otherwise stays put. The destination sums are `i32` additions and the tile
        lookup is indexed without a bounds check, so both must be valid. */
    method MoveBy(dx: I32, dy: I32, tiles: array2<Tile>)
      requires InI32(x + dx) && InI32(y + dy)
      requires 0 <= x + dx < tiles.Length0 && 0 <= y + dy < tiles.Length1
      modifies this`x, this`y
      ensures !tiles[old(x) + dx, old(y) + dy].blocked ==> x == old(x) + dx && y == old(y) + dy
      ensures tiles[old(x) + dx, old(y) + dy].blocked ==> x == old(x) && y == old(y)
      ensures glyph == old(glyph) && color == old(color)
      ensures unchanged(tiles)
      ensures 0 <= old(x) < tiles.Length0 && 0 <= old(y) < tiles.Length1 && !tiles[old(x), old(y)].blocked ==>
                0 <= x < tiles.Length0 && 0 <= y < tiles.Length1 && !tiles[x, y].blocked
    {
      if !tiles[x + dx, y + dy].blocked {
        x := x + dx;
        y := y + dy;
      }
    }

    /** `draw`: sets the console's default foreground to this entity's colour, then
        puts its glyph at its position; the entity itself is unchanged. */
    method Draw(con: Frame)
      requires 0 <= x < con.cells.Length0 && 0 <= y < con.cells.Length1
      modifies con`defaultForeground, con.cells
      ensures con.defaultForeground == color
      ensures con.cells[x, y] == Cell(glyph, color)
      ensures forall i, j :: 0 <= i < con.cells.Length0 && 0 <= j < con.cells.Length1 && (i != x || j != y) ==>
                con.cells[i, j] == old(con.cells[i, j])
    {
      con.SetDefaultForeground(color);
      con.PutChar(x, y, glyph);
    }
  }
}
