/** Facts about the game as it is assembled: the generated map, the two starting
    entities and the player's turn. */
module Game {
  import opened Tiles
  import opened Grids
  import opened Carving
  import opened Objects
  import opened Input

  const ScreenWidth: int := 80
  const ScreenHeight: int := 50

  /** The outermost rows and columns of the generated map are all walls. */
  lemma LayoutBorderWalled(x: int, y: int)
    requires 0 <= x < MapWidth && 0 <= y < MapHeight
    requires x == 0 || x == MapWidth - 1 || y == 0 || y == MapHeight - 1
    ensures Layout()[x][y] == Wall()
  {
    LayoutCells(x, y);
  }

  /** From any open cell of the generated map, every step a key can request lands
      inside the map, so the unchecked lookup of `move_by` never goes out of bounds. */
  lemma LayoutStepFits(key: Key, x: int, y: int)
    requires 0 <= x < MapWidth && 0 <= y < MapHeight
    requires !Layout()[x][y].blocked
    ensures StepFits(key, x, y, MapWidth, MapHeight)
  {
    LayoutCells(x, y);
  }

  /** The player character starts at (25, 23), on open floor; the other entity starts
      at (ScreenWidth / 2 - 5, ScreenHeight / 2) = (35, 25), inside solid rock. */
  lemma StartPositions()
    ensures |Layout()| == MapWidth && Columns(Layout(), MapHeight)
    ensures !Layout()[25][23].blocked
    ensures ScreenWidth / 2 - 5 == 35 && ScreenHeight / 2 == 25
    ensures Layout()[35][25].blocked
  {
    LayoutCells(25, 23);
    LayoutCells(35, 25);
  }

  /** One player turn on the generated map: handling any key keeps the player
      character on open floor. */
  method PlayerTurn(key: Key, pc: Object, tiles: array2<Tile>) returns (exit: bool)
    requires tiles.Length0 == MapWidth && tiles.Length1 == MapHeight
    requires Cells(tiles) == Layout()
    requires 0 <= pc.x < MapWidth && 0 <= pc.y < MapHeight && !tiles[pc.x, pc.y].blocked
    modifies pc`x, pc`y
    ensures exit <==> key.code == Escape
    ensures 0 <= pc.x < MapWidth && 0 <= pc.y < MapHeight && !tiles[pc.x, pc.y].blocked
  {
    assert Layout()[pc.x][pc.y] == tiles[pc.x, pc.y];
    LayoutStepFits(key, pc.x, pc.y);
    exit := HandleKeys(key, pc, tiles);
  }
}
