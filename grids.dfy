/** The map as a value: column `x` of the grid is `g[x]`, and its cell in row `y` is
    `g[x][y]`, the shape of the game's `Vec<Vec<Tile>>`. */
module Grids {
  import opened Tiles

  type Grid = seq<seq<Tile>>

  /** Every column of `g` has `h` cells. */
  ghost predicate Columns(g: Grid, h: nat) {
    forall x :: 0 <= x < |g| ==> |g[x]| == h
  }

  /** The `w` by `h` grid made only of walls, `vec![vec![Tile::wall(); h]; w]`. */
  function AllWall(w: nat, h: nat): (g: Grid)
    ensures |g| == w && Columns(g, h)
    ensures forall x, y :: 0 <= x < w && 0 <= y < h ==> g[x][y] == Wall()
  {
    seq(w, _ => seq(h, _ => Wall()))
  }

  /** The contents of a map array as a grid value. */
  ghost function Cells(tiles: array2<Tile>): (g: Grid)
    reads tiles
    ensures |g| == tiles.Length0 && Columns(g, tiles.Length1)
    ensures forall x, y :: 0 <= x < tiles.Length0 && 0 <= y < tiles.Length1 ==> g[x][y] == tiles[x, y]
  {
    seq(tiles.Length0, x reads tiles requires 0 <= x < tiles.Length0 =>
      seq(tiles.Length1, y reads tiles requires 0 <= y < tiles.Length1 => tiles[x, y]))
  }

  /** Two grids of the same shape that agree on every cell are equal. */
  lemma GridExt(g: Grid, h: Grid)
    requires |g| == |h|
    requires forall x :: 0 <= x < |g| ==> |g[x]| == |h[x]|
    requires forall x, y :: 0 <= x < |g| && 0 <= y < |g[x]| ==> g[x][y] == h[x][y]
    ensures g == h
  {
    forall x | 0 <= x < |g|
      ensures g[x] == h[x]
    {
      assert |g[x]| == |h[x]|;
    }
  }
}
