/** Procedural generation: rooms and tunnels carved into an all-wall map. */
module Carving {
  import opened Ints
  import opened Tiles
  import opened Rects
  import opened Grids

  /** One carve operation: a room interior, a horizontal run at row `y`, or a vertical
      run at column `x`; the run endpoints may come in either order. */
  datatype Carve =
    | Room(room: Rect)
    | HTunnel(x1: I32, x2: I32, y: I32)
    | VTunnel(y1: I32, y2: I32, x: I32)

  /** True when carving `c` opens the cell (px, py). */
  predicate Opens(c: Carve, px: int, py: int) {
    match c
    case Room(r) => InInterior(r, px, py)
    case HTunnel(x1, x2, y) => py == y && Min(x1, x2) <= px <= Max(x1, x2)
    case VTunnel(y1, y2, x) => px == x && Min(y1, y2) <= py <= Max(y1, y2)
  }

  /** The grid after carving `c` into `g`. */
  function Apply(g: Grid, c: Carve): (r: Grid)
    ensures |r| == |g|
    ensures forall x :: 0 <= x < |g| ==> |r[x]| == |g[x]|
  {
    seq(|g|, x requires 0 <= x < |g| =>
      seq(|g[x]|, y requires 0 <= y < |g[x]| => if Opens(c, x, y) then Empty() else g[x][y]))
  }

  /** A carve empties exactly the cells it opens and leaves every other cell as it was. */
  lemma ApplyAt(g: Grid, c: Carve, x: int, y: int)
    requires 0 <= x < |g| && 0 <= y < |g[x]|
    ensures Apply(g, c)[x][y] == if Opens(c, x, y) then Empty() else g[x][y]
  {
  }

  /** A carve only ever writes `Empty()`: it never turns an open cell into a wall, and
      a cell it leaves blocked was blocked before. */
  lemma ApplyNeverWalls(g: Grid, c: Carve, x: int, y: int)
    requires 0 <= x < |g| && 0 <= y < |g[x]|
    ensures Apply(g, c)[x][y] == g[x][y] || Apply(g, c)[x][y] == Empty()
    ensures g[x][y] == Empty() ==> Apply(g, c)[x][y] == Empty()
    ensures Apply(g, c)[x][y].blocked ==> g[x][y].blocked
  {
    ApplyAt(g, c, x, y);
  }

  /** Carving the same thing twice gives the same map as carving it once. */
  lemma ApplyIdempotent(g: Grid, c: Carve)
    ensures Apply(Apply(g, c), c) == Apply(g, c)
  {
    var once := Apply(g, c);
    forall x, y | 0 <= x < |once| && 0 <= y < |once[x]|
      ensures Apply(once, c)[x][y] == once[x][y]
    {
      ApplyAt(once, c, x, y);
      ApplyAt(g, c, x, y);
    }
    GridExt(Apply(once, c), once);
  }

  /** The order in which two carves are applied does not change the result. */
  lemma ApplyCommutes(g: Grid, c: Carve, d: Carve)
    ensures Apply(Apply(g, c), d) == Apply(Apply(g, d), c)
  {
    var cd, dc := Apply(Apply(g, c), d), Apply(Apply(g, d), c);
    forall x, y | 0 <= x < |cd| && 0 <= y < |cd[x]|
      ensures cd[x][y] == dc[x][y]
    {
      ApplyAt(g, c, x, y);
      ApplyAt(g, d, x, y);
      ApplyAt(Apply(g, c), d, x, y);
      ApplyAt(Apply(g, d), c, x, y);
    }
    GridExt(cd, dc);
  }

  /** A horizontal tunnel does not depend on the order of its endpoints. */
  lemma HTunnelSymmetric(g: Grid, x1: I32, x2: I32, y: I32)
    ensures Apply(g, HTunnel(x1, x2, y)) == Apply(g, HTunnel(x2, x1, y))
  {
    var a, b := Apply(g, HTunnel(x1, x2, y)), Apply(g, HTunnel(x2, x1, y));
    forall px, py | 0 <= px < |a| && 0 <= py < |a[px]|
      ensures a[px][py] == b[px][py]
    {
      ApplyAt(g, HTunnel(x1, x2, y), px, py);
      ApplyAt(g, HTunnel(x2, x1, y), px, py);
    }
    GridExt(a, b);
  }

  /** A vertical tunnel does not depend on the order of its endpoints. */
  lemma VTunnelSymmetric(g: Grid, y1: I32, y2: I32, x: I32)
    ensures Apply(g, VTunnel(y1, y2, x)) == Apply(g, VTunnel(y2, y1, x))
  {
    var a, b := Apply(g, VTunnel(y1, y2, x)), Apply(g, VTunnel(y2, y1, x));
    forall px, py | 0 <= px < |a| && 0 <= py < |a[px]|
      ensures a[px][py] == b[px][py]
    {
      ApplyAt(g, VTunnel(y1, y2, x), px, py);
      ApplyAt(g, VTunnel(y2, y1, x), px, py);
    }
    GridExt(a, b);
  }

  /** If every cell of `tiles` is what carving `c` into `before` gives, the whole map is
      that carve. */
  lemma CarvedCells(tiles: array2<Tile>, before: Grid, c: Carve)
    requires |before| == tiles.Length0 && Columns(before, tiles.Length1)
    requires forall x, y :: 0 <= x < tiles.Length0 && 0 <= y < tiles.Length1 ==>
               tiles[x, y] == if Opens(c, x, y) then Empty() else before[x][y]
    ensures Cells(tiles) == Apply(before, c)
  {
    forall x, y | 0 <= x < tiles.Length0 && 0 <= y < tiles.Length1
      ensures Cells(tiles)[x][y] == Apply(before, c)[x][y]
    {
      ApplyAt(before, c, x, y);
    }
    GridExt(Cells(tiles), Apply(before, c));
  }

  /** What `create_room` demands so that every `i32` sum it computes fits and every cell
      it writes is inside a `w` by `h` map. The interior rows are only computed once a
      column is visited, and nothing is written when either range is empty. */
  predicate RoomFits(room: Rect, w: int, h: int) {
    && room.x1 < I32Max
    && (room.x1 + 1 < room.x2 ==> room.y1 < I32Max)
    && (room.x1 + 1 < room.x2 && room.y1 + 1 < room.y2 ==>
          0 <= room.x1 + 1 && room.x2 <= w && 0 <= room.y1 + 1 && room.y2 <= h)
  }

  /** What `create_h_tunnel` demands: the exclusive bound `max + 1` fits in `i32` and
      the whole run, which always holds at least one cell, is inside the tiles. */
  predicate HTunnelFits(x1: int, x2: int, y: int, w: int, h: int) {
    Max(x1, x2) < I32Max && 0 <= Min(x1, x2) && Max(x1, x2) < w && 0 <= y < h
  }

  /** What `create_v_tunnel` demands, symmetrically. */
  predicate VTunnelFits(y1: int, y2: int, x: int, w: int, h: int) {
    Max(y1, y2) < I32Max && 0 <= Min(y1, y2) && Max(y1, y2) < h && 0 <= x < w
  }

  /** `create_room`: empties the open interior of `room`; the rectangle's own boundary
      rows and columns and everything outside it keep their tiles. */
  method CreateRoom(room: Rect, tiles: array2<Tile>)
    requires RoomFits(room, tiles.Length0, tiles.Length1)
    modifies tiles
    ensures forall x, y :: 0 <= x < tiles.Length0 && 0 <= y < tiles.Length1 ==>
              tiles[x, y] == if room.x1 < x < room.x2 && room.y1 < y < room.y2 then Empty() else old(tiles[x, y])
    ensures Cells(tiles) == Apply(old(Cells(tiles)), Room(room))
  {
    ghost var before := Cells(tiles);
    var x := room.x1 + 1;
    while x < room.x2
      invariant room.x1 + 1 <= x && (x == room.x1 + 1 || x <= room.x2)
      invariant forall i, j :: 0 <= i < tiles.Length0 && 0 <= j < tiles.Length1 ==>
                  tiles[i, j] == if room.x1 < i < x && room.y1 < j < room.y2 then Empty() else old(tiles[i, j])
    {
      var y := room.y1 + 1;
      while y < room.y2
        invariant room.y1 + 1 <= y && (y == room.y1 + 1 || y <= room.y2)
        invariant forall i, j :: 0 <= i < tiles.Length0 && 0 <= j < tiles.Length1 ==>
                    tiles[i, j] == if (room.x1 < i < x && room.y1 < j < room.y2) || (i == x && room.y1 < j < y)
                                 then Empty() else old(tiles[i, j])
      {
        tiles[x, y] := Empty();
        y := y + 1;
      }
      x := x + 1;
    }
    CarvedCells(tiles, before, Room(room));
  }

  /** `create_h_tunnel`: empties row `y` from `min(x1, x2)` to `max(x1, x2)` inclusive
      and leaves every other cell as it was. */
  method CreateHTunnel(x1: I32, x2: I32, y: I32, tiles: array2<Tile>)
    requires HTunnelFits(x1, x2, y, tiles.Length0, tiles.Length1)
    modifies tiles
    ensures forall px, py :: 0 <= px < tiles.Length0 && 0 <= py < tiles.Length1 ==>
              tiles[px, py] == if py == y && Min(x1, x2) <= px <= Max(x1, x2) then Empty() else old(tiles[px, py])
    ensures Cells(tiles) == Apply(old(Cells(tiles)), HTunnel(x1, x2, y))
  {
    ghost var before := Cells(tiles);
    var x := Min(x1, x2);
    while x < Max(x1, x2) + 1
      invariant Min(x1, x2) <= x <= Max(x1, x2) + 1
      invariant forall px, py :: 0 <= px < tiles.Length0 && 0 <= py < tiles.Length1 ==>
                  tiles[px, py] == if py == y && Min(x1, x2) <= px < x then Empty() else old(tiles[px, py])
    {
      tiles[x, y] := Empty();
      x := x + 1;
    }
    CarvedCells(tiles, before, HTunnel(x1, x2, y));
  }

  /** `create_v_tunnel`: empties column `x` from `min(y1, y2)` to `max(y1, y2)`
      inclusive and leaves every other cell as it was. */
  method CreateVTunnel(y1: I32, y2: I32, x: I32, tiles: array2<Tile>)
    requires VTunnelFits(y1, y2, x, tiles.Length0, tiles.Length1)
    modifies tiles
    ensures forall px, py :: 0 <= px < tiles.Length0 && 0 <= py < tiles.Length1 ==>
              tiles[px, py] == if px == x && Min(y1, y2) <= py <= Max(y1, y2) then Empty() else old(tiles[px, py])
    ensures Cells(tiles) == Apply(old(Cells(tiles)), VTunnel(y1, y2, x))
  {
    ghost var before := Cells(tiles);
    var y := Min(y1, y2);
    while y < Max(y1, y2) + 1
      invariant Min(y1, y2) <= y <= Max(y1, y2) + 1
      invariant forall px, py :: 0 <= px < tiles.Length0 && 0 <= py < tiles.Length1 ==>
                  tiles[px, py] == if px == x && Min(y1, y2) <= py < y then Empty() else old(tiles[px, py])
    {
      tiles[x, y] := Empty();
      y := y + 1;
    }
    CarvedCells(tiles, before, VTunnel(y1, y2, x));
  }

  /** The two rooms of the generated map. */
  const Room1: Rect := NewRect(20, 15, 10, 15)
  const Room2: Rect := NewRect(50, 15, 10, 15)

  /** The generated map as a value: an 80 by 45 all-wall grid, then the two rooms and
      the horizontal tunnel from column 25 to 55 along row 23, in that order. */
  function Layout(): Grid {
    Script(AllWall(MapWidth, MapHeight))
  }

  /** The carve script of `make_map`: the two rooms, then the tunnel, applied to `g`. */
  function Script(g: Grid): Grid {
    Apply(Apply(Apply(g, Room(Room1)), Room(Room2)), HTunnel(25, 55, 23))
  }

  /** The open cells of the generated map, written out in coordinates: the interior
      of the first room, the interior of the second, and the tunnel. */
  predicate LayoutOpen(x: int, y: int) {
    || (20 < x < 30 && 15 < y < 30)
    || (50 < x < 60 && 15 < y < 30)
    || (25 <= x <= 55 && y == 23)
  }

  /** The generated map has the open cells and only those; every other cell is a wall. */
  lemma LayoutCells(x: int, y: int)
    requires 0 <= x < MapWidth && 0 <= y < MapHeight
    ensures |Layout()| == MapWidth && Columns(Layout(), MapHeight)
    ensures Layout()[x][y] == if LayoutOpen(x, y) then Empty() else Wall()
  {
    var g0 := AllWall(MapWidth, MapHeight);
    var g1 := Apply(g0, Room(Room1));
    var g2 := Apply(g1, Room(Room2));
    ApplyAt(g0, Room(Room1), x, y);
    ApplyAt(g1, Room(Room2), x, y);
    ApplyAt(g2, HTunnel(25, 55, 23), x, y);
  }

  /** Running the generation script again over the generated map changes nothing. */
  lemma ScriptIdempotent()
    ensures Script(Layout()) == Layout()
  {
    var g := Layout();
    var g1 := Apply(g, Room(Room1));
    var g2 := Apply(g1, Room(Room2));
    forall x, y | 0 <= x < |Script(g)| && 0 <= y < |Script(g)[x]|
      ensures Script(g)[x][y] == g[x][y]
    {
      LayoutCells(x, y);
      ApplyAt(g, Room(Room1), x, y);
      ApplyAt(g1, Room(Room2), x, y);
      ApplyAt(g2, HTunnel(25, 55, 23), x, y);
    }
    GridExt(Script(g), g);
  }

  /** `make_map`: builds the 80 by 45 map of the game. A cell is blocked exactly when
      it is in neither room interior nor on the tunnel, and every tile blocks sight
      exactly when it blocks movement. */
  method MakeMap() returns (tiles: array2<Tile>)
    ensures fresh(tiles)
    ensures tiles.Length0 == MapWidth && tiles.Length1 == MapHeight
    ensures Cells(tiles) == Layout()
    ensures forall x, y :: 0 <= x < MapWidth && 0 <= y < MapHeight ==>
              tiles[x, y] == if LayoutOpen(x, y) then Empty() else Wall()
    ensures forall x, y :: 0 <= x < MapWidth && 0 <= y < MapHeight ==>
              tiles[x, y].blocked == !LayoutOpen(x, y) && tiles[x, y].blocked == tiles[x, y].blockSight
  {
    tiles := new Tile[MapWidth, MapHeight]((_, _) => Wall());
    GridExt(Cells(tiles), AllWall(MapWidth, MapHeight));
    var room1 := NewRect(20, 15, 10, 15);
    var room2 := NewRect(50, 15, 10, 15);
    CreateRoom(room1, tiles);
    CreateRoom(room2, tiles);
    CreateHTunnel(25, 55, 23, tiles);
    forall x, y | 0 <= x < MapWidth && 0 <= y < MapHeight
      ensures tiles[x, y] == if LayoutOpen(x, y) then Empty() else Wall()
    {
      LayoutCells(x, y);
    }
  }
}
