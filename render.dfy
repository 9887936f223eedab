/** Compositing one frame: terrain into the background layer, then every entity, in
    sequence order, into the glyph layer. */
module Render {
  import opened Tiles
  import opened Colours
  import opened Console
  import opened Objects

  datatype Option<T> = None | Some(value: T)

  /** True when entity `o` stands on cell (x, y). */
  predicate At(o: Object, x: int, y: int)
    reads o
  {
    o.x == x && o.y == y
  }

  /** The index of the last entity of `objects` standing on (x, y), if any. */
  function LastAt(objects: seq<Object>, x: int, y: int): (r: Option<nat>)
    reads objects
    ensures r.Some? ==> r.value < |objects| && At(objects[r.value], x, y)
    ensures r.Some? ==> forall j :: r.value < j < |objects| ==> !At(objects[j], x, y)
    ensures r.None? ==> forall j :: 0 <= j < |objects| ==> !At(objects[j], x, y)
  {
    if objects == [] then None
    else if At(objects[|objects| - 1], x, y) then Some(|objects| - 1)
    else LastAt(objects[..|objects| - 1], x, y)
  }

  /** The glyph layer at (x, y) once `objects` are drawn over `under`: the glyph and
      colour of the last entity there, or `under` when no entity stands there. */
  function DrawnCell(objects: seq<Object>, x: int, y: int, under: Cell): Cell
    reads objects
  {
    match LastAt(objects, x, y)
    case Some(k) => Cell(objects[k].glyph, objects[k].color)
    case None => under
  }

  /** The background pass of `render_all`: every map cell is painted the dark-wall
      colour when its tile blocks sight and the dark-ground colour otherwise. */
  method RenderBackground(con: Frame, tiles: array2<Tile>)
    requires MapWidth <= tiles.Length0 && MapHeight <= tiles.Length1
    requires MapWidth <= con.background.Length0 && MapHeight <= con.background.Length1
    modifies con.background
    ensures forall x, y :: 0 <= x < MapWidth && 0 <= y < MapHeight ==>
              con.background[x, y] == if tiles[x, y].blockSight then ColourDarkWall else ColourDarkGround
    ensures forall x, y :: 0 <= x < con.background.Length0 && 0 <= y < con.background.Length1 && !(x < MapWidth && y < MapHeight)
              ==> con.background[x, y] == old(con.background[x, y])
  {
    var y := 0;
    while y < MapHeight
      invariant 0 <= y <= MapHeight
      invariant forall i, j :: 0 <= i < con.background.Length0 && 0 <= j < con.background.Length1 ==>
                  con.background[i, j] == if i < MapWidth && j < y
                                          then (if tiles[i, j].blockSight then ColourDarkWall else ColourDarkGround)
                                          else old(con.background[i, j])
    {
      var x := 0;
      while x < MapWidth
        invariant 0 <= x <= MapWidth
        invariant forall i, j :: 0 <= i < con.background.Length0 && 0 <= j < con.background.Length1 ==>
                    con.background[i, j] == if (i < MapWidth && j < y) || (i < x && j == y)
                                            then (if tiles[i, j].blockSight then ColourDarkWall else ColourDarkGround)
                                            else old(con.background[i, j])
      {
        var wall := tiles[x, y].blockSight;
        if wall {
          con.SetCharBackground(x, y, ColourDarkWall);
        } else {
          con.SetCharBackground(x, y, ColourDarkGround);
        }
        x := x + 1;
      }
      y := y + 1;
    }
  }

  /** The entity pass of `render_all`: draws every entity in sequence order, so each
      cell ends with the glyph and colour of the last entity standing on it. */
  method RenderEntities(con: Frame, objects: seq<Object>)
    requires forall k :: 0 <= k < |objects| ==>
               0 <= objects[k].x < con.cells.Length0 && 0 <= objects[k].y < con.cells.Length1
    modifies con`defaultForeground, con.cells
    ensures forall x, y :: 0 <= x < con.cells.Length0 && 0 <= y < con.cells.Length1 ==>
              con.cells[x, y] == DrawnCell(objects, x, y, old(con.cells[x, y]))
    ensures |objects| > 0 ==> con.defaultForeground == objects[|objects| - 1].color
  {
    for i := 0 to |objects|
      invariant forall x, y :: 0 <= x < con.cells.Length0 && 0 <= y < con.cells.Length1 ==>
                  con.cells[x, y] == DrawnCell(objects[..i], x, y, old(con.cells[x, y]))
      invariant i > 0 ==> con.defaultForeground == objects[i - 1].color
    {
      objects[i].Draw(con);
      assert objects[..i + 1][..i] == objects[..i];
    }
    assert objects[..|objects|] == objects;
  }

  /** `render_all` without the final blit: the background pass, then the entity pass.
      Terrain decides the background layer and entities decide the glyph layer. */
  method RenderAll(con: Frame, tiles: array2<Tile>, objects: seq<Object>)
    requires MapWidth <= tiles.Length0 && MapHeight <= tiles.Length1
    requires MapWidth <= con.background.Length0 && MapHeight <= con.background.Length1
    requires forall k :: 0 <= k < |objects| ==>
               0 <= objects[k].x < con.cells.Length0 && 0 <= objects[k].y < con.cells.Length1
    modifies con`defaultForeground, con.background, con.cells
    ensures forall x, y :: 0 <= x < MapWidth && 0 <= y < MapHeight ==>
              con.background[x, y] == if tiles[x, y].blockSight then ColourDarkWall else ColourDarkGround
    ensures forall x, y :: 0 <= x < con.cells.Length0 && 0 <= y < con.cells.Length1 ==>
              con.cells[x, y] == DrawnCell(objects, x, y, old(con.cells[x, y]))
  {
    RenderBackground(con, tiles);
    RenderEntities(con, objects);
  }
}
