/** The atomic cell state of the dungeon and the fixed map dimensions. */
module Tiles {
  /** Number of columns of the map (the outer index `x`). */
  const MapWidth: nat := 80
  /** Number of rows of the map (the inner index `y`). */
  const MapHeight: nat := 45

  datatype Tile = Tile(blocked: bool, blockSight: bool)

  /** Open floor: neither blocks movement nor sight. */
  function Empty(): Tile {
    Tile(blocked := false, blockSight := false)
  }

  /** Solid rock: blocks movement and sight. */
  function Wall(): Tile {
    Tile(blocked := true, blockSight := true)
  }

  /** The two canonical tiles are distinct, and each agrees on its two flags. */
  lemma CanonicalTiles()
    ensures !Empty().blocked && !Empty().blockSight
    ensures Wall().blocked && Wall().blockSight
    ensures Empty() != Wall()
  {
  }
}
