# Dungeon core of rust-game, modelled in Dafny

This project models the core of a small tile-based dungeon game and proves facts about it. The map is an 80 by 45 grid of tiles; a tile blocks movement and sight or it does not. The map is generated from an all-wall grid: two rooms are carved out, then a horizontal tunnel joins them. Entities move one step at a time and refuse to step onto a blocked tile. Each frame paints the terrain into the background layer of an off-screen console, then draws every entity's glyph over it in sequence order.

Layout of the model (one module per component):

- `ints.dfy` (`Ints`): `i32` coordinates, overflow guards, `min` and `max`.
- `tiles.dfy` (`Tiles`): `Tile`, `Empty()`, `Wall()`, and the map dimensions.
- `rects.dfy` (`Rects`): `Rect` and `Rect::new`.
- `grids.dfy` (`Grids`): the map as a value (`Grid = seq<seq<Tile>>`, indexed `g[x][y]` like the game's `Vec<Vec<Tile>>`). It also holds the abstraction `Cells` of a map `array2<Tile>`.
- `carving.dfy` (`Carving`): the carve operations. Each is a value-level function (`Apply` of a `Carve`) and an in-place method on the `array2` (`CreateRoom`, `CreateHTunnel`, `CreateVTunnel`). Each method is proved equal to its function. The module also holds `make_map` and the generated layout.
- `colours.dfy`, `console.dfy` (`Colours`, `Console`): colours and an abstract console `Frame`. The frame has a background-colour grid, a glyph/foreground grid, and the default foreground colour.
- `objects.dfy` (`Objects`): the `Object` class with `move_by` and `draw`.
- `render.dfy` (`Render`): the two passes of `render_all`.
- `input.dfy` (`Input`): the key-to-outcome table of `handle_keys`, and `handle_keys` for a key that has already been read.
- `game.dfy` (`Game`): facts about the assembled game. These are the walled border, safe steps from open floor, the start positions, and one player turn.

The map array is indexed `tiles[x, y]`, with `Length0` the width and `Length1` the height. The `Game` struct has a single field, the map, so the model passes that array directly. Every out-of-range index the game would panic on is a `requires` clause. So is every `i32` addition that would overflow in a debug build.

Two points where the model follows the code rather than a more general reading of the game:

- The generator applies a fixed script (two rooms, one tunnel). The `Carve` datatype describes single carves so that they can be compared; re-running the fixed script is proved idempotent, and no claim is made about arbitrary lists of carves.
- `draw` does not write a per-cell foreground directly. It sets the console's default foreground colour and then puts the glyph, which takes that colour. The model keeps both steps, and the frame's `defaultForeground` is left at the last entity's colour.

## Model

| member | source | states |
|---|---|---|
| `Ints.Min` | src/main.rs:107 | the result is at most both arguments and is one of them |
| `Ints.Max` | src/main.rs:107 | the result is at least both arguments and is one of them |
| `Tiles.CanonicalTiles` | src/main.rs:62-74 | the empty tile blocks neither movement nor sight, the wall blocks both, and they differ |
| `Rects.NewRect` | src/main.rs:87-94 | the corners are the origin and the origin plus the size; the carvable interior is exactly the open box x < px < x + w, y < py < y + h |
| `Grids.AllWall` | src/main.rs:127-131 | a w by h grid whose every cell is a wall |
| `Carving.Apply` | src/main.rs:98-116 | a carve keeps the map's width and every column's height |
| `Carving.ApplyNeverWalls` | src/main.rs:98-116 | a carve only writes the empty tile: an empty cell stays empty and a blocked result was already blocked |
| `Carving.ApplyIdempotent` | src/main.rs:98-116 | carving the same room or tunnel twice gives the same map as carving it once |
| `Carving.ApplyCommutes` | src/main.rs:140-142 | swapping the order of two carves does not change the map |
| `Carving.HTunnelSymmetric` | src/main.rs:106-110 | a horizontal tunnel gives the same map with its endpoints swapped |
| `Carving.VTunnelSymmetric` | src/main.rs:112-116 | a vertical tunnel gives the same map with its endpoints swapped |
| `Carving.CreateRoom` | src/main.rs:98-104 | cells strictly inside the room become empty; the room's boundary rows and columns and all other cells are unchanged; the map equals the room carve applied to the old map |
| `Carving.CreateHTunnel` | src/main.rs:106-110 | on row y, cells from min(x1, x2) to max(x1, x2) inclusive become empty and all others are unchanged; the map equals the tunnel carve applied to the old map |
| `Carving.CreateVTunnel` | src/main.rs:112-116 | on column x, cells from min(y1, y2) to max(y1, y2) inclusive become empty and all others are unchanged; the map equals the tunnel carve applied to the old map |
| `Carving.LayoutCells` | src/main.rs:126-145 | in the generated map a cell is empty exactly when it is in the interior 21..29 x 16..29, in the interior 51..59 x 16..29, or on the tunnel 25..55 x 23; every other cell is a wall |
| `Carving.ScriptIdempotent` | src/main.rs:138-142 | running the two room carves and the tunnel carve of the generation script again over the generated map gives the same map |
| `Carving.MakeMap` | src/main.rs:126-145 | returns a fresh 80 by 45 map equal to the generated layout; a cell is blocked exactly when it is in no room interior and not on the tunnel; every tile blocks sight exactly when it blocks movement |
| `Objects.Object.constructor` | src/main.rs:36-38 | the new entity has the given position, glyph and colour |
| `Objects.Object.MoveBy` | src/main.rs:40-45 | when the destination tile is not blocked the position becomes exactly (x + dx, y + dy), otherwise it is unchanged; glyph, colour and map are untouched; an entity on an open cell stays on an open cell |
| `Objects.Object.Draw` | src/main.rs:47-50 | the console's default foreground becomes the entity's colour and the entity's cell shows its glyph in that colour; no other cell changes |
| `Render.LastAt` | src/main.rs:191-193 | gives the index of an entity standing on the cell with no later entity there, or none when no entity stands there |
| `Render.RenderBackground` | src/main.rs:177-190 | every cell of the 80 by 45 map gets the dark-wall background when its tile blocks sight and the dark-ground background otherwise; cells beyond the map are unchanged |
| `Render.RenderEntities` | src/main.rs:191-193 | every cell ends with the glyph and colour of the last entity in the sequence standing on it, and cells with no entity keep their old contents |
| `Render.RenderAll` | src/main.rs:175-194 | the background layer follows the terrain and the glyph layer follows the last entity on each cell |
| `Input.KeyOutcome` | src/main.rs:153-169 | Alt+Enter toggles full screen, Escape exits, Up, Down, Left and Right step by (0,-1), (0,1), (-1,0), (1,0), and no other key moves; every move is a single orthogonal unit step |
| `Input.HandleKeys` | src/main.rs:148-172 | reports exit exactly for Escape; an arrow key moves the player by its delta when the destination is open and otherwise leaves the player in place; any other key leaves the player in place |
| `Game.LayoutBorderWalled` | src/main.rs:126-145 | every cell on the outermost rows and columns of the generated map is a wall |
| `Game.LayoutStepFits` | src/main.rs:40-45 | from an open cell of the generated map, every step a key can request lands inside the map, so the unchecked tile lookup stays in bounds |
| `Game.StartPositions` | src/main.rs:226-227 | the player starts on open floor at (25, 23); the other entity starts at (35, 25), which is a wall |
| `Game.PlayerTurn` | src/main.rs:241-246 | on the generated map, a player on open floor is still on open floor after any key, and exit is reported exactly for Escape |

## Left out

- The game loop, window creation, fonts, the window title, frame pacing and `window_closed`/`flush` (src/main.rs:208-248). These are presentation-backend I/O. `Game.PlayerTurn` covers only one turn's input step.
- Reading the key (`wait_for_keypress`). The key is a parameter of `Input.HandleKeys`.
- Input.HandleKeys: does not model the full-screen toggle. `is_fullscreen` and `set_fullscreen` are foreign console calls. The model computes that the outcome is a toggle and changes no game state.
- The final `blit` of the off-screen console onto the root console with `f32` opacity (src/main.rs:196-204). It is a float-parameterised library call whose behaviour is not visible here.
- `con.clear()` and the real semantics of the console library. They are replaced by the abstract `Console.Frame`. The abstract frame's `SetCharBackground` and `PutChar` require in-range cells, because the library's handling of out-of-range cells is not visible here.
- Colour arithmetic. Colours are opaque RGB triples; only the two background constants are used.
- Panics on out-of-range indexing, including negative `i32` values cast with `as usize`. They appear as preconditions, not as error results.
- Release-build wrap-around of `i32` additions. The preconditions require the sums that debug builds check (`x + w`, `x1 + 1`, `max + 1`, `x + dx`) to fit in `i32`.
- The commented-out wall-punch layout (src/main.rs:134-135). It is not live code.
- The entity array is modelled as a sequence of `Object` references. The game holds its entities by value in a fixed-size array.
- Carve lists in general. The only list the game applies is the fixed script of `make_map`, and only that script is proved idempotent (`Carving.ScriptIdempotent`).
