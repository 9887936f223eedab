/** Turning one decoded key press into its effect on the game. */
module Input {
  import opened Ints
  import opened Tiles
  import opened Objects

  /** The key codes the game reacts to; every other code is `OtherKey`. */
  datatype KeyCode = Enter | Escape | Up | Down | Left | Right | OtherKey(id: nat)

  datatype Key = Key(code: KeyCode, alt: bool, ctrl: bool, shift: bool)

  /** What a key press asks for. */
  datatype Outcome = ToggleFullscreen | Exit | Move(dx: I32, dy: I32) | NoEffect

  /** The `match` of `handle_keys`, first matching arm first: Alt+Enter toggles full
      screen, Escape exits, the four arrows step one cell (modifiers ignored), and any
      other key does nothing. */
  function KeyOutcome(key: Key): (r: Outcome)
    ensures r == ToggleFullscreen <==> key.code == Enter && key.alt
    ensures r == Exit <==> key.code == Escape
    ensures r.Move? <==> key.code == Up || key.code == Down || key.code == Left || key.code == Right
    ensures key.code == Up ==> r == Move(0, -1)
    ensures key.code == Down ==> r == Move(0, 1)
    ensures key.code == Left ==> r == Move(-1, 0)
    ensures key.code == Right ==> r == Move(1, 0)
    ensures r.Move? ==> (r.dx == 0) != (r.dy == 0) && -1 <= r.dx <= 1 && -1 <= r.dy <= 1
  {
    match key
    case Key(Enter, true, _, _) => ToggleFullscreen
    case Key(Escape, _, _, _) => Exit
    case Key(Up, _, _, _) => Move(0, -1)
    case Key(Down, _, _, _) => Move(0, 1)
    case Key(Left, _, _, _) => Move(-1, 0)
    case Key(Right, _, _, _) => Move(1, 0)
    case _ => NoEffect
  }

  /** The destination of a move requested by `key` from (x, y) is a valid `i32` pair
      inside the map; a key that requests no move needs nothing. */
  predicate StepFits(key: Key, x: int, y: int, width: int, height: int) {
    var o := KeyOutcome(key);
    o.Move? ==> InI32(x + o.dx) && InI32(y + o.dy) && 0 <= x + o.dx < width && 0 <= y + o.dy < height
  }

  /** `handle_keys` for an already-read key: reports whether the player asked to exit
      and, for an arrow key, moves the player character by its delta unless the
      destination is blocked. Toggling full screen changes no game state. */
  method HandleKeys(key: Key, pc: Object, tiles: array2<Tile>) returns (exit: bool)
    requires StepFits(key, pc.x, pc.y, tiles.Length0, tiles.Length1)
    modifies pc`x, pc`y
    ensures exit <==> key.code == Escape
    ensures var o := KeyOutcome(key);
      o.Move? && !tiles[old(pc.x) + o.dx, old(pc.y) + o.dy].blocked ==>
        pc.x == old(pc.x) + o.dx && pc.y == old(pc.y) + o.dy
    ensures var o := KeyOutcome(key);
      !o.Move? || tiles[old(pc.x) + o.dx, old(pc.y) + o.dy].blocked ==>
        pc.x == old(pc.x) && pc.y == old(pc.y)
    ensures unchanged(tiles)
  {
    exit := false;
    match KeyOutcome(key)
    case ToggleFullscreen =>
    case Exit =>
      exit := true;
    case Move(dx, dy) =>
      pc.MoveBy(dx, dy, tiles);
    case NoEffect =>
  }
}
