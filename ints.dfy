/** Signed 32-bit integers as the game uses them for coordinates and deltas, and the
    `std::cmp::min` / `std::cmp::max` helpers the tunnel carvers call. */
module Ints {
  const I32Min: int := -0x8000_0000
  const I32Max: int := 0x7fff_ffff

  /** A value of Rust's `i32`. */
  type I32 = v: int | -0x8000_0000 <= v <= 0x7fff_ffff

  /** `v` is representable as an `i32`: an `i32` addition whose exact sum fails this
      overflows (a panic in a debug build). */
  predicate InI32(v: int) {
    I32Min <= v <= I32Max
  }

  function Min(a: int, b: int): (r: int)
    ensures r <= a && r <= b
    ensures r == a || r == b
  {
    if a <= b then a else b
  }

  function Max(a: int, b: int): (r: int)
    ensures a <= r && b <= r
    ensures r == a || r == b
  {
    if a <= b then b else a
  }
}
