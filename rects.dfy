/** Axis-aligned rectangles, the footprint of a room. */
module Rects {
  import opened Ints

  /** Corner coordinates; the carved interior is the open range (x1, x2) x (y1, y2). */
  datatype Rect = Rect(x1: I32, y1: I32, x2: I32, y2: I32)

  /** True when (x, y) lies strictly inside `r`, off its boundary rows and columns. */
  predicate InInterior(r: Rect, x: int, y: int) {
    r.x1 < x < r.x2 && r.y1 < y < r.y2
  }

  /** `Rect::new`: a rectangle from its origin and its size. The sums are `i32`
      additions, so they must not overflow. */
  function NewRect(x: I32, y: I32, w: I32, h: I32): (r: Rect)
    requires InI32(x + w) && InI32(y + h)
    ensures r.x1 == x && r.y1 == y
    ensures r.x2 - r.x1 == w && r.y2 - r.y1 == h
    ensures forall px, py :: InInterior(r, px, py) <==> x < px < x + w && y < py < y + h
  {
    Rect(x, y, x + w, y + h)
  }
}
