/** Colours, as the red, green and blue bytes of the console library's colour type. */
module Colours {
  type Byte = v: int | 0 <= v < 256

  datatype Colour = Colour(r: Byte, g: Byte, b: Byte)

  /** Background of a sight-blocking cell. */
  const ColourDarkWall: Colour := Colour(0, 0, 100)
  /** Background of every other cell. */
  const ColourDarkGround: Colour := Colour(50, 50, 150)
}
