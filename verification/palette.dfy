/**
 * The colours the piano paints with. The controller's `colors` table and a
 * white key's `colorsW` table hold the same seven pastel literals, so both
 * are `Pastels`; black keys light up in the five darker `Shades`.
 */
module Palette {

  /** A colour literal: red, green, blue and alpha components in [0, 1]. */
  datatype Rgba = Rgba(r: real, g: real, b: real, a: real)

  const Pastels: seq<Rgba> := [
    Rgba(0.4745098054, 0.8392156959, 0.9764705896, 1.0),
    Rgba(0.5568627715, 0.5, 0.9686274529, 1.0),
    Rgba(0.9098039269, 0.4784313738, 0.6431372762, 1.0),
    Rgba(0.9568627477, 0.6588235497, 0.5450980663, 1.0),
    Rgba(0.9764705896, 0.850980401, 0.5490196347, 1.0),
    Rgba(0.721568644, 0.8862745166, 0.5921568871, 1.0),
    Rgba(0.8156862745, 0.7853227123, 0.6800557263, 1.0)
  ]

  const Shades: seq<Rgba> := [
    Rgba(0.2002224392, 0.3964301215, 0.4489746094, 1.0),
    Rgba(0.2336968316, 0.2266438802, 0.4402126736, 1.0),
    Rgba(0.4311794705, 0.1903211806, 0.2878960503, 1.0),
    Rgba(0.4797092014, 0.3942599826, 0.2457953559, 1.0),
    Rgba(0.3425835503, 0.408203125, 0.2745225694, 1.0)
  ]

  /** `UIColor.white`, `UIColor.black` and `UIColor.lightGray` (white level 2/3). */
  const White := Rgba(1.0, 1.0, 1.0, 1.0)
  const Black := Rgba(0.0, 0.0, 0.0, 1.0)
  const LightGray := Rgba(2.0 / 3.0, 2.0 / 3.0, 2.0 / 3.0, 1.0)

  /** The colour of a song-table row and of the play button once that row is chosen. */
  function RowColour(row: nat): (c: Rgba)
    ensures c in Pastels
    ensures row < |Pastels| ==> c == Pastels[row]
  {
    Pastels[row % 7]
  }
}
