/** Point lights: a position and an intensity, with no size. */
module Lights {
  import opened Tuples
  import opened Colors

  /** `point_light(position, intensity)` stores both values unchanged. */
  datatype PointLight = PointLight(position: Tuple, intensity: Color)
}
