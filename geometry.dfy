/**
 * The message types the footprint code exchanges: a three-dimensional point
 * (double precision in ROS) and its single-precision variant that polygons
 * carry. Floating-point values are modelled as reals.
 */
module Geometry {

  datatype Point = Point(x: real, y: real, z: real)

  datatype Point32 = Point32(x: real, y: real, z: real)

  /** A polygon message is its ordered list of corner points. */
  type Polygon = seq<Point32>

}
