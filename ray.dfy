/** src/math/Ray.cs: an immutable (origin, direction) pair. */
module Rays {
  import opened Vectors

  datatype Ray = Ray(origin: Vector3, direction: Vector3) {

    /** `origin + t * direction`, the point the intersection routines compute. */
    function PointAt(t: real): Vector3
    {
      origin.Plus(ScalarTimes(t, direction))
    }
  }
}
