/** A half-line: origin plus a multiple of the direction. */
module Rays {
  import opened Matrices

  /** The normalising constructor is not modelled: `direction` is kept as
      given, which is all the exact model relies on. */
  datatype Ray = Ray(origin: Vector3, direction: Vector3)

  /** Ray::at(t) = origin + direction * t. */
  function At(r: Ray, t: real): (p: Vector3)
    ensures forall i | 0 <= i < 3 :: p.data[i] == r.origin.data[i] + r.direction.data[i] * t
  {
    var p := Add(r.origin, Scale(r.direction, t));
    p
  }
}
