/** Ray hits and the scene-primitive capability. */
module Objects {
  import opened Matrices
  import opened Base
  import opened Rays
  import opened Boxes
  import opened Materials
  import opened Options

  /** The record of one ray hit. */
  datatype Intersection = Intersection(happened: bool, p: Vector3, normal: Vector3,
                                       material: Option<Material>, t: real, frontFace: bool)

  /** The default Intersection: no hit at the largest double distance.  The
      point and normal are zero (the matrix default constructor), the material
      pointer is null, and the front-face flag, which the source leaves
      uninitialised, is false. */
  const NoHit: Intersection :=
    Intersection(false, Vec3(0.0, 0.0, 0.0), Vec3(0.0, 0.0, 0.0), None, DoubleMax, false)

  lemma NoHitIsEmpty()
    ensures !NoHit.happened && NoHit.t == DoubleMax && NoHit.material.None?
  {}

  /** SetFaceNormal: store the normal that faces against the ray, and whether
      the ray hit the outer side. */
  function SetFaceNormal(inter: Intersection, r: Ray, outward: Vector3): (res: Intersection)
    ensures res.frontFace <==> Dot(r.direction, outward) < 0.0
    ensures res.normal == outward || res.normal == Neg(outward)
    ensures Dot(r.direction, res.normal) <= 0.0
    ensures res.happened == inter.happened && res.p == inter.p
    ensures res.material == inter.material && res.t == inter.t
  {
    var front := Dot(r.direction, outward) < 0.0;
    DotNegRight(r.direction, outward);
    inter.(frontFace := front, normal := if front then outward else Neg(outward))
  }

  /** A scene primitive as the renderer sees it: its box, its surface area, its
      material, a hit oracle Intersect(ray, t_min, t_max), and an area-uniform
      surface sampler Sample(inter, pdf) that returns the updated pair. */
  datatype Primitive = Primitive(
    box: Box,
    area: real,
    material: Material,
    hit: (Ray, real, real) -> Intersection,
    sample: (Intersection, real) -> (Intersection, real))

  /** The primitive's material has emission. */
  predicate Emissive(p: Primitive)
  {
    HasEmission(p.material)
  }
}
