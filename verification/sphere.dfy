/** The sphere primitive: ray intersection by the half-b quadratic formula,
    and its bounding box. */
module Spheres {
  import opened Matrices
  import opened Base
  import opened Rays
  import opened Boxes
  import opened Materials
  import opened Objects
  import opened Options

  datatype Sphere = Sphere(center: Vector3, radius: real, material: Material)

  /** The coefficients of a * t^2 + 2 * halfB * t + c = 0, whose roots are the
      parameters where the ray meets the sphere. */
  function Oc(s: Sphere, r: Ray): (v: Vector3) { Sub(r.origin, s.center) }

  function QuadA(r: Ray): (v: real) { LengthSquared(r.direction) }

  function HalfB(s: Sphere, r: Ray): (v: real) { Dot(Oc(s, r), r.direction) }

  function QuadC(s: Sphere, r: Ray): (v: real) { Dot(Oc(s, r), Oc(s, r)) - s.radius * s.radius }

  function Discriminant(s: Sphere, r: Ray): (v: real)
  {
    HalfB(s, r) * HalfB(s, r) - QuadA(r) * QuadC(s, r)
  }

  /** `sq` stands for sqrt(discriminant) whenever the discriminant is not
      negative; the square root itself is not modelled. */
  predicate IsSqrtOfDiscriminant(s: Sphere, r: Ray, sq: real)
  {
    Discriminant(s, r) >= 0.0 ==> sq >= 0.0 && sq * sq == Discriminant(s, r)
  }

  /** The two roots, nearer first. */
  function NearRoot(s: Sphere, r: Ray, sq: real): (v: real)
    requires QuadA(r) != 0.0
  {
    (-HalfB(s, r) - sq) / QuadA(r)
  }

  function FarRoot(s: Sphere, r: Ray, sq: real): (v: real)
    requires QuadA(r) != 0.0
  {
    (-HalfB(s, r) + sq) / QuadA(r)
  }

  /** The source rejects a root when `root < t_min || root > t_max`. */
  predicate InWindow(t: real, tMin: real, tMax: real)
  {
    !(t < tMin || t > tMax)
  }

  /** The hit record filled in for an accepted root. */
  function HitAt(s: Sphere, r: Ray, t: real): (v: Intersection)
    requires s.radius != 0.0
  {
    var p := At(r, t);
    var outward: Vector3 := Div(Sub(p, s.center), s.radius);
    SetFaceNormal(NoHit.(happened := true, t := t, p := p), r, outward).(material := Some(s.material))
  }

  /** Sphere::Intersect: no hit for a negative discriminant; otherwise the
      nearer root if it lies in [tMin, tMax], else the farther root if that
      does, else no hit. */
  function Intersect(s: Sphere, r: Ray, tMin: real, tMax: real, sq: real): (res: Intersection)
    requires QuadA(r) != 0.0 && s.radius != 0.0
    requires IsSqrtOfDiscriminant(s, r, sq)
    ensures Discriminant(s, r) < 0.0 ==> res == NoHit
    ensures !res.happened ==> res == NoHit
    ensures res.happened ==> tMin <= res.t <= tMax
    ensures res.happened ==> res.p == At(r, res.t) && res.material == Some(s.material)
    ensures Discriminant(s, r) >= 0.0 ==>
      (res.happened <==> InWindow(NearRoot(s, r, sq), tMin, tMax) || InWindow(FarRoot(s, r, sq), tMin, tMax))
    ensures res.happened && InWindow(NearRoot(s, r, sq), tMin, tMax) ==> res.t == NearRoot(s, r, sq)
    ensures res.happened && !InWindow(NearRoot(s, r, sq), tMin, tMax) ==> res.t == FarRoot(s, r, sq)
  {
    if Discriminant(s, r) < 0.0 then NoHit
    else
      var root := NearRoot(s, r, sq);
      if root < tMin || root > tMax then
        var root2 := FarRoot(s, r, sq);
        if root2 < tMin || root2 > tMax then NoHit
        else HitAt(s, r, root2)
      else HitAt(s, r, root)
  }

  /** The root tried first is never beyond the one tried second. */
  lemma NearRootIsNearer(s: Sphere, r: Ray, sq: real)
    requires QuadA(r) != 0.0 && sq >= 0.0
    ensures NearRoot(s, r, sq) <= FarRoot(s, r, sq)
  {
    var a, hb := QuadA(r), HalfB(s, r);
    DivideKeepsOrder(-hb - sq, -hb + sq, a);
  }

  /** Dividing by a positive number keeps the order. */
  lemma DivideKeepsOrder(n: real, f: real, a: real)
    requires a > 0.0 && n <= f
    ensures n / a <= f / a
  {
    var k := 1.0 / a;
    assert n / a == n * k && f / a == f * k;
    assert f * k - n * k == (f - n) * k;
  }

  /** If t * a is -hb - sq or -hb + sq with sq^2 = hb^2 - a c, then t solves
      a t^2 + 2 hb t + c = 0. */
  lemma QuadraticRoot(a: real, hb: real, c: real, sq: real, t: real)
    requires a != 0.0 && sq * sq == hb * hb - a * c
    requires t * a == -hb - sq || t * a == -hb + sq
    ensures a * t * t + 2.0 * hb * t + c == 0.0
  {
    var u := t * a;
    assert (u + hb) * (u + hb) == sq * sq;
    assert a * (a * t * t + 2.0 * hb * t + c) == u * u + 2.0 * hb * u + a * c;
    assert a * (a * t * t + 2.0 * hb * t + c) == 0.0;
    ProductZero(a, a * t * t + 2.0 * hb * t + c);
  }

  lemma DivTimes(n: real, a: real)
    requires a != 0.0
    ensures (n / a) * a == n
  {}

  lemma ProductZero(a: real, x: real)
    requires a != 0.0 && a * x == 0.0
    ensures x == 0.0
  {
    assert x == (a * x) / a;
  }

  lemma LengthSquared3(v: Vector3)
    ensures LengthSquared(v) == v.data[0] * v.data[0] + v.data[1] * v.data[1] + v.data[2] * v.data[2]
  {
    LengthSquaredIsDot(v);
    Dot3(v, v);
  }

  /** One coordinate of the point at t, measured from the center, squared. */
  lemma SquareAlong(o: real, d: real, t: real, x: real)
    requires x == o + d * t
    ensures x * x == o * o + 2.0 * t * (o * d) + t * t * (d * d)
  {}

  /** The squared distance a t^2 + 2 hb t + c + radius^2 in coordinates: a is
      the direction's squared length, hb the offset's dot product with the
      direction, c + radius^2 the offset's squared length. */
  lemma Assemble(o0: real, o1: real, o2: real, d0: real, d1: real, d2: real, x0: real, x1: real, x2: real,
                 t: real, a: real, hb: real, crr: real)
    requires x0 == o0 + d0 * t && x1 == o1 + d1 * t && x2 == o2 + d2 * t
    requires a == d0 * d0 + d1 * d1 + d2 * d2
    requires hb == o0 * d0 + o1 * d1 + o2 * d2
    requires crr == o0 * o0 + o1 * o1 + o2 * o2
    ensures x0 * x0 + x1 * x1 + x2 * x2 == a * t * t + 2.0 * hb * t + crr
  {
    SquareAlong(o0, d0, t, x0);
    SquareAlong(o1, d1, t, x1);
    SquareAlong(o2, d2, t, x2);
    assert a * t * t == t * t * (d0 * d0) + t * t * (d1 * d1) + t * t * (d2 * d2);
    assert 2.0 * hb * t == 2.0 * t * (o0 * d0) + 2.0 * t * (o1 * d1) + 2.0 * t * (o2 * d2);
  }

  /** Assemble, read off three coordinate vectors. */
  lemma AssembleVectors(o: Vector3, d: Vector3, x: Vector3, t: real)
    requires forall i | 0 <= i < 3 :: x.data[i] == o.data[i] + d.data[i] * t
    ensures x.data[0] * x.data[0] + x.data[1] * x.data[1] + x.data[2] * x.data[2]
      == (d.data[0] * d.data[0] + d.data[1] * d.data[1] + d.data[2] * d.data[2]) * t * t
        + 2.0 * (o.data[0] * d.data[0] + o.data[1] * d.data[1] + o.data[2] * d.data[2]) * t
        + (o.data[0] * o.data[0] + o.data[1] * o.data[1] + o.data[2] * o.data[2])
  {
    var o0, o1, o2 := o.data[0], o.data[1], o.data[2];
    var d0, d1, d2 := d.data[0], d.data[1], d.data[2];
    Assemble(o0, o1, o2, d0, d1, d2, x.data[0], x.data[1], x.data[2],
      t, d0 * d0 + d1 * d1 + d2 * d2, o0 * d0 + o1 * d1 + o2 * d2, o0 * o0 + o1 * o1 + o2 * o2);
  }

  /** For x = o + t d coordinate-wise, |x|^2 = |d|^2 t^2 + 2 (o . d) t + |o|^2. */
  lemma NormAlong(o: Vector3, d: Vector3, x: Vector3, t: real)
    requires forall i | 0 <= i < 3 :: x.data[i] == o.data[i] + d.data[i] * t
    ensures LengthSquared(x) == LengthSquared(d) * t * t + 2.0 * Dot(o, d) * t + Dot(o, o)
  {
    LengthSquared3(x);
    LengthSquared3(d);
    Dot3(o, d);
    Dot3(o, o);
    AssembleVectors(o, d, x, t);
  }

  /** Measured from the center, the point at t is the ray origin's offset
      plus t times the direction. */
  lemma OffsetAlong(s: Sphere, r: Ray, t: real)
    ensures forall i | 0 <= i < 3 ::
      Sub(At(r, t), s.center).data[i] == Oc(s, r).data[i] + r.direction.data[i] * t
  {
    SubElementwise(At(r, t), s.center);
    SubElementwise(r.origin, s.center);
  }

  /** The squared distance from the center to the ray point at t, expanded
      in the quadratic's coefficients. */
  lemma DistanceAlongRay(s: Sphere, r: Ray, t: real)
    ensures LengthSquared(Sub(At(r, t), s.center))
      == QuadA(r) * t * t + 2.0 * HalfB(s, r) * t + QuadC(s, r) + s.radius * s.radius
  {
    OffsetAlong(s, r, t);
    NormAlong(Oc(s, r), r.direction, Sub(At(r, t), s.center), t);
  }

  /** A parameter t with t * a = -hb + sign * sq, sign being -1 or 1, is a
      point where the ray is on the sphere. */
  lemma SolutionOnSphere(s: Sphere, r: Ray, sq: real, t: real, sign: real)
    requires QuadA(r) != 0.0 && (sign == 1.0 || sign == -1.0)
    requires sq * sq == Discriminant(s, r)
    requires t * QuadA(r) == -HalfB(s, r) + sign * sq
    ensures LengthSquared(Sub(At(r, t), s.center)) == s.radius * s.radius
  {
    QuadraticRoot(QuadA(r), HalfB(s, r), QuadC(s, r), sq, t);
    DistanceAlongRay(s, r, t);
  }

  /** Either root of the quadratic is a parameter where the ray is on the
      sphere. */
  lemma RootOnSphere(s: Sphere, r: Ray, sq: real, t: real)
    requires QuadA(r) != 0.0 && Discriminant(s, r) >= 0.0
    requires IsSqrtOfDiscriminant(s, r, sq)
    requires t == NearRoot(s, r, sq) || t == FarRoot(s, r, sq)
    ensures LengthSquared(Sub(At(r, t), s.center)) == s.radius * s.radius
  {
    RootsTimesA(s, r, sq);
    if t == NearRoot(s, r, sq) {
      SolutionOnSphere(s, r, sq, NearRoot(s, r, sq), -1.0);
    } else {
      SolutionOnSphere(s, r, sq, FarRoot(s, r, sq), 1.0);
    }
  }

  /** The roots times the leading coefficient. */
  lemma RootsTimesA(s: Sphere, r: Ray, sq: real)
    requires QuadA(r) != 0.0
    ensures NearRoot(s, r, sq) * QuadA(r) == -HalfB(s, r) + -1.0 * sq
    ensures FarRoot(s, r, sq) * QuadA(r) == -HalfB(s, r) + 1.0 * sq
  {
    DivTimes(-HalfB(s, r) - sq, QuadA(r));
    DivTimes(-HalfB(s, r) + sq, QuadA(r));
  }

  /** At a point on the sphere the stored normal is a unit vector facing
      against the ray. */
  lemma HitAtNormal(s: Sphere, r: Ray, t: real)
    requires s.radius != 0.0
    requires LengthSquared(Sub(At(r, t), s.center)) == s.radius * s.radius
    ensures LengthSquared(HitAt(s, r, t).normal) == 1.0
    ensures Dot(r.direction, HitAt(s, r, t).normal) <= 0.0
  {
    var x: Vector3 := Sub(At(r, t), s.center);
    var outward: Vector3 := Div(x, s.radius);
    UnitNormal(x, s.radius);
    var n := HitAt(s, r, t).normal;
    assert n == outward || n == Neg(outward);
    if n != outward {
      NegPreservesLength(outward);
    }
  }

  /** A hit point lies on the sphere, its normal has unit length, and the
      normal faces against the ray. */
  lemma HitOnSphere(s: Sphere, r: Ray, tMin: real, tMax: real, sq: real)
    requires QuadA(r) != 0.0 && s.radius != 0.0
    requires IsSqrtOfDiscriminant(s, r, sq)
    ensures var res := Intersect(s, r, tMin, tMax, sq);
      res.happened ==>
        && LengthSquared(Sub(res.p, s.center)) == s.radius * s.radius
        && LengthSquared(res.normal) == 1.0
        && Dot(r.direction, res.normal) <= 0.0
  {
    var res := Intersect(s, r, tMin, tMax, sq);
    if res.happened {
      RootOnSphere(s, r, sq, res.t);
      HitAtNormal(s, r, res.t);
      assert res == HitAt(s, r, res.t);
    }
  }

  /** Scaling three coordinates by k scales their sum of squares by k^2. */
  lemma ScaledSquares(x0: real, x1: real, x2: real, k: real)
    ensures (x0 * k) * (x0 * k) + (x1 * k) * (x1 * k) + (x2 * k) * (x2 * k)
      == (k * k) * (x0 * x0 + x1 * x1 + x2 * x2)
  {}

  /** (1/r)^2 * r^2 is 1. */
  lemma InverseSquare(radius: real)
    requires radius != 0.0
    ensures (1.0 / radius) * (1.0 / radius) * (radius * radius) == 1.0
  {
    var k := 1.0 / radius;
    assert k * radius == 1.0;
    assert k * k * (radius * radius) == (k * radius) * (k * radius);
  }

  /** Dividing a vector of squared length r^2 by r gives a unit vector. */
  lemma UnitNormal(x: Vector3, radius: real)
    requires radius != 0.0 && LengthSquared(x) == radius * radius
    ensures LengthSquared(Div(x, radius)) == 1.0
  {
    var k := 1.0 / radius;
    var n: Vector3 := Div(x, radius);
    LengthSquared3(x);
    LengthSquared3(n);
    assert n.data[0] == x.data[0] * k && n.data[1] == x.data[1] * k && n.data[2] == x.data[2] * k;
    ScaledSquares(x.data[0], x.data[1], x.data[2], k);
    InverseSquare(radius);
  }

  lemma NegPreservesLength(v: Vector3)
    ensures LengthSquared(Neg(v)) == LengthSquared(v)
  {
    var w: Vector3 := Neg(v);
    LengthSquared3(v);
    LengthSquared3(w);
  }

  /** Sphere::GetBoundingBox: the cube center +- |radius|. */
  function GetBoundingBox(s: Sphere): (b: Box)
    ensures WellFormed(b) && ContainsPoint(b, s.center)
    ensures forall i | 0 <= i < 3 :: Extent(b, i) == 2.0 * Abs(s.radius)
  {
    var r := Abs(s.radius);
    var offset := Vec3(r, r, r);
    SubElementwise(s.center, offset);
    Box(Sub(s.center, offset), Add(s.center, offset))
  }

  /** The sign of the radius does not change the box. */
  lemma BoxIgnoresRadiusSign(s: Sphere)
    ensures GetBoundingBox(s) == GetBoundingBox(s.(radius := -s.radius))
  {}

  /** The box's corners, coordinate by coordinate. */
  lemma BoxCorners(s: Sphere)
    ensures forall i | 0 <= i < 3 ::
      && GetBoundingBox(s).min.data[i] == s.center.data[i] - Abs(s.radius)
      && GetBoundingBox(s).max.data[i] == s.center.data[i] + Abs(s.radius)
  {
    var r := Abs(s.radius);
    SubElementwise(s.center, Vec3(r, r, r));
  }

  /** A coordinate whose square is part of a sum of squares equal to r^2
      lies within r of zero. */
  lemma CoordWithin(x: real, rest: real, r: real)
    requires r >= 0.0 && rest >= 0.0 && x * x + rest == r * r
    ensures -r <= x <= r
  {
    if x > r {
      SquareStrictMonotone(r, x);
    } else if x < -r {
      SquareStrictMonotone(r, -x);
    }
  }

  /** Every point of the sphere's surface lies in its box; in particular every
      hit point Intersect reports does. */
  lemma SurfaceInBox(s: Sphere, p: Vector3)
    requires LengthSquared(Sub(p, s.center)) == s.radius * s.radius
    ensures ContainsPoint(GetBoundingBox(s), p)
  {
    var x: Vector3 := Sub(p, s.center);
    var r := Abs(s.radius);
    LengthSquared3(x);
    SubElementwise(p, s.center);
    BoxCorners(s);
    assert r * r == s.radius * s.radius;
    var x0, x1, x2 := x.data[0], x.data[1], x.data[2];
    assert x0 * x0 >= 0.0 && x1 * x1 >= 0.0 && x2 * x2 >= 0.0;
    CoordWithin(x0, x1 * x1 + x2 * x2, r);
    CoordWithin(x1, x0 * x0 + x2 * x2, r);
    CoordWithin(x2, x0 * x0 + x1 * x1, r);
    assert forall i | 0 <= i < 3 :: p.data[i] == x.data[i] + s.center.data[i];
  }
}
