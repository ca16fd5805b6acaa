/** Surface materials: emission and the diffuse (Lambertian) BRDF and
    sampling density. */
module Materials {
  import opened Matrices
  import opened Base

  /** The one material kind the source implements. */
  datatype MaterialType = Diffuse

  datatype Material = Material(kind: MaterialType, kDiffuse: Vector3, kSpecular: Vector3,
                               kEmission: Vector3, indexOfRefraction: real)

  /** HasEmission: the emission vector is longer than eps.  Decided on the
      squared length, so that no square root is needed. */
  predicate HasEmission(m: Material)
  {
    LengthSquared(m.kEmission) > Eps * Eps
  }

  /** GetEmission: the emitted radiance. */
  function GetEmission(m: Material): (e: Vector3)
    ensures HasEmission(m) <==> LengthSquared(e) > Eps * Eps
    ensures forall i | 0 <= i < 3 :: e.data[i] == m.kEmission.data[i]
  {
    m.kEmission
  }

  /** Deciding on the squared length agrees with the source's test on the
      length itself: for any non-negative `len` with len * len equal to the
      squared length, the material emits exactly when len > eps. */
  lemma HasEmissionIffLength(m: Material, len: real)
    requires len >= 0.0 && len * len == LengthSquared(m.kEmission)
    ensures HasEmission(m) <==> len > Eps
  {
    SquareStrictMonotone(Eps, len);
  }

  /** The zero vector, returned where the BRDF vanishes. */
  const Black: Vector3 := Vec3(0.0, 0.0, 0.0)

  /** Eval for the diffuse kind: k_diffuse / pi when the outgoing direction is
      on the normal's side, zero otherwise. */
  function Eval(m: Material, inDir: Vector3, outDir: Vector3, normal: Vector3): (f: Vector3)
    ensures Dot(normal, outDir) > 0.0 ==> forall i | 0 <= i < 3 :: f.data[i] * Pi == m.kDiffuse.data[i]
    ensures Dot(normal, outDir) <= 0.0 ==> f == Black
  {
    match m.kind
    case Diffuse =>
      var cosTheta := Dot(normal, outDir);
      if cosTheta > 0.0 then
        DivScaleRoundTrip(m.kDiffuse, Pi);
        assert forall i | 0 <= i < 3 :: Scale(Div(m.kDiffuse, Pi), Pi).data[i] == m.kDiffuse.data[i];
        Div(m.kDiffuse, Pi)
      else Black
  }

  /** The incoming direction never affects the diffuse BRDF. */
  lemma EvalIgnoresInDir(m: Material, in1: Vector3, in2: Vector3, outDir: Vector3, normal: Vector3)
    ensures Eval(m, in1, outDir, normal) == Eval(m, in2, outDir, normal)
  {}

  /** Pdf for the diffuse kind: the uniform hemisphere density 1 / (2 pi) on
      the normal's side, zero elsewhere. */
  function Pdf(m: Material, inDir: Vector3, outDir: Vector3, normal: Vector3): (pdf: real)
    ensures pdf >= 0.0
    ensures pdf * Pi == (if Dot(outDir, normal) > 0.0 then 0.5 else 0.0)
  {
    match m.kind
    case Diffuse =>
      if Dot(outDir, normal) > 0.0 then 0.5 / Pi else 0.0
  }

  /** Eval and Pdf test the same hemisphere: the density is positive exactly
      where the BRDF is k_diffuse / pi, and where the density is zero the BRDF
      is zero as well. */
  lemma EvalPdfSameHemisphere(m: Material, inDir: Vector3, outDir: Vector3, normal: Vector3)
    ensures Pdf(m, inDir, outDir, normal) > 0.0 <==> Dot(normal, outDir) > 0.0
    ensures Pdf(m, inDir, outDir, normal) == 0.0 ==> Eval(m, inDir, outDir, normal) == Black
    ensures Pdf(m, inDir, outDir, normal) > 0.0 ==> Eval(m, inDir, outDir, normal) == Div(m.kDiffuse, Pi)
  {
    DotSymmetric(outDir, normal);
  }
}
