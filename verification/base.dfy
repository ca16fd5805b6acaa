/** Constants and scalar helpers shared by the whole renderer. */
module Base {
  import opened Matrices

  /** The tolerance `eps` = 1e-8. */
  const Eps: real := 0.00000001

  /** The constant `pi` as written in the source (20 significant digits). */
  const Pi: real := 3.1415926535897932385

  /** std::numeric_limits<double>::max(), exactly (2^1024 - 2^971). */
  const DoubleMax: real := 179769313486231570814527423731704356798070567525844996598917476803157260780028538760589558632766878171540458953514382464234321326889464182768467546703537516986049910576551282076245490090389328944075868508455133942304583236903222948165808559332123348274797826204144723168738177180919299881250404026184124858368.0

  function Abs(x: real): (r: real) { if x < 0.0 then -x else x }

  /** fmin and fmax on ordinary (non-NaN) values. */
  function Min(a: real, b: real): (r: real) { if a <= b then a else b }

  function Max(a: real, b: real): (r: real) { if a >= b then a else b }

  /** clamp(x, min, max): the value of the range [lo, hi] closest to x. */
  function Clamp(x: real, lo: real, hi: real): (r: real)
    requires lo < hi
    ensures lo <= r <= hi
    ensures x < lo ==> r == lo
    ensures x > hi ==> r == hi
    ensures lo <= x <= hi ==> r == x
  {
    if x < lo then lo
    else if x > hi then hi
    else x
  }

  /** Clamping twice is clamping once, and every value of the range is a
      fixed point. */
  lemma ClampIdempotent(x: real, lo: real, hi: real)
    requires lo < hi
    ensures Clamp(Clamp(x, lo, hi), lo, hi) == Clamp(x, lo, hi)
    ensures forall y | lo <= y <= hi :: Clamp(y, lo, hi) == y
  {}

  /** nearzero(v): every component is below eps in absolute value. */
  predicate NearZero(v: Vector3)
  {
    Abs(v.data[0]) < Eps && Abs(v.data[1]) < Eps && Abs(v.data[2]) < Eps
  }

  /** The zero vector is near zero, and a vector near zero has squared length
      below 3 * eps^2. */
  lemma NearZeroBounds(v: Vector3)
    ensures NearZero(Vec3(0.0, 0.0, 0.0))
    ensures NearZero(v) <==> forall i | 0 <= i < 3 :: -Eps < v.data[i] < Eps
    ensures NearZero(v) ==> LengthSquared(v) < 3.0 * Eps * Eps
  {
    if NearZero(v) {
      LengthSquaredIsDot(v);
      Dot3(v, v);
      var e2 := Eps * Eps;
      var s0, s1, s2 := v.data[0] * v.data[0], v.data[1] * v.data[1], v.data[2] * v.data[2];
      SquareBelow(v.data[0], Eps);
      SquareBelow(v.data[1], Eps);
      SquareBelow(v.data[2], Eps);
      assert LengthSquared(v) == s0 + s1 + s2;
      assert s0 + s1 + s2 < 3.0 * e2;
    }
  }

  /** For non-negative values, comparing squares compares the values. */
  lemma SquareStrictMonotone(a: real, b: real)
    requires 0.0 <= a && 0.0 <= b
    ensures a < b <==> a * a < b * b
  {
    if a < b {
      calc {
        a * a;
      <= { assert (b - a) * a >= 0.0; }
        a * b;
      < { assert (b - a) * b > 0.0; }
        b * b;
      }
    } else {
      calc {
        b * b;
      <= { assert (a - b) * b >= 0.0; }
        a * b;
      <= { assert (a - b) * a >= 0.0; }
        a * a;
      }
    }
  }

  lemma SquareBelow(x: real, e: real)
    requires Abs(x) < e
    ensures x * x < e * e
  {
    var a := Abs(x);
    calc {
      x * x;
    ==
      a * a;
    <= { assert a >= 0.0; }
      a * e;
    < { assert e - a > 0.0 && e > 0.0; assert e * e - a * e == (e - a) * e; }
      e * e;
    }
  }
}
