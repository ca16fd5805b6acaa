/** Dense matrices of a fixed shape, stored row-major in one flat sequence.
    The float and double instantiations are modelled by exact `real`
    arithmetic, so the laws below hold exactly. The int instantiation agrees
    with them except for division, which truncates (DivIntAsWritten). */
module Matrices {

  /** A `rows` x `cols` matrix; element (x, y) lives at index x * cols + y. */
  datatype Matrix = Matrix(rows: nat, cols: nat, data: seq<real>) {
    predicate Valid() { |data| == Mul(rows, cols) }
  }

  /** Two matrices of the same static shape, as the C++ templates demand. */
  predicate SameShape(a: Matrix, b: Matrix) {
    a.Valid() && b.Valid() && a.rows == b.rows && a.cols == b.cols
  }

  /** A column vector of three elements: points, directions and colours. */
  type Vector3 = v: Matrix | v.rows == 3 && v.cols == 1 && |v.data| == 3
    witness Matrix(3, 1, [0.0, 0.0, 0.0])

  /** Natural-number product by repeated addition; keeping index arithmetic
      linear for the solver. */
  function Mul(a: nat, b: nat): (r: nat)
  {
    if a == 0 then 0 else Mul(a - 1, b) + b
  }

  lemma {:induction false} MulIsProduct(a: nat, b: nat)
    ensures Mul(a, b) == a * b
  {
    if a > 0 {
      MulIsProduct(a - 1, b);
    }
  }

  lemma {:induction false} MulMonotone(a: nat, b: nat, c: nat)
    requires a <= b
    ensures Mul(a, c) <= Mul(b, c)
  {
    if a < b {
      MulMonotone(a, b - 1, c);
    }
  }

  /** The flat index of element (x, y): x * cols + y. */
  function Pos(cols: nat, x: nat, y: nat): (r: nat) { Mul(x, cols) + y }

  lemma PosInRange(rows: nat, cols: nat, x: nat, y: nat)
    requires x < rows && y < cols
    ensures Pos(cols, x, y) < Mul(rows, cols)
  {
    MulMonotone(x + 1, rows, cols);
  }

  lemma PosInjective(cols: nat, x: nat, y: nat, x': nat, y': nat)
    requires y < cols && y' < cols
    requires Pos(cols, x, y) == Pos(cols, x', y')
    ensures x == x' && y == y'
  {
    if x < x' {
      MulMonotone(x + 1, x', cols);
    } else if x' < x {
      MulMonotone(x' + 1, x, cols);
    }
  }

  /** Row-major layout: element (x, y) is stored at flat index x * cols + y,
      inside the storage, and no two cells share an index. */
  lemma RowMajorLayout(rows: nat, cols: nat)
    ensures forall x: nat, y: nat :: Pos(cols, x, y) == x * cols + y
    ensures forall x: nat, y: nat | x < rows && y < cols :: Pos(cols, x, y) < rows * cols
    ensures forall x: nat, y: nat, x': nat, y': nat
      | y < cols && y' < cols && Pos(cols, x, y) == Pos(cols, x', y') :: x == x' && y == y'
  {
    MulIsProduct(rows, cols);
    forall x: nat, y: nat
      ensures Pos(cols, x, y) == x * cols + y
    {
      MulIsProduct(x, cols);
    }
    forall x: nat, y: nat | x < rows && y < cols
      ensures Pos(cols, x, y) < Mul(rows, cols)
    {
      PosInRange(rows, cols, x, y);
    }
    forall x: nat, y: nat, x': nat, y': nat
      | y < cols && y' < cols && Pos(cols, x, y) == Pos(cols, x', y')
      ensures x == x' && y == y'
    {
      PosInjective(cols, x, y, x', y');
    }
  }

  /** operator()(x, y): the element in row x, column y. */
  function Get(m: Matrix, x: nat, y: nat): (r: real)
    requires m.Valid() && x < m.rows && y < m.cols
  {
    PosInRange(m.rows, m.cols, x, y);
    m.data[Pos(m.cols, x, y)]
  }

  /** The matrix `m` with element (x, y) replaced by `v`. */
  function Set(m: Matrix, x: nat, y: nat, v: real): (r: Matrix)
    requires m.Valid() && x < m.rows && y < m.cols
    ensures SameShape(r, m)
    ensures Get(r, x, y) == v
    ensures forall x': nat, y': nat | x' < m.rows && y' < m.cols && (x' != x || y' != y) ::
      Get(r, x', y') == Get(m, x', y')
  {
    PosInRange(m.rows, m.cols, x, y);
    var r := Matrix(m.rows, m.cols, m.data[Pos(m.cols, x, y) := v]);
    assert forall x': nat, y': nat | x' < m.rows && y' < m.cols && (x' != x || y' != y) ::
      Get(r, x', y') == Get(m, x', y') by {
      forall x': nat, y': nat | x' < m.rows && y' < m.cols && (x' != x || y' != y)
        ensures Get(r, x', y') == Get(m, x', y')
      {
        PosInRange(m.rows, m.cols, x', y');
        if Pos(m.cols, x', y') == Pos(m.cols, x, y) {
          PosInjective(m.cols, x', y', x, y);
        }
      }
    }
    r
  }

  /** The initializer-list constructor: the listed values fill a prefix of the
      storage and every remaining element is zero.  The zero, one-, two- and
      three-argument constructors are the special cases of 0..3 values. */
  function FromList(rows: nat, cols: nat, list: seq<real>): (m: Matrix)
    requires |list| <= Mul(rows, cols)
    ensures m.Valid() && m.rows == rows && m.cols == cols
    ensures m.data[..|list|] == list
    ensures forall i | |list| <= i < Mul(rows, cols) :: m.data[i] == 0.0
  {
    Matrix(rows, cols, list + seq(Mul(rows, cols) - |list|, _ => 0.0))
  }

  /** The default constructor: all elements zero. */
  function Zero(rows: nat, cols: nat): (m: Matrix)
    ensures m.Valid() && m.rows == rows && m.cols == cols
    ensures forall i | 0 <= i < |m.data| :: m.data[i] == 0.0
  {
    FromList(rows, cols, [])
  }

  /** The three-value constructor of a 3-vector. */
  function Vec3(x: real, y: real, z: real): (v: Vector3)
    ensures v.data == [x, y, z]
  {
    Matrix(3, 1, [x, y, z])
  }

  /** The three-value constructor is the initializer-list constructor with
      three values. */
  lemma Vec3IsFromList(x: real, y: real, z: real)
    ensures Vec3(x, y, z) == FromList(3, 1, [x, y, z])
  {
    var m := FromList(3, 1, [x, y, z]);
    assert m.data == m.data[..3];
  }

  /** Element-wise comparison from index `i` on, returning at the first
      element that differs (operator==). */
  function EqualFrom(a: Matrix, b: Matrix, i: nat): (r: bool)
    requires SameShape(a, b) && i <= |a.data|
    ensures r <==> a.data[i..] == b.data[i..]
    decreases |a.data| - i
  {
    if i == |a.data| then true
    else if a.data[i] != b.data[i] then
      assert a.data[i..][0] != b.data[i..][0];
      false
    else
      var r := EqualFrom(a, b, i + 1);
      assert a.data[i..] == [a.data[i]] + a.data[i + 1..];
      assert b.data[i..] == [b.data[i]] + b.data[i + 1..];
      r
  }

  /** operator==: element-wise equality, which for matrices of one shape is
      exactly value equality. */
  function Equal(a: Matrix, b: Matrix): (r: bool)
    requires SameShape(a, b)
    ensures r <==> a == b
  {
    assert a.data[0..] == a.data && b.data[0..] == b.data;
    EqualFrom(a, b, 0)
  }

  /** operator!=: the negation of operator==. */
  function NotEqual(a: Matrix, b: Matrix): (r: bool)
    requires SameShape(a, b)
    ensures r <==> exists i | 0 <= i < |a.data| :: a.data[i] != b.data[i]
  {
    !Equal(a, b)
  }

  /** Unary minus. */
  function Neg(m: Matrix): (r: Matrix)
    requires m.Valid()
    ensures SameShape(r, m)
    ensures forall i | 0 <= i < |r.data| :: r.data[i] == -m.data[i]
  {
    Matrix(m.rows, m.cols, seq(|m.data|, i requires 0 <= i < |m.data| => -m.data[i]))
  }

  lemma NegInvolution(m: Matrix)
    requires m.Valid()
    ensures Neg(Neg(m)) == m
  {
    assert Neg(Neg(m)).data == m.data;
  }

  /** operator+ (and operator+=, which computes the same value in place). */
  function Add(a: Matrix, b: Matrix): (r: Matrix)
    requires SameShape(a, b)
    ensures SameShape(r, a)
    ensures forall i | 0 <= i < |r.data| :: r.data[i] == a.data[i] + b.data[i]
  {
    Matrix(a.rows, a.cols, seq(|a.data|, i requires 0 <= i < |a.data| => a.data[i] + b.data[i]))
  }

  lemma AddCommutative(a: Matrix, b: Matrix)
    requires SameShape(a, b)
    ensures Add(a, b) == Add(b, a)
  {
    assert Add(a, b).data == Add(b, a).data;
  }

  /** operator- (binary), defined in the source as a + (-b). */
  function Sub(a: Matrix, b: Matrix): (r: Matrix)
    requires SameShape(a, b)
    ensures SameShape(r, a)
  {
    Add(a, Neg(b))
  }

  /** Subtraction is element-wise, and adding back what was subtracted
      restores the original matrix. */
  lemma SubElementwise(a: Matrix, b: Matrix)
    requires SameShape(a, b)
    ensures forall i | 0 <= i < |a.data| :: Sub(a, b).data[i] == a.data[i] - b.data[i]
    ensures Add(Sub(a, b), b) == a
  {
    assert Add(Sub(a, b), b).data == a.data;
  }

  /** operator*(scalar) on the right (and operator*=). */
  function Scale(m: Matrix, s: real): (r: Matrix)
    requires m.Valid()
    ensures SameShape(r, m)
    ensures forall i | 0 <= i < |r.data| :: r.data[i] == m.data[i] * s
  {
    Matrix(m.rows, m.cols, seq(|m.data|, i requires 0 <= i < |m.data| => m.data[i] * s))
  }

  /** operator*(scalar, matrix), defined in the source as `rhs * lhs`. */
  function ScaleLeft(s: real, m: Matrix): (r: Matrix)
    requires m.Valid()
    ensures SameShape(r, m)
    ensures forall i | 0 <= i < |r.data| :: r.data[i] == s * m.data[i]
  {
    Scale(m, s)
  }

  /** operator/(scalar): multiplication by the reciprocal. */
  function Div(m: Matrix, s: real): (r: Matrix)
    requires m.Valid() && s != 0.0
    ensures SameShape(r, m)
    ensures forall i | 0 <= i < |r.data| :: r.data[i] * s == m.data[i]
  {
    var r := Scale(m, 1.0 / s);
    assert forall i | 0 <= i < |r.data| :: r.data[i] * s == m.data[i] by {
      forall i | 0 <= i < |r.data|
        ensures r.data[i] * s == m.data[i]
      {
        assert r.data[i] * s == m.data[i] * ((1.0 / s) * s);
      }
    }
    r
  }

  /** The conversion of a double to int: truncation toward zero. */
  function TruncToInt(x: real): (n: int)
    ensures 0.0 <= x ==> n as real <= x < n as real + 1.0
    ensures x < 0.0 ==> n as real - 1.0 < x <= n as real
  {
    if x >= 0.0 then x.Floor else -((-x).Floor)
  }

  /** operator/= on the elements of an int matrix as written: the double
      1.0 / val reaches operator*=(const int &) truncated toward zero, so
      only a divisor of 1 or -1 leaves anything non-zero. */
  function DivIntAsWritten(data: seq<int>, s: int): (r: seq<int>)
    requires s != 0
    ensures |r| == |data|
    ensures s == 1 || s == -1 ==> forall i | 0 <= i < |r| :: r[i] == data[i] * s
    ensures s > 1 || s < -1 ==> forall i | 0 <= i < |r| :: r[i] == 0
  {
    var q := TruncToInt(1.0 / s as real);
    assert s > 1 ==> 0.0 < 1.0 / s as real < 1.0;
    assert s < -1 ==> -1.0 < 1.0 / s as real < 0.0;
    seq(|data|, i requires 0 <= i < |data| => data[i] * q)
  }

  /** Vector3i(4, 4, 4) / 2 as written is the zero vector, and scaling it
      back by 2 does not restore the vector. */
  lemma DivIntAsWrittenZeroes()
    ensures DivIntAsWritten([4, 4, 4], 2) == [0, 0, 0]
    ensures DivIntAsWritten([4, 4, 4], 2)[0] * 2 != 4
  {}

  function Magnitude(x: int): (n: nat)
    ensures n == x || n == -x
  {
    if x < 0 then -x else x
  }

  /** The Euclidean quotient of naturals never overshoots, and is exact
      when the remainder is zero. */
  lemma NatQuotient(a: nat, b: nat)
    requires b > 0
    ensures 0 <= (a / b) * b <= a
    ensures a % b == 0 ==> (a / b) * b == a
  {}

  /** C++ integer division: the quotient truncated toward zero, i.e. the
      quotient of the magnitudes with the sign of x * s. */
  function TruncDiv(x: int, s: int): (q: int)
    requires s != 0
    ensures Magnitude(x) % Magnitude(s) == 0 ==> q * s == x
    ensures 0 <= x ==> 0 <= q * s <= x
    ensures x < 0 ==> x <= q * s <= 0
  {
    var m := Magnitude(x) / Magnitude(s);
    NatQuotient(Magnitude(x), Magnitude(s));
    var p := m * Magnitude(s);
    if (0 <= x) == (0 < s) then
      assert m * s == (if 0 < s then p else -p);
      m
    else
      assert -m * s == (if 0 < s then -p else p);
      -m
  }

  /** operator/= on an int matrix as evidently intended: each element is
      divided by the scalar, so an exact division is undone by scaling. */
  function DivInt(data: seq<int>, s: int): (r: seq<int>)
    requires s != 0
    ensures |r| == |data|
    ensures forall i | 0 <= i < |r| :: Magnitude(data[i]) % Magnitude(s) == 0 ==> r[i] * s == data[i]
    ensures forall i | 0 <= i < |r| :: 0 <= data[i] ==> 0 <= r[i] * s <= data[i]
    ensures forall i | 0 <= i < |r| :: data[i] < 0 ==> data[i] <= r[i] * s <= 0
  {
    seq(|data|, i requires 0 <= i < |data| => TruncDiv(data[i], s))
  }

  /** Dividing by a non-zero scalar and scaling back is the identity. */
  lemma DivScaleRoundTrip(m: Matrix, s: real)
    requires m.Valid() && s != 0.0
    ensures Scale(Div(m, s), s) == m
  {
    forall i | 0 <= i < |m.data|
      ensures Scale(Div(m, s), s).data[i] == m.data[i]
    {
      calc {
        Scale(Div(m, s), s).data[i];
        (m.data[i] * (1.0 / s)) * s;
        m.data[i] * ((1.0 / s) * s);
        m.data[i];
      }
    }
    assert Scale(Div(m, s), s).data == m.data;
  }

  /** Reference definition of one entry of a matrix product:
      the sum over k < n of lhs(i, k) * rhs(k, j). */
  function RowCol(lhs: Matrix, rhs: Matrix, i: nat, j: nat, n: nat): (r: real)
    requires lhs.Valid() && rhs.Valid() && lhs.cols == rhs.rows
    requires i < lhs.rows && j < rhs.cols && n <= lhs.cols
  {
    if n == 0 then 0.0
    else RowCol(lhs, rhs, i, j, n - 1) + Get(lhs, i, n - 1) * Get(rhs, n - 1, j)
  }

  /** The matrix product, computed by the source's triple loop that
      accumulates into a zero matrix with `ret(i, j) += lhs(i, k) * rhs(k, j)`. */
  method MatMul(lhs: Matrix, rhs: Matrix) returns (ret: Matrix)
    requires lhs.Valid() && rhs.Valid() && lhs.cols == rhs.rows
    ensures ret.Valid() && ret.rows == lhs.rows && ret.cols == rhs.cols
    ensures forall i: nat, j: nat | i < lhs.rows && j < rhs.cols ::
      Get(ret, i, j) == RowCol(lhs, rhs, i, j, lhs.cols)
  {
    var m, p := lhs.rows, rhs.cols;
    ret := Zero(m, p);
    forall x: nat, y: nat | x < m && y < p
      ensures Get(ret, x, y) == 0.0
    {
      PosInRange(m, p, x, y);
    }
    var i := 0;
    while i < m
      invariant 0 <= i <= m
      invariant ret.Valid() && ret.rows == m && ret.cols == p
      invariant forall x: nat, y: nat | x < i && y < p :: Get(ret, x, y) == RowCol(lhs, rhs, x, y, lhs.cols)
      invariant forall x: nat, y: nat | i <= x < m && y < p :: Get(ret, x, y) == 0.0
    {
      ret := AccumulateRow(lhs, rhs, ret, i);
      i := i + 1;
    }
  }

  /** The two inner loops for row i: every entry of the row gains its
      row-by-column sum, and the other rows are untouched. */
  method AccumulateRow(lhs: Matrix, rhs: Matrix, ret: Matrix, i: nat) returns (r: Matrix)
    requires lhs.Valid() && rhs.Valid() && lhs.cols == rhs.rows
    requires ret.Valid() && ret.rows == lhs.rows && ret.cols == rhs.cols && i < lhs.rows
    ensures r.Valid() && r.rows == ret.rows && r.cols == ret.cols
    ensures forall y: nat | y < ret.cols :: Get(r, i, y) == Get(ret, i, y) + RowCol(lhs, rhs, i, y, lhs.cols)
    ensures forall x: nat, y: nat | x < ret.rows && y < ret.cols && x != i :: Get(r, x, y) == Get(ret, x, y)
  {
    r := ret;
    var j := 0;
    while j < ret.cols
      invariant 0 <= j <= ret.cols
      invariant r.Valid() && r.rows == ret.rows && r.cols == ret.cols
      invariant forall y: nat | y < j :: Get(r, i, y) == Get(ret, i, y) + RowCol(lhs, rhs, i, y, lhs.cols)
      invariant forall x: nat, y: nat | x < ret.rows && y < ret.cols && (x != i || j <= y) :: Get(r, x, y) == Get(ret, x, y)
    {
      r := AccumulateEntry(lhs, rhs, r, i, j);
      j := j + 1;
    }
  }

  /** The innermost loop: ret(i, j) += lhs(i, k) * rhs(k, j) for every k,
      leaving every other entry as it was. */
  method AccumulateEntry(lhs: Matrix, rhs: Matrix, ret: Matrix, i: nat, j: nat) returns (r: Matrix)
    requires lhs.Valid() && rhs.Valid() && lhs.cols == rhs.rows
    requires ret.Valid() && ret.rows == lhs.rows && ret.cols == rhs.cols && i < lhs.rows && j < rhs.cols
    ensures r.Valid() && r.rows == ret.rows && r.cols == ret.cols
    ensures Get(r, i, j) == Get(ret, i, j) + RowCol(lhs, rhs, i, j, lhs.cols)
    ensures forall x: nat, y: nat | x < ret.rows && y < ret.cols && (x != i || y != j) :: Get(r, x, y) == Get(ret, x, y)
  {
    r := ret;
    var k := 0;
    while k < lhs.cols
      invariant 0 <= k <= lhs.cols
      invariant r.Valid() && r.rows == ret.rows && r.cols == ret.cols
      invariant Get(r, i, j) == Get(ret, i, j) + RowCol(lhs, rhs, i, j, k)
      invariant forall x: nat, y: nat | x < ret.rows && y < ret.cols && (x != i || y != j) :: Get(r, x, y) == Get(ret, x, y)
    {
      r := Set(r, i, j, Get(r, i, j) + Get(lhs, i, k) * Get(rhs, k, j));
      k := k + 1;
    }
  }

  /** Vectors of the source's `Matrix<T, size, 1>` shape. */
  predicate IsVector(v: Matrix) { v.Valid() && v.cols == 1 }

  /** The running sum of lhs(i) * rhs(i) over the first n elements. */
  function DotUpTo(a: Matrix, b: Matrix, n: nat): (r: real)
    requires n <= |a.data| && n <= |b.data|
  {
    if n == 0 then 0.0 else DotUpTo(a, b, n - 1) + a.data[n - 1] * b.data[n - 1]
  }

  /** DotProduct of two vectors of one size. */
  function Dot(a: Matrix, b: Matrix): (r: real)
    requires IsVector(a) && SameShape(a, b)
  {
    DotUpTo(a, b, |a.data|)
  }

  lemma {:induction false} DotUpToSymmetric(a: Matrix, b: Matrix, n: nat)
    requires n <= |a.data| && n <= |b.data|
    ensures DotUpTo(a, b, n) == DotUpTo(b, a, n)
  {
    if n > 0 {
      DotUpToSymmetric(a, b, n - 1);
    }
  }

  lemma DotSymmetric(a: Matrix, b: Matrix)
    requires IsVector(a) && SameShape(a, b)
    ensures Dot(a, b) == Dot(b, a)
  {
    DotUpToSymmetric(a, b, |a.data|);
  }

  lemma {:induction false} DotUpToNegRight(a: Matrix, b: Matrix, n: nat)
    requires b.Valid() && n <= |a.data| && n <= |b.data|
    ensures DotUpTo(a, Neg(b), n) == -DotUpTo(a, b, n)
  {
    if n > 0 {
      DotUpToNegRight(a, b, n - 1);
    }
  }

  /** Negating one argument negates the dot product. */
  lemma DotNegRight(a: Matrix, b: Matrix)
    requires IsVector(a) && SameShape(a, b)
    ensures Dot(a, Neg(b)) == -Dot(a, b)
  {
    DotUpToNegRight(a, b, |a.data|);
  }

  /** The dot product of 3-vectors written out. */
  lemma Dot3(a: Vector3, b: Vector3)
    ensures Dot(a, b) == a.data[0] * b.data[0] + a.data[1] * b.data[1] + a.data[2] * b.data[2]
  {
    assert DotUpTo(a, b, 1) == a.data[0] * b.data[0];
    assert DotUpTo(a, b, 2) == DotUpTo(a, b, 1) + a.data[1] * b.data[1];
  }

  /** The running sum of vec(i) * vec(i) over the first n elements. */
  function SquaresUpTo(v: Matrix, n: nat): (r: real)
    requires n <= |v.data|
    ensures r >= 0.0
  {
    if n == 0 then 0.0 else SquaresUpTo(v, n - 1) + v.data[n - 1] * v.data[n - 1]
  }

  /** LengthSquared: a non-negative sum of squares. */
  function LengthSquared(v: Matrix): (r: real)
    requires IsVector(v)
    ensures r >= 0.0
  {
    SquaresUpTo(v, |v.data|)
  }

  lemma {:induction false} SquaresUpToIsDot(v: Matrix, n: nat)
    requires n <= |v.data|
    ensures SquaresUpTo(v, n) == DotUpTo(v, v, n)
  {
    if n > 0 {
      SquaresUpToIsDot(v, n - 1);
    }
  }

  /** LengthSquared(v) is the dot product of v with itself. */
  lemma LengthSquaredIsDot(v: Matrix)
    requires IsVector(v)
    ensures LengthSquared(v) == Dot(v, v) >= 0.0
  {
    SquaresUpToIsDot(v, |v.data|);
  }

  /** CrossProduct3D. */
  function Cross(a: Vector3, b: Vector3): (r: Vector3)
  {
    Vec3(a.data[1] * b.data[2] - a.data[2] * b.data[1],
         a.data[2] * b.data[0] - a.data[0] * b.data[2],
         a.data[0] * b.data[1] - a.data[1] * b.data[0])
  }

  /** The cross product is perpendicular to both of its arguments. */
  lemma CrossOrthogonal(a: Vector3, b: Vector3)
    ensures Dot(Cross(a, b), a) == 0.0
    ensures Dot(Cross(a, b), b) == 0.0
  {
    var c := Cross(a, b);
    Dot3(c, a);
    Dot3(c, b);
    var a0, a1, a2 := a.data[0], a.data[1], a.data[2];
    var b0, b1, b2 := b.data[0], b.data[1], b.data[2];
    assert c.data[0] == a1 * b2 - a2 * b1;
    assert c.data[1] == a2 * b0 - a0 * b2;
    assert c.data[2] == a0 * b1 - a1 * b0;
    assert (a1 * b2 - a2 * b1) * a0 + (a2 * b0 - a0 * b2) * a1 + (a0 * b1 - a1 * b0) * a2 == 0.0;
    assert (a1 * b2 - a2 * b1) * b0 + (a2 * b0 - a0 * b2) * b1 + (a0 * b1 - a1 * b0) * b2 == 0.0;
  }

  /** Swapping the arguments of the cross product negates it. */
  lemma CrossAntiCommutative(a: Vector3, b: Vector3)
    ensures Cross(a, b) == Neg(Cross(b, a))
  {
    assert Cross(a, b).data == Neg(Cross(b, a)).data;
  }

  /** HadamardProduct: the element-wise product, cell by cell. */
  function Hadamard(a: Matrix, b: Matrix): (r: Matrix)
    requires SameShape(a, b)
    ensures SameShape(r, a)
    ensures forall x: nat, y: nat | x < a.rows && y < a.cols :: Get(r, x, y) == Get(a, x, y) * Get(b, x, y)
  {
    var r := Matrix(a.rows, a.cols, seq(|a.data|, i requires 0 <= i < |a.data| => a.data[i] * b.data[i]));
    forall x: nat, y: nat | x < a.rows && y < a.cols
      ensures Get(r, x, y) == Get(a, x, y) * Get(b, x, y)
    {
      PosInRange(a.rows, a.cols, x, y);
    }
    r
  }

  lemma HadamardCommutative(a: Matrix, b: Matrix)
    requires SameShape(a, b)
    ensures Hadamard(a, b) == Hadamard(b, a)
  {
    assert Hadamard(a, b).data == Hadamard(b, a).data;
  }
}
