/** Axis-aligned bounding boxes: the union used to build the hierarchy, the
    slab test used to prune it, and the split-axis choice. */
module Boxes {
  import opened Matrices
  import opened Base
  import opened Rays

  datatype Box = Box(min: Vector3, max: Vector3)

  /** The default constructor: the all-zero box, used as an "empty" sentinel. */
  const ZeroBox: Box := Box(Vec3(0.0, 0.0, 0.0), Vec3(0.0, 0.0, 0.0))

  /** available(): the corners differ (the matrix operator!=). */
  predicate Available(b: Box)
  {
    NotEqual(b.min, b.max)
  }

  /** The default box is the zero box and is not available. */
  lemma ZeroBoxNotAvailable()
    ensures forall i | 0 <= i < 3 :: ZeroBox.min.data[i] == 0.0 && ZeroBox.max.data[i] == 0.0
    ensures !Available(ZeroBox)
  {}

  /** A box is available exactly when it is not a single point. */
  lemma AvailableIffNotPoint(b: Box)
    ensures Available(b) <==> exists i | 0 <= i < 3 :: b.min.data[i] != b.max.data[i]
    ensures Available(b) <==> b.min != b.max
  {}

  /** The box spans a non-negative extent on every axis. */
  predicate WellFormed(b: Box)
  {
    forall i | 0 <= i < 3 :: b.min.data[i] <= b.max.data[i]
  }

  /** `outer` encloses `inner` on every axis. */
  predicate Contains(outer: Box, inner: Box)
  {
    forall i | 0 <= i < 3 :: outer.min.data[i] <= inner.min.data[i] && inner.max.data[i] <= outer.max.data[i]
  }

  /** The point `p` lies in the closed box. */
  predicate ContainsPoint(b: Box, p: Vector3)
  {
    forall i | 0 <= i < 3 :: b.min.data[i] <= p.data[i] <= b.max.data[i]
  }

  /** The point `p` lies strictly inside the box. */
  predicate Interior(b: Box, p: Vector3)
  {
    forall i | 0 <= i < 3 :: b.min.data[i] < p.data[i] < b.max.data[i]
  }

  /** MergeBoxes: per axis the smaller minimum and the larger maximum. */
  function Merge(a: Box, b: Box): (r: Box)
    ensures Contains(r, a) && Contains(r, b)
  {
    Box(Vec3(Min(a.min.data[0], b.min.data[0]), Min(a.min.data[1], b.min.data[1]), Min(a.min.data[2], b.min.data[2])),
        Vec3(Max(a.max.data[0], b.max.data[0]), Max(a.max.data[1], b.max.data[1]), Max(a.max.data[2], b.max.data[2])))
  }

  /** Each corner coordinate of a merge comes from one of the two boxes. */
  lemma MergeCorners(a: Box, b: Box)
    ensures var r := Merge(a, b);
      forall i | 0 <= i < 3 ::
        r.min.data[i] in {a.min.data[i], b.min.data[i]} && r.max.data[i] in {a.max.data[i], b.max.data[i]}
  {}

  /** Merge is the join of the containment order: commutative, associative,
      idempotent, and below every box that contains both arguments. */
  lemma MergeLattice(a: Box, b: Box, c: Box)
    ensures Merge(a, b) == Merge(b, a)
    ensures Merge(Merge(a, b), c) == Merge(a, Merge(b, c))
    ensures Merge(a, a) == a
    ensures Contains(c, a) && Contains(c, b) ==> Contains(c, Merge(a, b))
  {
    assert Merge(a, a).min.data == a.min.data;
    assert Merge(a, a).max.data == a.max.data;
  }

  /** Merging well-formed boxes gives a well-formed box. */
  lemma MergeWellFormed(a: Box, b: Box)
    requires WellFormed(a) && WellFormed(b)
    ensures WellFormed(Merge(a, b))
  {}

  /** A box is enclosed by another exactly when merging it in changes nothing. */
  lemma ContainsIffMergeAbsorbs(outer: Box, inner: Box)
    ensures Contains(outer, inner) <==> Merge(outer, inner) == outer
  {
    if Contains(outer, inner) {
      assert Merge(outer, inner).min.data == outer.min.data;
      assert Merge(outer, inner).max.data == outer.max.data;
    }
  }

  /** The left fold of Merge over a non-empty sequence of boxes: the smallest
      box containing all of them. */
  function MergeFold(boxes: seq<Box>): (r: Box)
    requires |boxes| > 0
    ensures forall k | 0 <= k < |boxes| :: Contains(r, boxes[k])
  {
    if |boxes| == 1 then boxes[0]
    else Merge(MergeFold(boxes[..|boxes| - 1]), boxes[|boxes| - 1])
  }

  /** Any box containing every box of the sequence contains their fold. */
  lemma {:induction false} MergeFoldLeast(boxes: seq<Box>, c: Box)
    requires |boxes| > 0
    requires forall k | 0 <= k < |boxes| :: Contains(c, boxes[k])
    ensures Contains(c, MergeFold(boxes))
  {
    if |boxes| > 1 {
      MergeFoldLeast(boxes[..|boxes| - 1], c);
      MergeLattice(MergeFold(boxes[..|boxes| - 1]), boxes[|boxes| - 1], c);
    }
  }

  /** Folding a concatenation merges the folds of the two parts. */
  lemma {:induction false} MergeFoldAppend(a: seq<Box>, b: seq<Box>)
    requires |a| > 0 && |b| > 0
    ensures MergeFold(a + b) == Merge(MergeFold(a), MergeFold(b))
    decreases |b|
  {
    var ab := a + b;
    var last := b[|b| - 1];
    if |b| == 1 {
      assert ab[..|ab| - 1] == a;
    } else {
      var b' := b[..|b| - 1];
      assert ab[..|ab| - 1] == a + b';
      assert ab[|ab| - 1] == last;
      calc {
        MergeFold(ab);
        Merge(MergeFold(a + b'), last);
        { MergeFoldAppend(a, b'); }
        Merge(Merge(MergeFold(a), MergeFold(b')), last);
        { MergeLattice(MergeFold(a), MergeFold(b'), last); }
        Merge(MergeFold(a), Merge(MergeFold(b'), last));
        Merge(MergeFold(a), MergeFold(b));
      }
    }
  }

  /** A well-formed, available box merged with a well-formed box stays
      well-formed and available. */
  lemma MergeKeepsAvailable(a: Box, b: Box)
    requires WellFormed(a) && Available(a) && WellFormed(b)
    ensures WellFormed(Merge(a, b)) && Available(Merge(a, b))
  {
    AvailableIffNotPoint(a);
    var i :| 0 <= i < 3 && a.min.data[i] != a.max.data[i];
    AvailableIffNotPoint(Merge(a, b));
    assert Merge(a, b).min.data[i] != Merge(a, b).max.data[i];
  }

  /** The ray direction has no zero component, so its reciprocal exists. */
  predicate NonZeroDirection(r: Ray)
  {
    forall i | 0 <= i < 3 :: r.direction.data[i] != 0.0
  }

  /** The parameters at which the ray crosses the two slab planes of `axis`,
      computed with the reciprocal direction as the source does. */
  function SlabT0(b: Box, r: Ray, axis: nat): (v: real)
    requires axis < 3 && NonZeroDirection(r)
  {
    (b.min.data[axis] - r.origin.data[axis]) * (1.0 / r.direction.data[axis])
  }

  function SlabT1(b: Box, r: Ray, axis: nat): (v: real)
    requires axis < 3 && NonZeroDirection(r)
  {
    (b.max.data[axis] - r.origin.data[axis]) * (1.0 / r.direction.data[axis])
  }

  /** Entry and exit of the slab: the pair after the `t0 > t1` swap. */
  function SlabEntry(b: Box, r: Ray, axis: nat): (v: real)
    requires axis < 3 && NonZeroDirection(r)
  {
    var t0, t1 := SlabT0(b, r, axis), SlabT1(b, r, axis);
    if t0 > t1 then t1 else t0
  }

  function SlabExit(b: Box, r: Ray, axis: nat): (v: real)
    requires axis < 3 && NonZeroDirection(r)
  {
    var t0, t1 := SlabT0(b, r, axis), SlabT1(b, r, axis);
    if t0 > t1 then t0 else t1
  }

  /** The loop of Check from `axis` on: narrow the window by each slab and
      stop with false as soon as it is empty. */
  function CheckFrom(b: Box, r: Ray, axis: nat, tMin: real, tMax: real): (v: bool)
    requires axis <= 3 && NonZeroDirection(r)
    decreases 3 - axis
  {
    if axis == 3 then true
    else
      var lo := Max(SlabEntry(b, r, axis), tMin);
      var hi := Min(SlabExit(b, r, axis), tMax);
      if hi <= lo then false else CheckFrom(b, r, axis + 1, lo, hi)
  }

  /** BoundingBox::Check: the slab test of the ray against the box within the
      parameter window (tMin, tMax). */
  function Check(b: Box, r: Ray, tMin: real, tMax: real): (v: bool)
    requires NonZeroDirection(r)
  {
    CheckFrom(b, r, 0, tMin, tMax)
  }

  /** The latest entry and earliest exit over the axes from `axis` on. */
  function EntryFrom(b: Box, r: Ray, axis: nat, tMin: real): (v: real)
    requires axis <= 3 && NonZeroDirection(r)
    decreases 3 - axis
  {
    if axis == 3 then tMin else EntryFrom(b, r, axis + 1, Max(SlabEntry(b, r, axis), tMin))
  }

  function ExitFrom(b: Box, r: Ray, axis: nat, tMax: real): (v: real)
    requires axis <= 3 && NonZeroDirection(r)
    decreases 3 - axis
  {
    if axis == 3 then tMax else ExitFrom(b, r, axis + 1, Min(SlabExit(b, r, axis), tMax))
  }

  lemma {:induction false} EntryFromGrows(b: Box, r: Ray, axis: nat, tMin: real)
    requires axis <= 3 && NonZeroDirection(r)
    ensures tMin <= EntryFrom(b, r, axis, tMin)
    decreases 3 - axis
  {
    if axis < 3 {
      EntryFromGrows(b, r, axis + 1, Max(SlabEntry(b, r, axis), tMin));
    }
  }

  lemma {:induction false} ExitFromShrinks(b: Box, r: Ray, axis: nat, tMax: real)
    requires axis <= 3 && NonZeroDirection(r)
    ensures ExitFrom(b, r, axis, tMax) <= tMax
    decreases 3 - axis
  {
    if axis < 3 {
      ExitFromShrinks(b, r, axis + 1, Min(SlabExit(b, r, axis), tMax));
    }
  }

  /** The early return does not change the answer: the loop succeeds exactly
      when the final narrowed window is non-empty. */
  lemma {:induction false} CheckFromIff(b: Box, r: Ray, axis: nat, tMin: real, tMax: real)
    requires axis <= 3 && NonZeroDirection(r)
    requires axis == 3 ==> tMin < tMax
    ensures CheckFrom(b, r, axis, tMin, tMax) <==> EntryFrom(b, r, axis, tMin) < ExitFrom(b, r, axis, tMax)
    decreases 3 - axis
  {
    if axis < 3 {
      var lo := Max(SlabEntry(b, r, axis), tMin);
      var hi := Min(SlabExit(b, r, axis), tMax);
      if lo < hi || axis < 2 {
        CheckFromIff(b, r, axis + 1, lo, hi);
      }
      EntryFromGrows(b, r, axis + 1, lo);
      ExitFromShrinks(b, r, axis + 1, hi);
    }
  }

  /** Check holds exactly when the latest of tMin and the three slab entries
      lies strictly before the earliest of tMax and the three slab exits. */
  lemma CheckIff(b: Box, r: Ray, tMin: real, tMax: real)
    requires NonZeroDirection(r)
    ensures Check(b, r, tMin, tMax) <==>
      Max(Max(Max(tMin, SlabEntry(b, r, 0)), SlabEntry(b, r, 1)), SlabEntry(b, r, 2))
      < Min(Min(Min(tMax, SlabExit(b, r, 0)), SlabExit(b, r, 1)), SlabExit(b, r, 2))
  {
    CheckFromIff(b, r, 0, tMin, tMax);
  }

  /** An empty window (tMax <= tMin) never passes. */
  lemma CheckEmptyWindow(b: Box, r: Ray, tMin: real, tMax: real)
    requires NonZeroDirection(r) && tMax <= tMin
    ensures !Check(b, r, tMin, tMax)
  {
    CheckFromIff(b, r, 0, tMin, tMax);
    EntryFromGrows(b, r, 0, tMin);
    ExitFromShrinks(b, r, 0, tMax);
  }

  /** Widening the window never turns a passing check into a failing one. */
  lemma CheckMonotone(b: Box, r: Ray, tMin: real, tMax: real, tMin': real, tMax': real)
    requires NonZeroDirection(r)
    requires tMin' <= tMin && tMax <= tMax'
    requires Check(b, r, tMin, tMax)
    ensures Check(b, r, tMin', tMax')
  {
    CheckIff(b, r, tMin, tMax);
    CheckIff(b, r, tMin', tMax');
  }

  /** On one axis: a ray point strictly between the slab planes has its
      parameter strictly between the slab entry and exit. */
  lemma SlabStrict(b: Box, r: Ray, axis: nat, t: real)
    requires axis < 3 && NonZeroDirection(r)
    requires b.min.data[axis] < r.origin.data[axis] + r.direction.data[axis] * t < b.max.data[axis]
    ensures SlabEntry(b, r, axis) < t < SlabExit(b, r, axis)
  {
    var d := r.direction.data[axis];
    var k := 1.0 / d;
    var o := r.origin.data[axis];
    assert d * k == 1.0;
    var u0 := b.min.data[axis] - o - d * t;
    var u1 := b.max.data[axis] - o - d * t;
    assert u0 < 0.0 < u1;
    assert SlabT0(b, r, axis) == u0 * k + t by {
      assert (b.min.data[axis] - o) * k == (u0 + d * t) * k == u0 * k + t * (d * k);
    }
    assert SlabT1(b, r, axis) == u1 * k + t by {
      assert (b.max.data[axis] - o) * k == (u1 + d * t) * k == u1 * k + t * (d * k);
    }
    if d > 0.0 {
      assert k > 0.0;
      assert u0 * k < 0.0 < u1 * k;
    } else {
      assert k < 0.0;
      assert u1 * k < 0.0 < u0 * k;
    }
  }

  /** A point strictly inside a box is strictly inside every box containing
      it. */
  lemma InteriorGrows(outer: Box, inner: Box, p: Vector3)
    requires Contains(outer, inner) && Interior(inner, p)
    ensures Interior(outer, p)
  {}

  /** Soundness of pruning: if the ray passes strictly through the inside of
      the box at a parameter strictly within the window, Check passes. */
  lemma CheckSound(b: Box, r: Ray, tMin: real, tMax: real, t: real)
    requires NonZeroDirection(r)
    requires tMin < t < tMax
    requires Interior(b, At(r, t))
    ensures Check(b, r, tMin, tMax)
  {
    var p := At(r, t);
    SlabStrict(b, r, 0, t);
    SlabStrict(b, r, 1, t);
    SlabStrict(b, r, 2, t);
    CheckIff(b, r, tMin, tMax);
  }

  /** The extent of the box along `axis`. */
  function Extent(b: Box, axis: nat): (r: real)
    requires axis < 3
  {
    b.max.data[axis] - b.min.data[axis]
  }

  /** MaxDim: the axis of greatest extent, ties going to the lower index. */
  function MaxDim(b: Box): (axis: nat)
    ensures axis < 3
    ensures forall j | 0 <= j < 3 :: Extent(b, j) <= Extent(b, axis)
    ensures forall j | 0 <= j < axis :: Extent(b, j) < Extent(b, axis)
  {
    var x, y, z := Extent(b, 0), Extent(b, 1), Extent(b, 2);
    if x >= y && x >= z then 0
    else if y >= x && y >= z then 1
    else 2
  }

  /** The midpoint of the box. */
  function Centroid(b: Box): (r: Vector3)
  {
    Vec3((b.min.data[0] + b.max.data[0]) / 2.0,
         (b.min.data[1] + b.max.data[1]) / 2.0,
         (b.min.data[2] + b.max.data[2]) / 2.0)
  }

  /** The one-point box, whose corners are both `p`. */
  function PointBox(p: Vector3): (r: Box)
  {
    Box(p, p)
  }

  /** BoxesMinCompare: orders by the lower corner on `axis`. */
  function BoxesMinCompare(lhs: Box, rhs: Box, axis: nat): (r: bool)
    requires Available(lhs) && Available(rhs) && axis < 3
  {
    lhs.min.data[axis] < rhs.min.data[axis]
  }

  /** BoxesMaxCompare: orders by the upper corner on `axis`. */
  function BoxesMaxCompare(lhs: Box, rhs: Box, axis: nat): (r: bool)
    requires Available(lhs) && Available(rhs) && axis < 3
  {
    lhs.max.data[axis] < rhs.max.data[axis]
  }

  /** Both comparators are strict weak orders, as std::sort demands: never
      true of a box and itself, never true both ways, transitive, and
      incomparability (neither way true) is transitive too. */
  lemma ComparatorsStrictOrders(a: Box, b: Box, c: Box, axis: nat)
    requires Available(a) && Available(b) && Available(c) && axis < 3
    ensures !BoxesMinCompare(a, a, axis) && !BoxesMaxCompare(a, a, axis)
    ensures !(BoxesMinCompare(a, b, axis) && BoxesMinCompare(b, a, axis))
    ensures !(BoxesMaxCompare(a, b, axis) && BoxesMaxCompare(b, a, axis))
    ensures BoxesMinCompare(a, b, axis) && BoxesMinCompare(b, c, axis) ==> BoxesMinCompare(a, c, axis)
    ensures BoxesMaxCompare(a, b, axis) && BoxesMaxCompare(b, c, axis) ==> BoxesMaxCompare(a, c, axis)
    ensures !BoxesMinCompare(a, b, axis) && !BoxesMinCompare(b, a, axis)
      && !BoxesMinCompare(b, c, axis) && !BoxesMinCompare(c, b, axis)
      ==> !BoxesMinCompare(a, c, axis) && !BoxesMinCompare(c, a, axis)
    ensures !BoxesMaxCompare(a, b, axis) && !BoxesMaxCompare(b, a, axis)
      && !BoxesMaxCompare(b, c, axis) && !BoxesMaxCompare(c, b, axis)
      ==> !BoxesMaxCompare(a, c, axis) && !BoxesMaxCompare(c, a, axis)
  {}

  /** BoxesCentroidCompare as written: the right-hand side adds the LEFT box's
      maximum, so the comparison is min(lhs) + max(lhs) < min(rhs) + max(lhs). */
  function BoxesCentroidCompare(lhs: Box, rhs: Box, axis: nat): (r: bool)
    requires Available(lhs) && Available(rhs) && axis < 3
  {
    lhs.min.data[axis] + lhs.max.data[axis] < rhs.min.data[axis] + lhs.max.data[axis]
  }

  /** As written, the centroid comparator is the minimum comparator. */
  lemma CentroidCompareIsMinCompare(lhs: Box, rhs: Box, axis: nat)
    requires Available(lhs) && Available(rhs) && axis < 3
    ensures BoxesCentroidCompare(lhs, rhs, axis) == BoxesMinCompare(lhs, rhs, axis)
  {}

  /** A pair of boxes the written comparator orders against their centroids:
      [0, 10] has centroid 5 and [1, 2] has centroid 1.5 on axis 0, yet the
      written comparator puts [0, 10] first. */
  lemma CentroidCompareMisorders()
    ensures var lhs := Box(Vec3(0.0, 0.0, 0.0), Vec3(10.0, 1.0, 1.0));
            var rhs := Box(Vec3(1.0, 0.0, 0.0), Vec3(2.0, 1.0, 1.0));
            && Available(lhs) && Available(rhs)
            && BoxesCentroidCompare(lhs, rhs, 0)
            && Centroid(rhs).data[0] < Centroid(lhs).data[0]
  {
    var lhs := Box(Vec3(0.0, 0.0, 0.0), Vec3(10.0, 1.0, 1.0));
    var rhs := Box(Vec3(1.0, 0.0, 0.0), Vec3(2.0, 1.0, 1.0));
    assert lhs.min.data[0] != lhs.max.data[0];
    assert rhs.min.data[0] != rhs.max.data[0];
  }

  /** The comparator the name promises: orders by the centroid on `axis`. */
  function BoxesCentroidCompareIntended(lhs: Box, rhs: Box, axis: nat): (r: bool)
    requires Available(lhs) && Available(rhs) && axis < 3
    ensures r <==> Centroid(lhs).data[axis] < Centroid(rhs).data[axis]
  {
    lhs.min.data[axis] + lhs.max.data[axis] < rhs.min.data[axis] + rhs.max.data[axis]
  }

  /** The intended centroid comparator is a strict weak order too, with
      transitive incomparability. */
  lemma CentroidCompareIntendedStrictOrder(a: Box, b: Box, c: Box, axis: nat)
    requires Available(a) && Available(b) && Available(c) && axis < 3
    ensures !BoxesCentroidCompareIntended(a, a, axis)
    ensures !(BoxesCentroidCompareIntended(a, b, axis) && BoxesCentroidCompareIntended(b, a, axis))
    ensures BoxesCentroidCompareIntended(a, b, axis) && BoxesCentroidCompareIntended(b, c, axis) ==>
      BoxesCentroidCompareIntended(a, c, axis)
    ensures !BoxesCentroidCompareIntended(a, b, axis) && !BoxesCentroidCompareIntended(b, a, axis)
      && !BoxesCentroidCompareIntended(b, c, axis) && !BoxesCentroidCompareIntended(c, b, axis)
      ==> !BoxesCentroidCompareIntended(a, c, axis) && !BoxesCentroidCompareIntended(c, a, axis)
  {}
}
