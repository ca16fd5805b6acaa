/** ObjectList: a flat list of objects queried one after the other, each with
    the upper bound shrunk to the closest hit found so far. */
module ObjectLists {
  import opened Matrices
  import opened Boxes
  import opened Rays
  import opened Objects

  /** The bound the loop passes to the object queried after `prev`. */
  function BoundAfter(prev: Intersection, tMax: real): (r: real)
  {
    if prev.happened then prev.t else tMax
  }

  /** The record held by ObjectList::Intersect after querying the first k
      objects. */
  function ScanPrefix(objs: seq<Primitive>, r: Ray, tMin: real, tMax: real, k: nat): (v: Intersection)
    requires k <= |objs|
  {
    if k == 0 then NoHit
    else
      var prev := ScanPrefix(objs, r, tMin, tMax, k - 1);
      var cur := objs[k - 1].hit(r, tMin, BoundAfter(prev, tMax));
      if cur.happened then cur else prev
  }

  /** The upper bound object k is queried with: tMax, or the t of the latest
      hit before it. */
  function Bound(objs: seq<Primitive>, r: Ray, tMin: real, tMax: real, k: nat): (v: real)
    requires k < |objs|
  {
    BoundAfter(ScanPrefix(objs, r, tMin, tMax, k), tMax)
  }

  /** What object k reports when the loop queries it. */
  function Reported(objs: seq<Primitive>, r: Ray, tMin: real, tMax: real, k: nat): (v: Intersection)
    requires k < |objs|
  {
    objs[k].hit(r, tMin, Bound(objs, r, tMin, tMax, k))
  }

  /** Every object honours the bound it is given: a reported hit is never
      beyond it. The sphere's Intersect has this property. */
  predicate HonoursBounds(objs: seq<Primitive>, r: Ray, tMin: real, tMax: real)
  {
    forall k | 0 <= k < |objs| ::
      Reported(objs, r, tMin, tMax, k).happened ==>
        Reported(objs, r, tMin, tMax, k).t <= Bound(objs, r, tMin, tMax, k)
  }

  /** After k objects the record is the no-hit default exactly when none of
      them reported a hit. */
  lemma {:induction false} ScanHappened(objs: seq<Primitive>, r: Ray, tMin: real, tMax: real, k: nat)
    requires k <= |objs|
    ensures var s := ScanPrefix(objs, r, tMin, tMax, k);
      && (s.happened <==> exists j | 0 <= j < k :: Reported(objs, r, tMin, tMax, j).happened)
      && (!s.happened ==> s == NoHit)
  {
    if k > 0 {
      ScanHappened(objs, r, tMin, tMax, k - 1);
      var s := ScanPrefix(objs, r, tMin, tMax, k);
      if !Reported(objs, r, tMin, tMax, k - 1).happened && s.happened {
        var j :| 0 <= j < k - 1 && Reported(objs, r, tMin, tMax, j).happened;
      }
    }
  }

  /** After k objects a hit record is the one reported by the last object,
      among the first k, that reported a hit. */
  lemma {:induction false} ScanLastHit(objs: seq<Primitive>, r: Ray, tMin: real, tMax: real, k: nat)
    requires k <= |objs|
    ensures var s := ScanPrefix(objs, r, tMin, tMax, k);
      s.happened ==>
        exists j | 0 <= j < k ::
          && s == Reported(objs, r, tMin, tMax, j)
          && forall j' | j < j' < k :: !Reported(objs, r, tMin, tMax, j').happened
  {
    if k > 0 {
      ScanLastHit(objs, r, tMin, tMax, k - 1);
      var s := ScanPrefix(objs, r, tMin, tMax, k);
      if s.happened && !Reported(objs, r, tMin, tMax, k - 1).happened {
        var j :| 0 <= j < k - 1
          && ScanPrefix(objs, r, tMin, tMax, k - 1) == Reported(objs, r, tMin, tMax, j)
          && forall j' | j < j' < k - 1 :: !Reported(objs, r, tMin, tMax, j').happened;
        assert s == Reported(objs, r, tMin, tMax, j);
      }
    }
  }

  /** Object k is queried with upper bound tMax when no earlier object
      reported a hit, and otherwise with the t of the latest earlier hit. */
  lemma QueryBound(objs: seq<Primitive>, r: Ray, tMin: real, tMax: real, k: nat)
    requires k < |objs|
    ensures (forall j | 0 <= j < k :: !Reported(objs, r, tMin, tMax, j).happened) ==>
      Bound(objs, r, tMin, tMax, k) == tMax
    ensures forall j | 0 <= j < k ::
      Reported(objs, r, tMin, tMax, j).happened
      && (forall j' | j < j' < k :: !Reported(objs, r, tMin, tMax, j').happened) ==>
        Bound(objs, r, tMin, tMax, k) == Reported(objs, r, tMin, tMax, j).t
  {
    ScanHappened(objs, r, tMin, tMax, k);
    ScanLastHit(objs, r, tMin, tMax, k);
  }

  /** When the objects honour their bounds, the hit after k objects is within
      tMax and no farther than any hit the first k objects reported. */
  lemma {:induction false} ScanClosest(objs: seq<Primitive>, r: Ray, tMin: real, tMax: real, k: nat)
    requires k <= |objs|
    requires HonoursBounds(objs, r, tMin, tMax)
    ensures var s := ScanPrefix(objs, r, tMin, tMax, k);
      && (s.happened ==> s.t <= tMax)
      && forall j | 0 <= j < k ::
           Reported(objs, r, tMin, tMax, j).happened ==> s.t <= Reported(objs, r, tMin, tMax, j).t
  {
    if k > 0 {
      ScanClosest(objs, r, tMin, tMax, k - 1);
      ScanHappened(objs, r, tMin, tMax, k - 1);
      var prev := ScanPrefix(objs, r, tMin, tMax, k - 1);
      var cur := Reported(objs, r, tMin, tMax, k - 1);
      if cur.happened {
        assert cur.t <= BoundAfter(prev, tMax);
        forall j | 0 <= j < k - 1 && Reported(objs, r, tMin, tMax, j).happened
          ensures cur.t <= Reported(objs, r, tMin, tMax, j).t
        {
          assert prev.happened;
        }
      }
    }
  }

  lemma ScanClosestIfHonoured(objs: seq<Primitive>, r: Ray, tMin: real, tMax: real, k: nat)
    requires k <= |objs|
    ensures var s := ScanPrefix(objs, r, tMin, tMax, k);
      HonoursBounds(objs, r, tMin, tMax) ==>
        && (s.happened ==> s.t <= tMax)
        && forall j | 0 <= j < k ::
             Reported(objs, r, tMin, tMax, j).happened ==> s.t <= Reported(objs, r, tMin, tMax, j).t
  {
    if HonoursBounds(objs, r, tMin, tMax) {
      ScanClosest(objs, r, tMin, tMax, k);
    }
  }

  /** ObjectList::Intersect: the hit of the last object that reported one,
      each object being queried up to the closest hit so far. */
  function Intersect(objs: seq<Primitive>, r: Ray, tMin: real, tMax: real): (res: Intersection)
    ensures |objs| == 0 ==> res == NoHit
    ensures res.happened <==> exists k | 0 <= k < |objs| :: Reported(objs, r, tMin, tMax, k).happened
    ensures !res.happened ==> res == NoHit
    ensures res.happened ==>
      exists k | 0 <= k < |objs| ::
        && res == Reported(objs, r, tMin, tMax, k)
        && forall j | k < j < |objs| :: !Reported(objs, r, tMin, tMax, j).happened
    ensures HonoursBounds(objs, r, tMin, tMax) ==>
      && (res.happened ==> res.t <= tMax)
      && forall k | 0 <= k < |objs| ::
           Reported(objs, r, tMin, tMax, k).happened ==> res.t <= Reported(objs, r, tMin, tMax, k).t
  {
    ScanHappened(objs, r, tMin, tMax, |objs|);
    ScanLastHit(objs, r, tMin, tMax, |objs|);
    ScanClosestIfHonoured(objs, r, tMin, tMax, |objs|);
    ScanPrefix(objs, r, tMin, tMax, |objs|)
  }

  /** The boxes of the objects, in order. */
  function BoxesOf(objs: seq<Primitive>): (bs: seq<Box>)
    ensures |bs| == |objs|
    ensures forall k | 0 <= k < |objs| :: bs[k] == objs[k].box
  {
    seq(|objs|, k requires 0 <= k < |objs| => objs[k].box)
  }

  /** The loop of ObjectList::GetBoundingBox after k boxes: it starts from the
      zero box, replaces the running box while that is not available, and
      merges into it once it is. */
  function BoxScan(boxes: seq<Box>, k: nat): (r: Box)
    requires k <= |boxes|
  {
    if k == 0 then ZeroBox
    else
      var prev := BoxScan(boxes, k - 1);
      if Available(prev) then Merge(prev, boxes[k - 1]) else boxes[k - 1]
  }

  /** Once the first box is available and every box is well-formed, the scan
      is the merge fold of the boxes seen so far. */
  lemma {:induction false} BoxScanIsFold(boxes: seq<Box>, k: nat)
    requires 0 < k <= |boxes|
    requires Available(boxes[0])
    requires forall j | 0 <= j < |boxes| :: WellFormed(boxes[j])
    ensures BoxScan(boxes, k) == MergeFold(boxes[..k])
    ensures WellFormed(BoxScan(boxes, k)) && Available(BoxScan(boxes, k))
  {
    ZeroBoxNotAvailable();
    if k == 1 {
      assert boxes[..1] == [boxes[0]];
    } else {
      BoxScanIsFold(boxes, k - 1);
      assert boxes[..k][..k - 1] == boxes[..k - 1];
      MergeKeepsAvailable(BoxScan(boxes, k - 1), boxes[k - 1]);
      MergeWellFormed(BoxScan(boxes, k - 1), boxes[k - 1]);
    }
  }

  /** ObjectList::GetBoundingBox as written. When the first object's box is
      available and all boxes are well-formed it is the smallest box
      containing every object's box. */
  function GetBoundingBox(objs: seq<Primitive>): (b: Box)
    requires |objs| > 0
    ensures Available(objs[0].box) && (forall k | 0 <= k < |objs| :: WellFormed(objs[k].box)) ==>
      && b == MergeFold(BoxesOf(objs))
      && forall k | 0 <= k < |objs| :: Contains(b, objs[k].box)
  {
    BoxScanFoldIfAvailable(objs);
    BoxScan(BoxesOf(objs), |objs|)
  }

  lemma BoxScanFoldIfAvailable(objs: seq<Primitive>)
    requires |objs| > 0
    ensures Available(objs[0].box) && (forall k | 0 <= k < |objs| :: WellFormed(objs[k].box)) ==>
      BoxScan(BoxesOf(objs), |objs|) == MergeFold(BoxesOf(objs))
  {
    var bs := BoxesOf(objs);
    if Available(objs[0].box) && forall k | 0 <= k < |objs| :: WellFormed(objs[k].box) {
      BoxScanIsFold(bs, |bs|);
      assert bs[..|bs|] == bs;
    }
  }

  /** A list whose boxes are two distinct points: the scan drops the first
      point, so the result does not contain the first object's box. */
  lemma GetBoundingBoxDropsLeadingPoint(p: Primitive, q: Primitive)
    requires p.box == PointBox(Vec3(0.0, 0.0, 0.0)) && q.box == PointBox(Vec3(1.0, 1.0, 1.0))
    ensures GetBoundingBox([p, q]) == q.box
    ensures !Contains(GetBoundingBox([p, q]), p.box)
  {
    var a := PointBox(Vec3(0.0, 0.0, 0.0));
    AvailableIffNotPoint(a);
    AvailableIffNotPoint(ZeroBox);
    assert BoxesOf([p, q]) == [a, q.box];
    assert !Available(BoxScan([a, q.box], 1));
  }

  /** The evidently intended bounding box of a non-empty list: the merge of
      all its objects' boxes. */
  function GetBoundingBoxIntended(objs: seq<Primitive>): (b: Box)
    requires |objs| > 0
    ensures forall k | 0 <= k < |objs| :: Contains(b, objs[k].box)
    ensures forall c: Box :: (forall k | 0 <= k < |objs| :: Contains(c, objs[k].box)) ==> Contains(c, b)
  {
    var bs := BoxesOf(objs);
    forall c: Box | forall k | 0 <= k < |objs| :: Contains(c, objs[k].box)
      ensures Contains(c, MergeFold(bs))
    {
      MergeFoldLeast(bs, c);
    }
    MergeFold(bs)
  }
}
