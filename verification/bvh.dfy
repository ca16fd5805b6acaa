/** The bounding volume hierarchy: a binary tree over the object list, split
    at the median index, queried breadth-first with slab-test pruning, and
    descended by area for light sampling. */
module Bvh {
  import opened Matrices
  import opened Base
  import opened Rays
  import opened Boxes
  import opened Objects
  import opened ObjectLists
  import opened Options

  /** BvhNode: a leaf holds one object; an internal node holds two children.
      Both record a box and an area. */
  datatype Node =
    | Leaf(prim: Primitive, box: Box, area: real)
    | Internal(left: Node, right: Node, box: Box, area: real)

  /** The objects at the leaves, left to right. */
  function Leaves(n: Node): (ls: seq<Primitive>)
    ensures |ls| > 0
  {
    match n
    case Leaf(o, _, _) => [o]
    case Internal(l, r, _, _) => Leaves(l) + Leaves(r)
  }

  function Height(n: Node): (r: nat)
  {
    match n
    case Leaf(_, _, _) => 0
    case Internal(l, r, _, _) => 1 + if Height(l) < Height(r) then Height(r) else Height(l)
  }

  /** Every leaf carries its object's box and every internal node the merge
      of its children's boxes. */
  predicate BoxesConsistent(n: Node)
  {
    match n
    case Leaf(o, box, _) => box == o.box
    case Internal(l, r, box, _) => box == Merge(l.box, r.box) && BoxesConsistent(l) && BoxesConsistent(r)
  }

  /** Every leaf carries its object's area and every internal node the sum
      of its children's areas. */
  predicate AreasConsistent(n: Node)
  {
    match n
    case Leaf(o, _, area) => area == o.area
    case Internal(l, r, _, area) => area == l.area + r.area && AreasConsistent(l) && AreasConsistent(r)
  }

  /** The boxes and areas the constructor records. */
  predicate Consistent(n: Node)
  {
    BoxesConsistent(n) && AreasConsistent(n)
  }

  /** Every internal node's left subtree holds the lower half (rounded down)
      of its leaves. */
  predicate MedianSplit(n: Node)
  {
    match n
    case Leaf(_, _, _) => true
    case Internal(l, r, _, _) =>
      && |Leaves(l)| == |Leaves(n)| / 2
      && MedianSplit(l) && MedianSplit(r)
  }

  /** BvhNode(objects, begin, end), as a function of the slice
      objects[begin..end]: the recursion reads no other part of the list (see
      BuildFollowsIndices). The centroid box and split axis the source
      computes only order a copy of the list that the recursion does not
      read, so they do not appear here. */
  function Build(objs: seq<Primitive>): (r: Node)
    requires |objs| > 0
  {
    if |objs| == 1 then Leaf(objs[0], objs[0].box, objs[0].area)
    else Join(Build(objs[..|objs| / 2]), Build(objs[|objs| / 2..]))
  }

  /** The internal node over two subtrees: the merge of their boxes and the
      sum of their areas. */
  function Join(l: Node, r: Node): (n: Node)
    ensures n.Internal? && n.left == l && n.right == r
  {
    Internal(l, r, Merge(l.box, r.box), l.area + r.area)
  }

  /** BvhNode with its assertion: a range of two or more objects is sorted
      with BoxesCentroidCompare, which asserts that both boxes it compares
      are available, and a comparison sort compares every element of the
      range. None stands for the aborted construction. */
  function BuildChecked(objs: seq<Primitive>): (r: Option<Node>)
    requires |objs| > 0
  {
    if |objs| == 1 then Some(Leaf(objs[0], objs[0].box, objs[0].area))
    else if exists k | 0 <= k < |objs| :: !Available(objs[k].box) then None
    else
      match (BuildChecked(objs[..|objs| / 2]), BuildChecked(objs[|objs| / 2..]))
      case (Some(l), Some(h)) => Some(Join(l, h))
      case _ => None
  }

  /** What the comparator's assertion demands of the whole list: in a range
      of two or more, every box is available. */
  predicate SortAccepts(objs: seq<Primitive>)
  {
    |objs| > 1 ==> forall k | 0 <= k < |objs| :: Available(objs[k].box)
  }

  /** The checked construction succeeds exactly when the top-level sort
      accepts the list (the halves' sorts then accept theirs), and it then
      builds the tree Build describes. */
  lemma {:induction false} BuildCheckedIff(objs: seq<Primitive>)
    requires |objs| > 0
    ensures BuildChecked(objs).Some? <==> SortAccepts(objs)
    ensures SortAccepts(objs) ==> BuildChecked(objs).Some? && BuildChecked(objs).value == Build(objs)
  {
    if |objs| > 1 && SortAccepts(objs) {
      var lo, hi := objs[..|objs| / 2], objs[|objs| / 2..];
      assert forall k | 0 <= k < |lo| :: lo[k] == objs[k];
      assert forall k | 0 <= k < |hi| :: hi[k] == objs[|objs| / 2 + k];
      BuildCheckedIff(lo);
      BuildCheckedIff(hi);
    }
  }

  /** One point-sized box among two or more objects aborts construction. */
  lemma PointBoxAborts(objs: seq<Primitive>, k: nat)
    requires 1 < |objs| && k < |objs| && !Available(objs[k].box)
    ensures BuildChecked(objs) == None
  {}

  /** The source's index recursion: over one object BvhNode(list, b, e) is
      that object's leaf, and over more it joins BvhNode(list, b, mid) and
      BvhNode(list, mid, e) with mid = b + (e - b) / 2. */
  lemma BuildFollowsIndices(list: seq<Primitive>, b: nat, e: nat)
    requires b < e <= |list|
    ensures e - b == 1 ==> Build(list[b..e]) == Leaf(list[b], list[b].box, list[b].area)
    ensures e - b > 1 ==>
      var mid := b + (e - b) / 2;
      Build(list[b..e]) == Join(Build(list[b..mid]), Build(list[mid..e]))
  {
    var s := list[b..e];
    if e - b > 1 {
      var mid := b + (e - b) / 2;
      SliceHalves(list, b, e);
      BuildSplits(s, list[b..mid], list[mid..e]);
    }
  }

  lemma SliceHalves(list: seq<Primitive>, b: nat, e: nat)
    requires b < e <= |list| && e - b > 1
    ensures list[b..e][..(e - b) / 2] == list[b..b + (e - b) / 2]
    ensures list[b..e][(e - b) / 2..] == list[b + (e - b) / 2..e]
  {
  }

  lemma BuildSplits(s: seq<Primitive>, lo: seq<Primitive>, hi: seq<Primitive>)
    requires |s| > 1 && lo == s[..|s| / 2] && hi == s[|s| / 2..]
    ensures Build(s) == Join(Build(lo), Build(hi))
  {
  }

  /** A built tree holds exactly the given objects in list order, is
      consistent, and splits every node at the median. */
  lemma BuildInvariants(objs: seq<Primitive>)
    requires |objs| > 0
    ensures Leaves(Build(objs)) == objs
    ensures Consistent(Build(objs)) && MedianSplit(Build(objs))
  {
    BuildLeaves(objs);
    BuildMedianSplit(objs);
    BuildBoxesConsistent(objs);
    BuildAreasConsistent(objs);
  }

  lemma {:induction false} BuildLeaves(objs: seq<Primitive>)
    requires |objs| > 0
    ensures Leaves(Build(objs)) == objs
  {
    if |objs| == 1 {
    } else {
      var half := |objs| / 2;
      BuildLeaves(objs[..half]);
      BuildLeaves(objs[half..]);
      assert objs[..half] + objs[half..] == objs;
    }
  }

  lemma {:induction false} BuildMedianSplit(objs: seq<Primitive>)
    requires |objs| > 0
    ensures MedianSplit(Build(objs))
  {
    if |objs| == 1 {
    } else {
      var half := |objs| / 2;
      BuildMedianSplit(objs[..half]);
      BuildMedianSplit(objs[half..]);
      BuildLeaves(objs);
      BuildLeaves(objs[..half]);
    }
  }

  lemma {:induction false} BuildBoxesConsistent(objs: seq<Primitive>)
    requires |objs| > 0
    ensures BoxesConsistent(Build(objs))
  {
    if |objs| == 1 {
    } else {
      var half := |objs| / 2;
      BuildBoxesConsistent(objs[..half]);
      BuildBoxesConsistent(objs[half..]);
    }
  }

  lemma {:induction false} BuildAreasConsistent(objs: seq<Primitive>)
    requires |objs| > 0
    ensures AreasConsistent(Build(objs))
  {
    if |objs| == 1 {
    } else {
      var half := |objs| / 2;
      BuildAreasConsistent(objs[..half]);
      BuildAreasConsistent(objs[half..]);
    }
  }

  /** The shape of a tree, without its contents. */
  datatype Shape = Tip | Fork(left: Shape, right: Shape)

  function ShapeOf(n: Node): (r: Shape)
  {
    match n
    case Leaf(_, _, _) => Tip
    case Internal(l, r, _, _) => Fork(ShapeOf(l), ShapeOf(r))
  }

  /** The shape of a median-split tree over `count` leaves. */
  function MedianShape(count: nat): (r: Shape)
    requires count > 0
  {
    if count == 1 then Tip else Fork(MedianShape(count / 2), MedianShape(count - count / 2))
  }

  /** A median-split tree has the median shape of its leaf count. */
  lemma {:induction false} MedianSplitShape(n: Node)
    requires MedianSplit(n)
    ensures ShapeOf(n) == MedianShape(|Leaves(n)|)
  {
    match n
    case Leaf(_, _, _) =>
    case Internal(l, r, _, _) =>
      MedianSplitShape(l);
      MedianSplitShape(r);
  }

  /** The shape of a tree depends only on how many objects it was built
      over, not on their boxes. */
  lemma BuildShapeOnlyCount(objs: seq<Primitive>, objs': seq<Primitive>)
    requires |objs| > 0 && |objs| == |objs'|
    ensures ShapeOf(Build(objs)) == ShapeOf(Build(objs'))
  {
    BuildInvariants(objs);
    BuildInvariants(objs');
    MedianSplitShape(Build(objs));
    MedianSplitShape(Build(objs'));
  }

  function Pow2(k: nat): (p: nat)
    ensures p >= 1
  {
    if k == 0 then 1 else 2 * Pow2(k - 1)
  }

  /** The height of a median-split tree over n leaves. */
  function CeilLog2(n: nat): (r: nat)
  {
    if n <= 1 then 0 else 1 + CeilLog2((n + 1) / 2)
  }

  /** CeilLog2(n) is the ceiling of log2(n): the least k with n <= 2^k. */
  lemma {:induction false} CeilLog2IsCeiling(n: nat)
    requires n >= 1
    ensures n <= Pow2(CeilLog2(n))
    ensures CeilLog2(n) > 0 ==> Pow2(CeilLog2(n) - 1) < n
  {
    if n > 1 {
      var m := (n + 1) / 2;
      CeilLog2IsCeiling(m);
      if CeilLog2(m) > 0 {
        assert Pow2(CeilLog2(m)) == 2 * Pow2(CeilLog2(m) - 1);
      }
    }
  }

  lemma {:induction false} CeilLog2Monotone(a: nat, b: nat)
    requires a <= b
    ensures CeilLog2(a) <= CeilLog2(b)
    decreases b
  {
    if a > 1 {
      CeilLog2Monotone((a + 1) / 2, (b + 1) / 2);
    }
  }

  /** A median-split tree over n leaves has height ceil(log2 n). */
  lemma {:induction false} MedianSplitHeight(n: Node)
    requires MedianSplit(n)
    ensures Height(n) == CeilLog2(|Leaves(n)|)
  {
    match n
    case Leaf(_, _, _) =>
    case Internal(l, r, _, _) =>
      MedianSplitHeight(l);
      MedianSplitHeight(r);
      var c := |Leaves(n)|;
      assert |Leaves(r)| == c - c / 2 == (c + 1) / 2;
      CeilLog2Monotone(c / 2, (c + 1) / 2);
  }

  /** A tree built over n objects has height ceil(log2 n). */
  lemma BuildHeight(objs: seq<Primitive>)
    requires |objs| > 0
    ensures Height(Build(objs)) == CeilLog2(|objs|)
  {
    BuildInvariants(objs);
    MedianSplitHeight(Build(objs));
  }

  /** The box of a consistent tree is the merge fold of its leaves' boxes. */
  lemma {:induction false} ConsistentBox(n: Node)
    requires BoxesConsistent(n)
    ensures n.box == MergeFold(BoxesOf(Leaves(n)))
  {
    match n
    case Leaf(o, _, _) =>
      assert BoxesOf(Leaves(n)) == [o.box];
    case Internal(l, r, _, _) =>
      ConsistentBox(l);
      ConsistentBox(r);
      BoxesOfAppend(Leaves(l), Leaves(r));
      MergeFoldAppend(BoxesOf(Leaves(l)), BoxesOf(Leaves(r)));
  }

  lemma BoxesOfAppend(a: seq<Primitive>, b: seq<Primitive>)
    ensures BoxesOf(a + b) == BoxesOf(a) + BoxesOf(b)
  {
    assert forall k | 0 <= k < |a + b| :: BoxesOf(a + b)[k] == (BoxesOf(a) + BoxesOf(b))[k];
  }

  /** The root built over a list covers it exactly as the merge of all the
      objects' boxes does. */
  lemma BuildBox(objs: seq<Primitive>)
    requires |objs| > 0
    ensures Build(objs).box == GetBoundingBoxIntended(objs)
    ensures forall k | 0 <= k < |objs| :: Contains(Build(objs).box, objs[k].box)
  {
    BuildInvariants(objs);
    ConsistentBox(Build(objs));
  }

  /** The total area of a sequence of objects. */
  function AreaSum(objs: seq<Primitive>): (r: real)
  {
    if |objs| == 0 then 0.0 else AreaSum(objs[..|objs| - 1]) + objs[|objs| - 1].area
  }

  lemma {:induction false} AreaSumAppend(a: seq<Primitive>, b: seq<Primitive>)
    ensures AreaSum(a + b) == AreaSum(a) + AreaSum(b)
    decreases |b|
  {
    if |b| == 0 {
      assert a + b == a;
    } else {
      assert (a + b)[..|a + b| - 1] == a + b[..|b| - 1];
      AreaSumAppend(a, b[..|b| - 1]);
    }
  }

  predicate NonNegativeAreas(objs: seq<Primitive>)
  {
    forall k | 0 <= k < |objs| :: objs[k].area >= 0.0
  }

  lemma {:induction false} AreaSumNonNegative(objs: seq<Primitive>)
    requires NonNegativeAreas(objs)
    ensures AreaSum(objs) >= 0.0
  {
    if |objs| > 0 {
      AreaSumNonNegative(objs[..|objs| - 1]);
    }
  }

  /** The area of a consistent tree is the total area of its objects. */
  lemma {:induction false} ConsistentArea(n: Node)
    requires AreasConsistent(n)
    ensures n.area == AreaSum(Leaves(n))
  {
    match n
    case Leaf(o, _, _) =>
      assert Leaves(n)[..0] == [];
    case Internal(l, r, _, _) =>
      ConsistentArea(l);
      ConsistentArea(r);
      AreaSumAppend(Leaves(l), Leaves(r));
  }

  /** A consistent tree's box contains each of its objects' boxes. */
  lemma ConsistentContainsLeaves(n: Node, k: nat)
    requires BoxesConsistent(n) && k < |Leaves(n)|
    ensures Contains(n.box, Leaves(n)[k].box)
  {
    ConsistentBox(n);
    assert BoxesOf(Leaves(n))[k] == Leaves(n)[k].box;
  }

  /** The leaf hits CheckIntersect reaches below n, in depth-first order: a
      node whose box fails the slab test contributes none, and every reached
      leaf is queried with the full window. */
  function ReachedHits(n: Node, r: Ray, tMin: real, tMax: real): (v: seq<Intersection>)
    requires NonZeroDirection(r)
  {
    if !Check(n.box, r, tMin, tMax) then []
    else
      match n
      case Leaf(o, _, _) => [o.hit(r, tMin, tMax)]
      case Internal(left, right, _, _) => ReachedHits(left, r, tMin, tMax) + ReachedHits(right, r, tMin, tMax)
  }

  /** The hits still to be reached from a queue of nodes. */
  function QueueHits(q: seq<Node>, r: Ray, tMin: real, tMax: real): (v: seq<Intersection>)
    requires NonZeroDirection(r)
  {
    if |q| == 0 then [] else ReachedHits(q[0], r, tMin, tMax) + QueueHits(q[1..], r, tMin, tMax)
  }

  lemma {:induction false} QueueHitsAppend(a: seq<Node>, b: seq<Node>, r: Ray, tMin: real, tMax: real)
    requires NonZeroDirection(r)
    ensures QueueHits(a + b, r, tMin, tMax) == QueueHits(a, r, tMin, tMax) + QueueHits(b, r, tMin, tMax)
  {
    if |a| == 0 {
      assert a + b == b;
    } else {
      assert (a + b)[1..] == a[1..] + b;
      QueueHitsAppend(a[1..], b, r, tMin, tMax);
    }
  }

  /** The number of nodes in a tree and in a queue, the loop's measure. */
  function Size(n: Node): (r: nat)
  {
    match n
    case Leaf(_, _, _) => 1
    case Internal(l, r, _, _) => 1 + Size(l) + Size(r)
  }

  function QueueSize(q: seq<Node>): (r: nat)
  {
    if |q| == 0 then 0 else Size(q[0]) + QueueSize(q[1..])
  }

  lemma {:induction false} QueueSizeAppend(a: seq<Node>, b: seq<Node>)
    ensures QueueSize(a + b) == QueueSize(a) + QueueSize(b)
  {
    if |a| == 0 {
      assert a + b == b;
    } else {
      assert (a + b)[1..] == a[1..] + b;
      QueueSizeAppend(a[1..], b);
    }
  }

  /** The update rule of CheckIntersect: a hit that happened strictly closer
      than the record replaces it. */
  function Closer(best: Intersection, cur: Intersection): (r: Intersection)
  {
    if cur.happened && cur.t < best.t then cur else best
  }

  /** `best` is the record after seeing the hits `seen` in order: the no-hit
      default when none of them happened closer than DoubleMax, and otherwise
      the first of the closest. */
  predicate IsRecord(best: Intersection, seen: seq<Intersection>)
  {
    && (!best.happened ==> best == NoHit)
    && (best.happened ==>
          && best.t < DoubleMax
          && exists j | 0 <= j < |seen| ::
               seen[j] == best && forall k | 0 <= k < j :: seen[k].happened ==> best.t < seen[k].t)
    && (forall k | 0 <= k < |seen| :: seen[k].happened ==> best.t <= seen[k].t)
    && (best.happened <==> exists k | 0 <= k < |seen| :: seen[k].happened && seen[k].t < DoubleMax)
  }

  lemma RecordStart()
    ensures IsRecord(NoHit, [])
  {}

  /** Seeing one more hit keeps the record. */
  lemma RecordStep(best: Intersection, seen: seq<Intersection>, cur: Intersection)
    requires IsRecord(best, seen)
    ensures IsRecord(Closer(best, cur), seen + [cur])
  {
    var seen' := seen + [cur];
    assert forall k | 0 <= k < |seen| :: seen'[k] == seen[k];
    if cur.happened && cur.t < best.t {
      assert seen'[|seen|] == cur;
    } else if best.happened {
      var j :| 0 <= j < |seen| && seen[j] == best && forall k | 0 <= k < j :: seen[k].happened ==> best.t < seen[k].t;
      assert seen'[j] == best;
    }
  }

  /** The record over one order of the hits describes every reordering. */
  lemma RecordOfAll(best: Intersection, seen: seq<Intersection>, all: seq<Intersection>)
    requires IsRecord(best, seen) && multiset(seen) == multiset(all)
    ensures !best.happened ==> best == NoHit
    ensures best.happened ==> best in all
    ensures best.happened <==> exists h | h in all :: h.happened && h.t < DoubleMax
    ensures forall h | h in all :: h.happened ==> best.t <= h.t
  {
    forall h | h in all
      ensures h in seen
    {
      assert h in multiset(all);
    }
    forall h | h in seen
      ensures h in all
    {
      assert h in multiset(seen);
    }
  }

  /** The children CheckIntersect queues: those whose boxes pass the slab
      test, left first. */
  function Pushed(left: Node, right: Node, r: Ray, tMin: real, tMax: real): (v: seq<Node>)
    requires NonZeroDirection(r)
  {
    (if Check(left.box, r, tMin, tMax) then [left] else [])
      + (if Check(right.box, r, tMin, tMax) then [right] else [])
  }

  lemma QueueSingle(n: Node, r: Ray, tMin: real, tMax: real)
    requires NonZeroDirection(r)
    ensures QueueHits([n], r, tMin, tMax) == ReachedHits(n, r, tMin, tMax)
    ensures QueueSize([n]) == Size(n)
  {
    assert [n][1..] == [];
    assert ReachedHits(n, r, tMin, tMax) + [] == ReachedHits(n, r, tMin, tMax);
  }

  lemma PushedHits(left: Node, right: Node, r: Ray, tMin: real, tMax: real)
    requires NonZeroDirection(r)
    ensures QueueHits(Pushed(left, right, r, tMin, tMax), r, tMin, tMax)
      == ReachedHits(left, r, tMin, tMax) + ReachedHits(right, r, tMin, tMax)
    ensures QueueSize(Pushed(left, right, r, tMin, tMax)) <= Size(left) + Size(right)
  {
    var hl, hr := ReachedHits(left, r, tMin, tMax), ReachedHits(right, r, tMin, tMax);
    var pl := if Check(left.box, r, tMin, tMax) then [left] else [];
    var pr := if Check(right.box, r, tMin, tMax) then [right] else [];
    QueueSingle(left, r, tMin, tMax);
    QueueSingle(right, r, tMin, tMax);
    assert QueueHits(pl, r, tMin, tMax) == hl && QueueSize(pl) <= Size(left);
    assert QueueHits(pr, r, tMin, tMax) == hr && QueueSize(pr) <= Size(right);
    QueueHitsAppend(pl, pr, r, tMin, tMax);
    QueueSizeAppend(pl, pr);
  }

  lemma QueueStep(queue: seq<Node>, r: Ray, tMin: real, tMax: real)
    requires |queue| > 0 && NonZeroDirection(r)
    ensures QueueHits(queue, r, tMin, tMax) == ReachedHits(queue[0], r, tMin, tMax) + QueueHits(queue[1..], r, tMin, tMax)
    ensures QueueSize(queue) == Size(queue[0]) + QueueSize(queue[1..])
  {}

  /** The hits a first-in first-out walk from `queue` sees, in the order it
      sees them: a node that fails the slab test is dropped, a passing leaf
      contributes its hit, and a passing internal node is replaced at the
      back of the queue by its passing children, left first. This is the
      level order of the pruned tree when the walk starts from the root. */
  function BfsHits(queue: seq<Node>, r: Ray, tMin: real, tMax: real): (v: seq<Intersection>)
    requires NonZeroDirection(r)
    decreases QueueSize(queue)
  {
    if |queue| == 0 then []
    else
      QueueStep(queue, r, tMin, tMax);
      if !Check(queue[0].box, r, tMin, tMax) then BfsHits(queue[1..], r, tMin, tMax)
      else
        match queue[0]
        case Leaf(o, _, _) => [o.hit(r, tMin, tMax)] + BfsHits(queue[1..], r, tMin, tMax)
        case Internal(left, right, _, _) =>
          PushedHits(left, right, r, tMin, tMax);
          QueueSizeAppend(queue[1..], Pushed(left, right, r, tMin, tMax));
          BfsHits(queue[1..] + Pushed(left, right, r, tMin, tMax), r, tMin, tMax)
  }

  /** The loop's visiting order so far, followed by what the walk from the
      queue will see, is the level order from the root. */
  predicate LevelOrderSoFar(root: Node, queue: seq<Node>, order: seq<Intersection>, r: Ray, tMin: real, tMax: real)
    requires NonZeroDirection(r)
  {
    order + BfsHits(queue, r, tMin, tMax) == BfsHits([root], r, tMin, tMax)
  }

  /** Each kind of loop step keeps LevelOrderSoFar. */
  lemma LevelOrderStep(root: Node, queue: seq<Node>, order: seq<Intersection>, r: Ray, tMin: real, tMax: real)
    requires NonZeroDirection(r) && |queue| > 0
    requires LevelOrderSoFar(root, queue, order, r, tMin, tMax)
    ensures !Check(queue[0].box, r, tMin, tMax) ==> LevelOrderSoFar(root, queue[1..], order, r, tMin, tMax)
    ensures Check(queue[0].box, r, tMin, tMax) && queue[0].Leaf? ==>
      LevelOrderSoFar(root, queue[1..], order + [queue[0].prim.hit(r, tMin, tMax)], r, tMin, tMax)
    ensures Check(queue[0].box, r, tMin, tMax) && queue[0].Internal? ==>
      LevelOrderSoFar(root, queue[1..] + Pushed(queue[0].left, queue[0].right, r, tMin, tMax), order, r, tMin, tMax)
  {
    if Check(queue[0].box, r, tMin, tMax) && queue[0].Leaf? {
      var cur := queue[0].prim.hit(r, tMin, tMax);
      assert BfsHits(queue, r, tMin, tMax) == [cur] + BfsHits(queue[1..], r, tMin, tMax);
      assert order + [cur] + BfsHits(queue[1..], r, tMin, tMax) == order + ([cur] + BfsHits(queue[1..], r, tMin, tMax));
    }
  }

  /** The record of a sequence of hits is unique: the closest hit that comes
      first, so the visiting order alone decides between tied hits. */
  lemma RecordUnique(a: Intersection, b: Intersection, seen: seq<Intersection>)
    requires IsRecord(a, seen) && IsRecord(b, seen)
    ensures a == b
  {
    if a.happened && b.happened {
      var i :| 0 <= i < |seen| && seen[i] == a && forall k | 0 <= k < i :: seen[k].happened ==> a.t < seen[k].t;
      var j :| 0 <= j < |seen| && seen[j] == b && forall k | 0 <= k < j :: seen[k].happened ==> b.t < seen[k].t;
    }
  }

  /** The state of the CheckIntersect loop: the hits seen so far together with
      those still reachable from the queue are the hits the walk reaches from
      the root, and `res` is the record of the hits seen. */
  predicate WalkState(root: Node, queue: seq<Node>, order: seq<Intersection>, res: Intersection, r: Ray, tMin: real, tMax: real)
    requires NonZeroDirection(r)
  {
    && multiset(order) + multiset(QueueHits(queue, r, tMin, tMax)) == multiset(ReachedHits(root, r, tMin, tMax))
    && IsRecord(res, order)
  }

  /** A popped node whose box fails the slab test is dropped. */
  lemma SkipStep(root: Node, queue: seq<Node>, order: seq<Intersection>, res: Intersection, r: Ray, tMin: real, tMax: real)
    requires NonZeroDirection(r) && |queue| > 0
    requires WalkState(root, queue, order, res, r, tMin, tMax)
    requires !Check(queue[0].box, r, tMin, tMax)
    ensures WalkState(root, queue[1..], order, res, r, tMin, tMax)
    ensures QueueSize(queue[1..]) < QueueSize(queue)
  {
    QueueStep(queue, r, tMin, tMax);
    assert ReachedHits(queue[0], r, tMin, tMax) == [];
  }

  /** A popped leaf whose box passes contributes its hit to the record. */
  lemma LeafStep(root: Node, queue: seq<Node>, order: seq<Intersection>, res: Intersection, r: Ray, tMin: real, tMax: real)
    requires NonZeroDirection(r) && |queue| > 0 && queue[0].Leaf?
    requires WalkState(root, queue, order, res, r, tMin, tMax)
    requires Check(queue[0].box, r, tMin, tMax)
    ensures var cur := queue[0].prim.hit(r, tMin, tMax);
      WalkState(root, queue[1..], order + [cur], Closer(res, cur), r, tMin, tMax)
    ensures QueueSize(queue[1..]) < QueueSize(queue)
  {
    var cur := queue[0].prim.hit(r, tMin, tMax);
    QueueStep(queue, r, tMin, tMax);
    assert ReachedHits(queue[0], r, tMin, tMax) == [cur];
    RecordStep(res, order, cur);
  }

  /** A popped internal node whose box passes is replaced in the queue by
      the children whose boxes pass. */
  lemma InternalStep(root: Node, queue: seq<Node>, order: seq<Intersection>, res: Intersection, r: Ray, tMin: real, tMax: real)
    requires NonZeroDirection(r) && |queue| > 0 && queue[0].Internal?
    requires WalkState(root, queue, order, res, r, tMin, tMax)
    requires Check(queue[0].box, r, tMin, tMax)
    ensures var next := queue[1..] + Pushed(queue[0].left, queue[0].right, r, tMin, tMax);
      WalkState(root, next, order, res, r, tMin, tMax) && QueueSize(next) < QueueSize(queue)
  {
    var n := queue[0];
    var pushed := Pushed(n.left, n.right, r, tMin, tMax);
    QueueStep(queue, r, tMin, tMax);
    assert ReachedHits(n, r, tMin, tMax) == ReachedHits(n.left, r, tMin, tMax) + ReachedHits(n.right, r, tMin, tMax);
    PushedHits(n.left, n.right, r, tMin, tMax);
    QueueHitsAppend(queue[1..], pushed, r, tMin, tMax);
    QueueSizeAppend(queue[1..], pushed);
  }

  /** Once the queue is empty every reached hit has been seen, and the
      record describes them all. */
  lemma WalkDone(root: Node, queue: seq<Node>, order: seq<Intersection>, res: Intersection, r: Ray, tMin: real, tMax: real)
    requires NonZeroDirection(r) && |queue| == 0
    requires WalkState(root, queue, order, res, r, tMin, tMax)
    ensures multiset(order) == multiset(ReachedHits(root, r, tMin, tMax))
    ensures IsRecord(res, order)
    ensures !res.happened ==> res == NoHit
    ensures res.happened ==> res in ReachedHits(root, r, tMin, tMax)
    ensures res.happened <==> exists h | h in ReachedHits(root, r, tMin, tMax) :: h.happened && h.t < DoubleMax
    ensures forall h | h in ReachedHits(root, r, tMin, tMax) :: h.happened ==> res.t <= h.t
  {
    assert QueueHits(queue, r, tMin, tMax) == [];
    RecordOfAll(res, order, ReachedHits(root, r, tMin, tMax));
  }

  /** BvhTree::CheckIntersect: a breadth-first walk over a queue from the
      root; a node is expanded only if its box passes the slab test, a child is
      queued only if its box does too, and a leaf's hit replaces the record
      when it happened and its t is strictly smaller. The result is the
      closest hit among the leaves the pruned walk reaches; `order` is the
      level order in which their hits were seen, and among tied hits the
      first in that order is the result (RecordUnique). */
  method CheckIntersect(root: Node, r: Ray, tMin: real, tMax: real)
    returns (res: Intersection, ghost order: seq<Intersection>)
    requires NonZeroDirection(r)
    ensures order == BfsHits([root], r, tMin, tMax)
    ensures multiset(order) == multiset(ReachedHits(root, r, tMin, tMax))
    ensures IsRecord(res, order)
    ensures !res.happened ==> res == NoHit
    ensures res.happened ==> res in ReachedHits(root, r, tMin, tMax)
    ensures res.happened <==> exists h | h in ReachedHits(root, r, tMin, tMax) :: h.happened && h.t < DoubleMax
    ensures forall h | h in ReachedHits(root, r, tMin, tMax) :: h.happened ==> res.t <= h.t
  {
    var queue := [root];
    res := NoHit;
    order := [];
    RecordStart();
    QueueStep(queue, r, tMin, tMax);
    assert queue[1..] == [];
    while |queue| > 0
      invariant WalkState(root, queue, order, res, r, tMin, tMax)
      invariant LevelOrderSoFar(root, queue, order, r, tMin, tMax)
      decreases QueueSize(queue)
    {
      var node := queue[0];
      LevelOrderStep(root, queue, order, r, tMin, tMax);
      if !Check(node.box, r, tMin, tMax) {
        SkipStep(root, queue, order, res, r, tMin, tMax);
        queue := queue[1..];
      } else {
        match node
        case Leaf(o, _, _) =>
          LeafStep(root, queue, order, res, r, tMin, tMax);
          var cur := o.hit(r, tMin, tMax);
          order := order + [cur];
          res := Closer(res, cur);
          queue := queue[1..];
        case Internal(left, right, _, _) =>
          InternalStep(root, queue, order, res, r, tMin, tMax);
          queue := queue[1..] + Pushed(left, right, r, tMin, tMax);
      }
    }
    WalkDone(root, queue, order, res, r, tMin, tMax);
    assert BfsHits(queue, r, tMin, tMax) == [] && order + [] == order;
  }

  /** A leaf whose hit lies strictly inside its own box, at a parameter
      strictly within the window, is reached by the pruned walk of a
      consistent tree; so CheckIntersect's result is no farther than it. */
  lemma {:induction false} LeafHitReached(n: Node, r: Ray, tMin: real, tMax: real, k: nat)
    requires NonZeroDirection(r) && BoxesConsistent(n) && k < |Leaves(n)|
    requires HitInside(Leaves(n)[k], r, tMin, tMax)
    ensures Leaves(n)[k].hit(r, tMin, tMax) in ReachedHits(n, r, tMin, tMax)
  {
    NodeChecked(n, r, tMin, tMax, k);
    match n
    case Leaf(_, _, _) =>
    case Internal(left, right, _, _) =>
      var o := Leaves(n)[k];
      if k < |Leaves(left)| {
        assert Leaves(left)[k] == o;
        LeafHitReached(left, r, tMin, tMax, k);
        InLeftPart(o.hit(r, tMin, tMax), ReachedHits(left, r, tMin, tMax), ReachedHits(right, r, tMin, tMax));
      } else {
        assert Leaves(right)[k - |Leaves(left)|] == o;
        LeafHitReached(right, r, tMin, tMax, k - |Leaves(left)|);
        InRightPart(o.hit(r, tMin, tMax), ReachedHits(left, r, tMin, tMax), ReachedHits(right, r, tMin, tMax));
      }
  }

  /** The object's hit happened strictly inside the window and strictly
      inside the object's box. */
  predicate HitInside(o: Primitive, r: Ray, tMin: real, tMax: real)
  {
    var h := o.hit(r, tMin, tMax);
    h.happened && tMin < h.t < tMax && Interior(o.box, At(r, h.t))
  }

  /** A node whose box contains a leaf's box passes the slab test whenever
      the leaf's hit lies strictly inside the leaf's box and window. */
  lemma NodeChecked(n: Node, r: Ray, tMin: real, tMax: real, k: nat)
    requires NonZeroDirection(r) && BoxesConsistent(n) && k < |Leaves(n)|
    requires HitInside(Leaves(n)[k], r, tMin, tMax)
    ensures Check(n.box, r, tMin, tMax)
  {
    var h := Leaves(n)[k].hit(r, tMin, tMax);
    ConsistentContainsLeaves(n, k);
    InteriorGrows(n.box, Leaves(n)[k].box, At(r, h.t));
    CheckSound(n.box, r, tMin, tMax, h.t);
  }

  lemma InLeftPart(h: Intersection, a: seq<Intersection>, b: seq<Intersection>)
    requires h in a
    ensures h in a + b
  {}

  lemma InRightPart(h: Intersection, a: seq<Intersection>, b: seq<Intersection>)
    requires h in b
    ensures h in a + b
  {}


  /** The descent of BvhTree::Sample as written: it goes left when the left
      child's area is below the remaining budget, and otherwise subtracts
      that area and goes right. The result is the index of the chosen leaf. */
  function DescendAsWritten(n: Node, budget: real): (k: nat)
    ensures k < |Leaves(n)|
  {
    match n
    case Leaf(_, _, _) => 0
    case Internal(l, r, _, _) =>
      if l.area < budget then DescendAsWritten(l, budget)
      else |Leaves(l)| + DescendAsWritten(r, budget - l.area)
  }

  /** The evidently intended descent: left when the budget falls inside the
      left child's area. */
  function Descend(n: Node, budget: real): (k: nat)
    ensures k < |Leaves(n)|
  {
    match n
    case Leaf(_, _, _) => 0
    case Internal(l, r, _, _) =>
      if budget < l.area then Descend(l, budget)
      else |Leaves(l)| + Descend(r, budget - l.area)
  }

  /** Object k's span of the running area sum contains p. */
  predicate InSpan(objs: seq<Primitive>, k: nat, p: real)
    requires k < |objs|
  {
    AreaSum(objs[..k]) <= p < AreaSum(objs[..k]) + objs[k].area
  }

  /** Over a consistent tree with non-negative areas, the intended descent
      with budget p in [0, area) picks the leaf whose span of the running
      area sum contains p. */
  lemma {:induction false} DescendSelectsSpan(n: Node, p: real)
    requires AreasConsistent(n) && NonNegativeAreas(Leaves(n))
    requires 0.0 <= p < n.area
    ensures InSpan(Leaves(n), Descend(n, p), p)
  {
    match n
    case Leaf(o, _, _) =>
      assert Leaves(n)[..0] == [];
    case Internal(l, r, _, _) =>
      SubtreeAreas(n);
      if p < l.area {
        DescendSelectsSpan(l, p);
        SpanLeftNode(n, p);
      } else {
        DescendSelectsSpan(r, p - l.area);
        SpanRightNode(n, p);
      }
  }

  /** The descent step into the left child keeps the span. */
  lemma SpanLeftNode(n: Node, p: real)
    requires n.Internal? && p < n.left.area
    requires InSpan(Leaves(n.left), Descend(n.left, p), p)
    ensures InSpan(Leaves(n), Descend(n, p), p)
  {
    SpanLeft(Leaves(n.left), Leaves(n.right), Descend(n.left, p), p);
  }

  /** The descent step into the right child keeps the span, shifted by the
      left child's area. */
  lemma SpanRightNode(n: Node, p: real)
    requires n.Internal? && !(p < n.left.area) && n.left.area == AreaSum(Leaves(n.left))
    requires InSpan(Leaves(n.right), Descend(n.right, p - n.left.area), p - n.left.area)
    ensures InSpan(Leaves(n), Descend(n, p), p)
  {
    SpanRight(Leaves(n.left), Leaves(n.right), Descend(n.right, p - n.left.area), p);
  }

  /** The facts about the two subtrees of a consistent node that the descent
      needs. */
  lemma SubtreeAreas(n: Node)
    requires n.Internal? && AreasConsistent(n) && NonNegativeAreas(Leaves(n))
    ensures AreasConsistent(n.left) && NonNegativeAreas(Leaves(n.left))
    ensures AreasConsistent(n.right) && NonNegativeAreas(Leaves(n.right))
    ensures n.left.area == AreaSum(Leaves(n.left)) && n.left.area >= 0.0
    ensures n.right.area == AreaSum(Leaves(n.right)) && n.right.area >= 0.0
  {
    var l, r := n.left, n.right;
    assert forall k | 0 <= k < |Leaves(l)| :: Leaves(l)[k] == Leaves(n)[k];
    assert forall k | 0 <= k < |Leaves(r)| :: Leaves(r)[k] == Leaves(n)[|Leaves(l)| + k];
    ConsistentArea(l);
    ConsistentArea(r);
    AreaSumNonNegative(Leaves(l));
    AreaSumNonNegative(Leaves(r));
  }

  /** A span inside the left part of a concatenation is the same span of the
      whole. */
  lemma SpanLeft(a: seq<Primitive>, b: seq<Primitive>, k: nat, p: real)
    requires k < |a| && InSpan(a, k, p)
    ensures InSpan(a + b, k, p)
  {
    assert (a + b)[..k] == a[..k];
  }

  /** A span inside the right part, shifted by the left part's total, is the
      span of the whole at the shifted index. */
  lemma SpanRight(a: seq<Primitive>, b: seq<Primitive>, k: nat, p: real)
    requires k < |b| && InSpan(b, k, p - AreaSum(a))
    ensures InSpan(a + b, |a| + k, p)
  {
    assert (a + b)[..|a| + k] == a + b[..k];
    AreaSumAppend(a, b[..k]);
  }

  /** Two leaves of areas 1 and 3 with budget 2: the descent as written
      picks the first leaf, whose span [0, 1) does not contain 2. */
  lemma DescendAsWrittenMisses(p: Primitive, q: Primitive)
    requires p.area == 1.0 && q.area == 3.0
    ensures var n := Internal(Leaf(p, p.box, 1.0), Leaf(q, q.box, 3.0), Merge(p.box, q.box), 4.0);
      && Consistent(n) && NonNegativeAreas(Leaves(n)) && 0.0 <= 2.0 < n.area
      && DescendAsWritten(n, 2.0) == 0
      && !InSpan(Leaves(n), 0, 2.0) && InSpan(Leaves(n), Descend(n, 2.0), 2.0)
  {
    var n := Internal(Leaf(p, p.box, 1.0), Leaf(q, q.box, 3.0), Merge(p.box, q.box), 4.0);
    assert Leaves(n) == [p, q];
    assert Leaves(n)[..0] == [];
    assert Leaves(n)[..1] == [p];
  }

  /** Over non-negative areas the running sum never decreases. */
  lemma {:induction false} PrefixSumMonotone(objs: seq<Primitive>, i: nat, j: nat)
    requires NonNegativeAreas(objs) && i <= j <= |objs|
    ensures AreaSum(objs[..i]) <= AreaSum(objs[..j])
    decreases j - i
  {
    if i < j {
      PrefixSumMonotone(objs, i, j - 1);
      assert objs[..j][..j - 1] == objs[..j - 1];
    }
  }

  /** Over non-negative areas the spans are disjoint: at most one object's
      span contains a given p. */
  lemma SpanUnique(objs: seq<Primitive>, j: nat, k: nat, p: real)
    requires NonNegativeAreas(objs) && j < |objs| && k < |objs|
    requires InSpan(objs, j, p) && InSpan(objs, k, p)
    ensures j == k
  {
    if j != k {
      var lo, hi := if j < k then j else k, if j < k then k else j;
      assert objs[..lo + 1][..lo] == objs[..lo];
      PrefixSumMonotone(objs, lo + 1, hi);
    }
  }

  /** The intended descent picks leaf k exactly when k's span contains the
      budget. */
  lemma DescendIffSpan(n: Node, p: real, k: nat)
    requires AreasConsistent(n) && NonNegativeAreas(Leaves(n))
    requires 0.0 <= p < n.area && k < |Leaves(n)|
    ensures Descend(n, p) == k <==> InSpan(Leaves(n), k, p)
  {
    DescendSelectsSpan(n, p);
    if InSpan(Leaves(n), k, p) {
      SpanUnique(Leaves(n), k, Descend(n, p), p);
    }
  }

  /** With a uniform draw d in [0, 1) and budget d times the total area A, the
      intended descent picks leaf k exactly for d in [S / A, (S + a) / A)
      (InScaledSpan), where S is the area before k and a is k's area: a share
      a / A of the draws, so leaves are chosen in proportion to their area. */
  lemma UniformDrawShare(root: Node, d: real, k: nat)
    requires AreasConsistent(root) && NonNegativeAreas(Leaves(root))
    requires root.area > 0.0 && 0.0 <= d < 1.0 && k < |Leaves(root)|
    ensures Descend(root, d * root.area) == k <==> InScaledSpan(Leaves(root), k, d, root.area)
  {
    FractionSpan(root, d, k);
    SpanAsFraction(Leaves(root), k, d, root.area);
  }

  /** A budget that is a fraction in [0, 1) of the total area picks leaf k
      exactly when k's span contains it. */
  lemma FractionSpan(root: Node, d: real, k: nat)
    requires AreasConsistent(root) && NonNegativeAreas(Leaves(root))
    requires root.area > 0.0 && 0.0 <= d < 1.0 && k < |Leaves(root)|
    ensures Descend(root, d * root.area) == k <==> InSpan(Leaves(root), k, d * root.area)
  {
    ScaleBelow(d, root.area);
    DescendIffSpan(root, d * root.area, k);
  }

  /** A fraction in [0, 1) of a positive total lies in [0, total). */
  lemma ScaleBelow(d: real, a: real)
    requires 0.0 <= d < 1.0 && 0.0 < a
    ensures 0.0 <= d * a < a
  {
    assert a - d * a == (1.0 - d) * a;
  }

  /** d lies in object k's span [S, S + area) scaled down by a. */
  predicate InScaledSpan(objs: seq<Primitive>, k: nat, d: real, a: real)
    requires k < |objs| && a > 0.0
  {
    AreaSum(objs[..k]) / a <= d < (AreaSum(objs[..k]) + objs[k].area) / a
  }

  /** Object k's span contains d * a exactly when d lies in the span scaled
      down by a. */
  lemma SpanAsFraction(objs: seq<Primitive>, k: nat, d: real, a: real)
    requires a > 0.0 && k < |objs|
    ensures InSpan(objs, k, d * a) <==> InScaledSpan(objs, k, d, a)
  {
    DivideBounds(AreaSum(objs[..k]), AreaSum(objs[..k]) + objs[k].area, d, a);
  }

  /** lo <= d * a < hi exactly when lo / a <= d < hi / a, for positive a. */
  lemma DivideBounds(lo: real, hi: real, d: real, a: real)
    requires a > 0.0
    ensures lo <= d * a < hi <==> lo / a <= d < hi / a
  {
    assert lo == (lo / a) * a && hi == (hi / a) * a;
    assert lo / a <= d <==> (lo / a) * a <= d * a;
    assert d < hi / a <==> d * a < (hi / a) * a;
  }

  /** For non-negative reals, comparing squares is comparing values. */
  lemma SquareMonotone(x: real, y: real)
    requires 0.0 <= x && 0.0 <= y
    ensures x <= y <==> x * x <= y * y
    ensures x < y <==> x * x < y * y
  {
    if x < y {
      SquareBelow(x, y);
    } else if y < x {
      SquareBelow(y, x);
    }
  }

  lemma SquareBelow(x: real, y: real)
    requires 0.0 <= x < y
    ensures x * x < y * y
  {
    PositiveProduct(y - x, y + x);
    assert (y - x) * (y + x) == y * y - x * x;
  }

  lemma PositiveProduct(a: real, b: real)
    requires 0.0 < a && 0.0 < b
    ensures 0.0 < a * b
  {}

  /** The program's budget is sqrt(d) times the total area A, for a uniform
      draw d in [0, 1). With sq == sqrt(d) the (intended) descent picks leaf
      k exactly for d * A^2 in [S^2, (S + a)^2), where S is the area before k
      and a is k's area: a share ((S + a)^2 - S^2) / A^2 of the draws rather
      than a / A. */
  lemma SqrtDrawSelects(root: Node, d: real, sq: real, k: nat)
    requires AreasConsistent(root) && NonNegativeAreas(Leaves(root))
    requires root.area > 0.0 && 0.0 <= sq < 1.0 && d == sq * sq && k < |Leaves(root)|
    ensures Descend(root, sq * root.area) == k <==> InSquaredSpan(Leaves(root), k, d, root.area)
  {
    FractionSpan(root, sq, k);
    SpanSquared(Leaves(root), k, d, sq, root.area);
  }

  /** d * a^2 lies between the squares of object k's span bounds S and
      S + area: the draws d for which sqrt(d) * a falls in k's span. */
  predicate InSquaredSpan(objs: seq<Primitive>, k: nat, d: real, a: real)
    requires k < |objs|
  {
    var lo, hi := AreaSum(objs[..k]), AreaSum(objs[..k]) + objs[k].area;
    lo * lo <= d * (a * a) < hi * hi
  }

  /** Object k's span contains sq * a exactly when its squared bounds
      contain d * a^2, for d == sq^2. */
  lemma SpanSquared(objs: seq<Primitive>, k: nat, d: real, sq: real, a: real)
    requires NonNegativeAreas(objs) && k < |objs|
    requires 0.0 <= sq && sq * sq == d && 0.0 < a
    ensures InSpan(objs, k, sq * a) <==> InSquaredSpan(objs, k, d, a)
  {
    AreaSumNonNegative(objs[..k]);
    assert objs[k].area >= 0.0;
    SquaredSpan(AreaSum(objs[..k]), AreaSum(objs[..k]) + objs[k].area, d, sq, a);
  }

  /** A non-negative span contains sq * a exactly when its squared bounds
      contain d * a^2, for d == sq^2. */
  lemma SquaredSpan(lo: real, hi: real, d: real, sq: real, a: real)
    requires 0.0 <= lo && 0.0 <= hi && 0.0 <= sq && sq * sq == d && 0.0 < a
    ensures lo <= sq * a < hi <==> lo * lo <= d * (a * a) < hi * hi
  {
    SquareOfProduct(sq, a);
    assert 0.0 <= sq * a;
    SquareMonotone(lo, sq * a);
    SquareMonotone(sq * a, hi);
  }

  lemma SquareOfProduct(x: real, a: real)
    ensures (x * a) * (x * a) == (x * x) * (a * a)
  {}

  /** Two leaves of area 1: under the program's square-root draw the first
      leaf is picked only for draws below 1/4, not for half of them. */
  lemma SqrtDrawSkews(p: Primitive, q: Primitive, d: real, sq: real)
    requires p.area == 1.0 && q.area == 1.0
    requires 0.0 <= d < 1.0 && 0.0 <= sq && sq * sq == d
    ensures var n := Internal(Leaf(p, p.box, 1.0), Leaf(q, q.box, 1.0), Merge(p.box, q.box), 2.0);
      && (Descend(n, sq * n.area) == 0 <==> d < 0.25)
      && (Descend(n, d * n.area) == 0 <==> d < 0.5)
  {
    SquareMonotone(sq, 0.5);
  }

  /** BvhTree::Sample as written: with u standing for sqrt of the random draw,
      descend with budget u times the root's area and let the chosen leaf's
      sampler update the intersection. The pdf is taken by value, so the
      caller sees only the updated intersection. */
  function Sample(root: Node, u: real, inter: Intersection, pdf: real): (res: Intersection)
    ensures exists k | 0 <= k < |Leaves(root)| :: res == Leaves(root)[k].sample(inter, pdf).0
  {
    var k := DescendAsWritten(root, u * root.area);
    Leaves(root)[k].sample(inter, pdf).0
  }

  /** Sample with the intended descent: for u in [0, 1) over a consistent tree
      of positive area it samples the leaf whose area span contains u times
      the total area. */
  function SampleIntended(root: Node, u: real, inter: Intersection, pdf: real): (res: Intersection)
    ensures Consistent(root) && NonNegativeAreas(Leaves(root)) && 0.0 <= u < 1.0 && root.area > 0.0 ==>
      exists k | 0 <= k < |Leaves(root)| ::
        && res == Leaves(root)[k].sample(inter, pdf).0
        && InSpan(Leaves(root), k, u * root.area)
  {
    var k := Descend(root, u * root.area);
    SampleSpanIfValid(root, u);
    Leaves(root)[k].sample(inter, pdf).0
  }

  lemma SampleSpanIfValid(root: Node, u: real)
    ensures Consistent(root) && NonNegativeAreas(Leaves(root)) && 0.0 <= u < 1.0 && root.area > 0.0 ==>
      InSpan(Leaves(root), Descend(root, u * root.area), u * root.area)
  {
    if Consistent(root) && NonNegativeAreas(Leaves(root)) && 0.0 <= u < 1.0 && root.area > 0.0 {
      assert u * root.area < 1.0 * root.area;
      DescendSelectsSpan(root, u * root.area);
    }
  }
}
