/** The scene: the object list, the hierarchy built over it, a flag saying
    whether that hierarchy is current, and area-weighted light sampling. */
module Scenes {
  import opened Objects
  import opened Options
  import opened Bvh

  /** Scene: the object list, the tree (None until it is first built) and
      the `initialized` flag. The camera is not part of this model. */
  datatype Scene = Scene(list: seq<Primitive>, bvh: Option<Node>, initialized: bool)

  /** Scene(cam): no objects, no tree, not initialized. */
  const Empty: Scene := Scene([], None, false)

  /** The flag tells the truth: when it is set, the stored tree is the one
      built over the current list. */
  ghost predicate Current(s: Scene)
  {
    s.initialized ==> |s.list| > 0 && s.bvh == Some(Build(s.list))
  }

  lemma EmptyIsCurrent()
    ensures Current(Empty) && |Empty.list| == 0
  {}

  /** AddObject(object): append one object and clear the flag. */
  function AddObject(s: Scene, o: Primitive): (s': Scene)
    ensures |s'.list| == |s.list| + 1 && s'.list[..|s.list|] == s.list && s'.list[|s.list|] == o
    ensures !s'.initialized && s'.bvh == s.bvh
  {
    Scene(s.list + [o], s.bvh, false)
  }

  /** AddObject(list) as written: append every object in order, leaving the
      flag as it was. */
  function AddObjects(s: Scene, objs: seq<Primitive>): (s': Scene)
    ensures |s'.list| == |s.list| + |objs| && s'.list[..|s.list|] == s.list && s'.list[|s.list|..] == objs
    ensures s'.initialized == s.initialized && s'.bvh == s.bvh
  {
    Scene(s.list + objs, s.bvh, s.initialized)
  }

  /** AddObject(list) as evidently intended: like the single-object
      overload, it clears the flag. */
  function AddObjectsIntended(s: Scene, objs: seq<Primitive>): (s': Scene)
    ensures |s'.list| == |s.list| + |objs| && s'.list[..|s.list|] == s.list && s'.list[|s.list|..] == objs
    ensures !s'.initialized && s'.bvh == s.bvh
  {
    Scene(s.list + objs, s.bvh, false)
  }

  /** InitializeBvh: build the tree over the current list and set the flag.
      The node constructor needs at least one object. */
  function InitializeBvh(s: Scene): (s': Scene)
    requires |s.list| > 0
    ensures s'.list == s.list && s'.initialized && s'.bvh.Some?
    ensures Current(s')
    ensures Leaves(s'.bvh.value) == s.list
    ensures Consistent(s'.bvh.value) && MedianSplit(s'.bvh.value)
  {
    BuildInvariants(s.list);
    Scene(s.list, Some(Build(s.list)), true)
  }

  /** Adding one object keeps the flag truthful: it is cleared. */
  lemma AddObjectKeepsCurrent(s: Scene, o: Primitive)
    ensures Current(AddObject(s, o))
  {}

  lemma AddObjectsIntendedKeepsCurrent(s: Scene, objs: seq<Primitive>)
    ensures Current(AddObjectsIntended(s, objs))
  {}

  /** Adding a list to an initialized scene leaves the flag set over a tree
      that no longer holds every object: its leaves are the old list. */
  lemma AddObjectsLeavesStaleTree(s: Scene, objs: seq<Primitive>)
    requires |s.list| > 0 && |objs| > 0
    ensures Current(InitializeBvh(s))
    ensures var s' := AddObjects(InitializeBvh(s), objs);
      && s'.initialized
      && |Leaves(s'.bvh.value)| < |s'.list|
      && !Current(s')
  {
    var s' := AddObjects(InitializeBvh(s), objs);
    BuildInvariants(s'.list);
    assert |Leaves(Build(s'.list))| == |s'.list|;
  }

  /** The area an object contributes to light sampling: its area if its
      material emits, nothing otherwise. */
  function EmitWeight(o: Primitive): (r: real)
  {
    if Emissive(o) then o.area else 0.0
  }

  /** The total emitting area of a sequence of objects, the sum the first
      loop of SampleLight computes. */
  function EmitArea(objs: seq<Primitive>): (r: real)
  {
    if |objs| == 0 then 0.0 else EmitWeight(objs[0]) + EmitArea(objs[1..])
  }

  /** The second loop of SampleLight over `objs` with the remaining budget:
      the index of the first emitting object whose area exceeds the budget,
      the budget dropping by each emitting area passed over. */
  function Pick(objs: seq<Primitive>, budget: real): (r: Option<nat>)
    ensures r.Some? ==> r.value < |objs| && Emissive(objs[r.value])
    ensures (forall k | 0 <= k < |objs| :: !Emissive(objs[k])) ==> r.None?
    decreases |objs|
  {
    if |objs| == 0 then None
    else if Emissive(objs[0]) && budget < objs[0].area then Some(0)
    else
      match Pick(objs[1..], budget - EmitWeight(objs[0]))
      case None => None
      case Some(i) => Some(i + 1)
  }

  /** Object i is the one SampleLight selects for the draw p: it emits, p
      falls short of the emitting area up to and including it, and p reaches
      that sum for every emitting object before it. */
  predicate Selects(objs: seq<Primitive>, p: real, i: nat)
  {
    && i < |objs|
    && Emissive(objs[i])
    && p < EmitArea(objs[..i]) + objs[i].area
    && forall j | 0 <= j < i :: Emissive(objs[j]) ==> EmitArea(objs[..j]) + objs[j].area <= p
  }

  /** The emitting area of a prefix of length k + 1 splits off the first
      object. */
  lemma EmitAreaPrefix(objs: seq<Primitive>, k: nat)
    requires 0 < |objs| && k < |objs|
    ensures EmitArea(objs[..k + 1]) == EmitWeight(objs[0]) + EmitArea(objs[1..][..k])
  {
    assert objs[..k + 1][1..] == objs[1..][..k];
  }

  /** Pick returns i exactly when object i is the selected one. */
  lemma {:induction false} PickSelects(objs: seq<Primitive>, p: real, i: nat)
    ensures Pick(objs, p) == Some(i) <==> Selects(objs, p, i)
    decreases |objs|
  {
    if |objs| == 0 {
    } else if Emissive(objs[0]) && p < objs[0].area {
      SelectsFirst(objs, p, i);
    } else if i == 0 || i >= |objs| {
      SelectsPassed(objs, p, i);
    } else {
      PickSelects(objs[1..], p - EmitWeight(objs[0]), i - 1);
      SelectsShift(objs, p, i);
    }
  }

  /** When the first object takes the draw, it alone is selected. */
  lemma SelectsFirst(objs: seq<Primitive>, p: real, i: nat)
    requires 0 < |objs| && Emissive(objs[0]) && p < objs[0].area
    ensures Selects(objs, p, i) <==> i == 0
  {
    assert objs[..0] == [];
  }

  /** When the first object passes the draw on, it is not selected, and
      neither is any index beyond the list. */
  lemma SelectsPassed(objs: seq<Primitive>, p: real, i: nat)
    requires 0 < |objs| && !(Emissive(objs[0]) && p < objs[0].area)
    requires i == 0 || i >= |objs|
    ensures !Selects(objs, p, i)
  {
    assert objs[..0] == [];
  }

  /** Selection of object i >= 1 in `objs` is selection of i - 1 in the tail
      with the first object's emitting area taken off the draw, once the
      first object is passed over. */
  lemma SelectsShift(objs: seq<Primitive>, p: real, i: nat)
    requires 0 < i < |objs|
    requires !(Emissive(objs[0]) && p < objs[0].area)
    ensures Selects(objs, p, i) <==> Selects(objs[1..], p - EmitWeight(objs[0]), i - 1)
  {
    var rest, p' := objs[1..], p - EmitWeight(objs[0]);
    forall j | 1 <= j <= i
      ensures EmitArea(objs[..j]) == EmitWeight(objs[0]) + EmitArea(rest[..j - 1])
    {
      EmitAreaPrefix(objs, j - 1);
    }
    assert objs[..0] == [];
    if Selects(rest, p', i - 1) {
      forall j | 0 <= j < i && Emissive(objs[j])
        ensures EmitArea(objs[..j]) + objs[j].area <= p
      {
        if j > 0 {
          assert rest[j - 1] == objs[j];
        }
      }
    }
    if Selects(objs, p, i) {
      forall j | 0 <= j < i - 1 && Emissive(rest[j])
        ensures EmitArea(rest[..j]) + rest[j].area <= p'
      {
        assert rest[j] == objs[j + 1];
      }
    }
  }

  /** With non-negative areas and a non-negative draw, the selected object's
      span starts at or before the draw. */
  lemma {:induction false} PickInSpan(objs: seq<Primitive>, p: real)
    requires NonNegativeAreas(objs) && 0.0 <= p
    ensures Pick(objs, p).Some? ==> EmitArea(objs[..Pick(objs, p).value]) <= p
    decreases |objs|
  {
    if |objs| > 0 && !(Emissive(objs[0]) && p < objs[0].area) {
      var rest, p' := objs[1..], p - EmitWeight(objs[0]);
      assert NonNegativeAreas(rest) by {
        forall k | 0 <= k < |rest| ensures rest[k].area >= 0.0 {
          assert rest[k] == objs[k + 1];
        }
      }
      PickInSpan(rest, p');
      var r := Pick(rest, p');
      if r.Some? {
        EmitAreaPrefix(objs, r.value);
      }
    } else if |objs| > 0 {
      assert objs[..0] == [];
    }
  }

  /** With non-negative areas, a draw below the total emitting area always
      selects an object. */
  lemma {:induction false} PickFound(objs: seq<Primitive>, p: real)
    requires NonNegativeAreas(objs) && 0.0 <= p < EmitArea(objs)
    ensures Pick(objs, p).Some?
    decreases |objs|
  {
    if !(Emissive(objs[0]) && p < objs[0].area) {
      var rest := objs[1..];
      assert NonNegativeAreas(rest) by {
        forall k | 0 <= k < |rest| ensures rest[k].area >= 0.0 {
          assert rest[k] == objs[k + 1];
        }
      }
      PickFound(rest, p - EmitWeight(objs[0]));
    }
  }

  /** The point of the emitting area SampleLight's draw u in [0, 1) lands
      on: u times the total emitting area. */
  function Draw(s: Scene, u: real): (r: real)
  {
    u * EmitArea(s.list)
  }

  /** Scene::SampleLight with the uniform draw u: walk the list with the
      draw's point as budget and let the selected object's sampler update the
      intersection and pdf. When nothing is selected both are returned
      unchanged. */
  function SampleLight(s: Scene, u: real, inter: Intersection, pdf: real): (res: (Intersection, real))
    ensures (forall k | 0 <= k < |s.list| :: !Emissive(s.list[k])) ==> res == (inter, pdf)
    ensures (forall i: nat :: !Selects(s.list, Draw(s, u), i)) ==> res == (inter, pdf)
    ensures forall i: nat | Selects(s.list, Draw(s, u), i) :: res == s.list[i].sample(inter, pdf)
  {
    var p := Draw(s, u);
    SelectsIsPick(s.list, p);
    match Pick(s.list, p)
    case None => (inter, pdf)
    case Some(i) =>
      PickSelects(s.list, p, i);
      s.list[i].sample(inter, pdf)
  }

  lemma SelectsIsPick(objs: seq<Primitive>, p: real)
    ensures forall i: nat | Selects(objs, p, i) :: Pick(objs, p) == Some(i)
  {
    forall i: nat | Selects(objs, p, i)
      ensures Pick(objs, p) == Some(i)
    {
      PickSelects(objs, p, i);
    }
  }

  lemma ScaledBelow(u: real, e: real, p: real)
    requires 0.0 <= u < 1.0 && e > 0.0 && p == u * e
    ensures 0.0 <= p < e
  {
    assert e - p == (1.0 - u) * e;
  }

  /** With non-negative areas, some emitting area and u in [0, 1),
      SampleLight always samples an emitting object whose span of the total
      emitting area contains u times that total. */
  lemma SampleLightSamplesEmitter(s: Scene, u: real, inter: Intersection, pdf: real)
    requires NonNegativeAreas(s.list) && EmitArea(s.list) > 0.0 && 0.0 <= u < 1.0
    ensures exists i: nat ::
      && Selects(s.list, Draw(s, u), i)
      && EmitArea(s.list[..i]) <= Draw(s, u)
      && SampleLight(s, u, inter, pdf) == s.list[i].sample(inter, pdf)
  {
    var p := Draw(s, u);
    ScaledBelow(u, EmitArea(s.list), p);
    PickFound(s.list, p);
    PickInSpan(s.list, p);
    var i := Pick(s.list, p).value;
    PickSelects(s.list, p, i);
  }
}
