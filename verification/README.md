# toy-renderer core in Dafny

This project models the geometric core of toy-renderer, a small C++ path tracer:

- the fixed-shape matrix/vector template and its operators;
- the scalar helpers and constants;
- rays;
- axis-aligned bounding boxes (merge, slab test, split-axis choice, sort comparators);
- the intersection record and the object interface;
- the sphere primitive;
- the flat object list;
- the bounding volume hierarchy (construction, breadth-first pruned intersection, area-weighted descent for sampling);
- the scene (object list, hierarchy, `initialized` flag and emitting-area light sampling).

The float and double element types are modelled by exact `real` arithmetic. The int instantiation agrees with them except for division, which truncates; `Matrices.DivIntAsWritten` models that case. Containers are sequences. The C++ class hierarchy of objects becomes one record, `Objects.Primitive`. It holds:

- a box;
- an area;
- a material;
- a hit oracle `(ray, t_min, t_max) -> Intersection`;
- an area-uniform surface sampler `(Intersection, pdf) -> (Intersection, pdf)`.

The hierarchy and scene lemmas hold for any primitives, whatever their oracles do. Lemmas that need a property of the oracles take it as a hypothesis. For example, `ObjectLists.HonoursBounds` requires that each object's hit is never beyond the bound it was given, which `Spheres.Intersect` provides.

A hierarchy node is a datatype with a leaf case and an internal case, so a node is never both.

Randomness and square roots are parameters:

- `Scenes.SampleLight` takes the uniform draw `u`;
- `Bvh.Sample` takes `u` standing for the square root of the draw;
- `Spheres.Intersect` takes `sq` with `sq >= 0 && sq * sq == discriminant`.

Modules follow the headers:

| header | module |
|---|---|
| matrix.hpp | `Matrices` |
| base.hpp | `Base` |
| ray.hpp | `Rays` |
| bounding_box.hpp | `Boxes` |
| material.hpp | `Materials` |
| object.hpp | `Objects` |
| sphere.hpp | `Spheres` |
| object_list.hpp | `ObjectLists` |
| BVH.hpp | `Bvh` |
| scene.hpp | `Scenes` |
| (nullable pointers) | `Options` |

## Model

| member | source | states |
|---|---|---|
| Matrices.RowMajorLayout | include/matrix.hpp:18 | element (x, y) is stored at flat index x * cols + y, which lies inside the storage, and distinct cells never share an index |
| Matrices.Set | include/matrix.hpp:120-121 | writing through operator()(x, y) changes that cell to the new value and leaves every other cell and the shape unchanged |
| Matrices.FromList | include/matrix.hpp:36-42 | the initializer-list constructor fills a prefix with the listed values and zeroes the rest of the storage |
| Matrices.Zero | include/matrix.hpp:22 | the default constructor yields a matrix of the given shape whose elements are all zero |
| Matrices.Vec3 | include/matrix.hpp:30-34 | the three-value constructor stores x, y, z in that order |
| Matrices.Vec3IsFromList | include/matrix.hpp:30-42 | the three-value constructor agrees with the initializer-list constructor given the same three values |
| Matrices.EqualFrom | include/matrix.hpp:61-68 | the element loop that returns false at the first differing element answers whether the remaining suffixes are equal |
| Matrices.Equal | include/matrix.hpp:61-68 | operator== on two matrices of one shape holds exactly when they are equal values |
| Matrices.NotEqual | include/matrix.hpp:70-72 | operator!= holds exactly when some element differs |
| Matrices.Neg | include/matrix.hpp:74-80 | unary minus negates every element and keeps the shape |
| Matrices.NegInvolution | include/matrix.hpp:74-80 | negating twice gives back the matrix |
| Matrices.Add | include/matrix.hpp:82-87 | operator+ and operator+= add element by element and keep the shape |
| Matrices.AddCommutative | include/matrix.hpp:100-104 | addition is commutative |
| Matrices.Sub | include/matrix.hpp:106 | binary minus, written as a + (-b), keeps the shape |
| Matrices.SubElementwise | include/matrix.hpp:98-106 | a - b is element-wise subtraction, and adding b back restores a |
| Matrices.Scale | include/matrix.hpp:89-94 | scaling by a scalar multiplies every element and keeps the shape |
| Matrices.ScaleLeft | include/matrix.hpp:158-161 | scalar times matrix multiplies every element from the left |
| Matrices.Div | include/matrix.hpp:96-118 | division by a non-zero scalar keeps the shape, and every element of the result times the scalar is the original element |
| Matrices.DivIntAsWritten | include/matrix.hpp:89-96 | on an int matrix, 1.0 / val is truncated toward zero when it reaches operator*=, so dividing by 1 or -1 multiplies by it and dividing by any other non-zero integer zeroes every element |
| Matrices.DivIntAsWrittenZeroes | include/matrix.hpp:96 | Vector3i(4, 4, 4) / 2 is the zero vector, and scaling it back by 2 does not restore 4 |
| Matrices.DivInt | include/matrix.hpp:96 | the corrected int division divides each element, truncating toward zero: an exact division is undone by scaling, and otherwise the scaled-back element lies between zero and the original |
| Matrices.DivScaleRoundTrip | include/matrix.hpp:96 | dividing by a non-zero s (multiplying by 1/s) and then scaling by s is the identity |
| Matrices.MatMul | include/matrix.hpp:144-156 | the triple loop accumulating into a zero matrix yields, in every cell, the row-by-column sum of the reference definition |
| Matrices.AccumulateRow | include/matrix.hpp:149-154 | the two inner loops for row i add the row-by-column sum to every cell of row i and leave the other rows untouched |
| Matrices.AccumulateEntry | include/matrix.hpp:150-152 | the innermost loop adds the full row-by-column sum to cell (i, j) and leaves every other cell untouched |
| Matrices.DotSymmetric | include/matrix.hpp:192-199 | the dot product is symmetric |
| Matrices.DotNegRight | include/matrix.hpp:192-199 | negating one argument negates the dot product |
| Matrices.Dot3 | include/matrix.hpp:192-199 | the dot product of 3-vectors is the sum of the three coordinate products |
| Matrices.LengthSquared | include/matrix.hpp:176-183 | the squared length is never negative |
| Matrices.LengthSquaredIsDot | include/matrix.hpp:176-199 | the squared length equals the dot product of the vector with itself |
| Matrices.CrossOrthogonal | include/matrix.hpp:202-208 | the cross product is perpendicular to both arguments |
| Matrices.CrossAntiCommutative | include/matrix.hpp:202-208 | swapping the arguments of the cross product negates it |
| Matrices.Hadamard | include/matrix.hpp:229-238 | the Hadamard product multiplies cell (x, y) of both operands, for every cell |
| Matrices.HadamardCommutative | include/matrix.hpp:229-238 | the Hadamard product is commutative |
| Base.Clamp | include/base.hpp:36-41 | clamp returns lo below the range, hi above it and x inside it, so the result always lies in [lo, hi] |
| Base.ClampIdempotent | include/base.hpp:36-41 | clamping twice is clamping once, and every value of the range is a fixed point |
| Base.NearZeroBounds | include/base.hpp:43-45 | nearzero holds exactly when every component is strictly within eps of zero; it implies a squared length below 3 eps^2 and holds of the zero vector |
| Rays.At | include/ray.hpp:18-20 | the point at t is origin + direction * t, coordinate by coordinate |
| Boxes.ZeroBoxNotAvailable | include/bounding_box.hpp:8-13 | the default box is all zeros and is not available |
| Boxes.AvailableIffNotPoint | include/bounding_box.hpp:13 | a box is available exactly when its corners differ on some axis |
| Boxes.Merge | include/bounding_box.hpp:37-44 | MergeBoxes contains both arguments |
| Boxes.MergeCorners | include/bounding_box.hpp:37-44 | each corner coordinate of a merge is taken from one of the two boxes |
| Boxes.MergeLattice | include/bounding_box.hpp:37-44 | MergeBoxes is commutative, associative and idempotent, and lies inside every box that contains both arguments |
| Boxes.MergeWellFormed | include/bounding_box.hpp:37-44 | merging two well-formed boxes yields a well-formed box |
| Boxes.ContainsIffMergeAbsorbs | include/bounding_box.hpp:37-44 | one box contains another exactly when merging the second into the first changes nothing |
| Boxes.MergeFold | include/bounding_box.hpp:37-44 | folding MergeBoxes over a non-empty sequence yields a box that contains every element |
| Boxes.MergeFoldLeast | include/bounding_box.hpp:37-44 | every box that contains all elements of the sequence contains their fold |
| Boxes.MergeFoldAppend | include/bounding_box.hpp:37-44 | the fold of a concatenation is the merge of the two parts' folds |
| Boxes.MergeKeepsAvailable | include/object_list.hpp:46-47 | merging a well-formed box into an available well-formed box keeps it available and well-formed |
| Boxes.CheckFromIff | include/bounding_box.hpp:15-30 | the slab loop's early return does not change the answer: it succeeds exactly when the fully narrowed window is non-empty |
| Boxes.CheckIff | include/bounding_box.hpp:15-30 | Check holds exactly when the latest of t_min and the three slab entries lies strictly before the earliest of t_max and the three slab exits |
| Boxes.CheckEmptyWindow | include/bounding_box.hpp:25-27 | an empty window never passes |
| Boxes.CheckMonotone | include/bounding_box.hpp:15-30 | widening the window never turns a pass into a failure |
| Boxes.SlabStrict | include/bounding_box.hpp:18-23 | if a ray point lies strictly between an axis's slab planes, its parameter lies strictly between the swapped t0 and t1 |
| Boxes.CheckSound | include/bounding_box.hpp:15-30 | pruning is sound: a ray passing strictly through the box's interior at a parameter strictly inside the window passes Check |
| Boxes.MaxDim | include/bounding_box.hpp:61-71 | MaxDim returns an axis of greatest extent, and the first such axis |
| Boxes.ComparatorsStrictOrders | include/bounding_box.hpp:46-54 | the min and max comparators are strict weak orders, as std::sort requires: irreflexive, asymmetric, transitive, with transitive incomparability |
| Boxes.CentroidCompareIsMinCompare | include/bounding_box.hpp:56-59 | the centroid comparator as written decides exactly as the min comparator |
| Boxes.CentroidCompareMisorders | include/bounding_box.hpp:56-59 | a concrete pair of boxes that the written comparator orders against their centroids |
| Boxes.BoxesCentroidCompareIntended | include/bounding_box.hpp:56-59 | the corrected comparator orders exactly by centroid on the axis |
| Boxes.CentroidCompareIntendedStrictOrder | include/bounding_box.hpp:56-59 | the corrected comparator is a strict weak order: irreflexive, asymmetric, transitive, with transitive incomparability |
| Materials.HasEmissionIffLength | include/material.hpp:14 | deciding emission on the squared length agrees with the source's test Length > eps |
| Materials.GetEmission | include/material.hpp:14-16 | the emission is returned unchanged, and the material emits exactly when that vector's squared length exceeds eps^2 |
| Materials.Eval | include/material.hpp:50-61 | the diffuse BRDF is k_diffuse / pi when the outgoing direction is on the normal's side and zero otherwise |
| Materials.EvalIgnoresInDir | include/material.hpp:50-61 | the incoming direction never changes the diffuse BRDF |
| Materials.Pdf | include/material.hpp:73-85 | the diffuse density is 1 / (2 pi) on the normal's side and zero elsewhere, never negative |
| Materials.EvalPdfSameHemisphere | include/material.hpp:50-85 | the density is positive exactly where the BRDF is k_diffuse / pi, and the BRDF is zero wherever the density is zero |
| Objects.NoHitIsEmpty | include/object.hpp:11 | the default intersection has not happened, lies at the largest double and has no material |
| Objects.SetFaceNormal | include/object.hpp:13-16 | the front-face flag is set exactly when the ray meets the outward normal head-on; the stored normal is the outward normal or its negation and faces against the ray; the rest of the record is kept |
| ObjectLists.ScanHappened | include/object_list.hpp:27-40 | after k objects the record is a hit exactly when one of them reported a hit, and it is the default record otherwise |
| ObjectLists.ScanLastHit | include/object_list.hpp:27-40 | after k objects a hit record is the report of the last object, among the first k, that reported a hit |
| ObjectLists.QueryBound | include/object_list.hpp:29-35 | each object is queried with upper bound t_max when no earlier object reported a hit, and otherwise with the t of the latest earlier hit |
| ObjectLists.ScanClosest | include/object_list.hpp:29-35 | when objects honour their bounds, the record lies within t_max and is no farther than any reported hit |
| ObjectLists.Intersect | include/object_list.hpp:27-40 | the result is a hit exactly when some object reports one, and then it is the last reporting object's hit. With honoured bounds it is the closest reported hit within t_max. Otherwise it is the default record |
| ObjectLists.BoxScanIsFold | include/object_list.hpp:42-53 | once the first box is available and all boxes are well-formed, the scan is the MergeBoxes fold and stays available |
| ObjectLists.GetBoundingBox | include/object_list.hpp:42-53 | when the first box is available and all boxes are well-formed, the result is the merge of all boxes and contains every object's box |
| ObjectLists.GetBoundingBoxDropsLeadingPoint | include/object_list.hpp:42-53 | a two-object list whose first box is a single point yields a box that does not contain that point |
| ObjectLists.GetBoundingBoxIntended | include/object_list.hpp:42-53 | the corrected bounding box contains every object's box and lies inside every box that does |
| Spheres.Intersect | include/sphere.hpp:24-53 | see the paragraph after this table |
| Spheres.NearRootIsNearer | include/sphere.hpp:37-39 | the root tried first is never beyond the one tried second |
| Spheres.QuadraticRoot | include/sphere.hpp:25-39 | a root (-hb -+ sqrt(disc)) / a of the half-b formula solves a t^2 + 2 hb t + c = 0 |
| Spheres.DistanceAlongRay | include/sphere.hpp:25-28 | the squared distance from the center to the ray point at t is a t^2 + 2 hb t + c + radius^2 |
| Spheres.SolutionOnSphere | include/sphere.hpp:37-39 | a parameter solving the half-b equation puts the ray point on the sphere |
| Spheres.RootOnSphere | include/sphere.hpp:37-39 | either root puts the ray point at distance radius from the center |
| Spheres.HitAtNormal | include/sphere.hpp:45-49 | at a point on the sphere the stored normal is a unit vector facing against the ray |
| Spheres.HitOnSphere | include/sphere.hpp:24-53 | a reported hit point lies on the sphere and its normal is a unit vector facing against the ray |
| Spheres.UnitNormal | include/sphere.hpp:48 | dividing a vector of squared length radius^2 by radius yields a unit vector |
| Spheres.GetBoundingBox | include/sphere.hpp:55-59 | the box is well-formed, contains the center and spans 2 abs(radius) on every axis |
| Spheres.BoxIgnoresRadiusSign | include/sphere.hpp:56 | negating the radius does not change the box |
| Spheres.BoxCorners | include/sphere.hpp:55-59 | the corners are the center minus and plus abs(radius) on every axis |
| Spheres.SurfaceInBox | include/sphere.hpp:55-59 | every point of the sphere's surface, in particular every hit point, lies in the box |
| Bvh.BuildCheckedIff | include/BVH.hpp:35-64 | construction with the comparator's assertion (bounding_box.hpp:57) succeeds exactly when, over two or more objects, every object's box is available; it then builds the tree Build describes |
| Bvh.PointBoxAborts | include/BVH.hpp:52-56 | among two or more objects, one whose box is a single point aborts construction |
| Bvh.BuildFollowsIndices | include/BVH.hpp:35-64 | the slice formulation agrees with the index recursion: one object yields its leaf; more yield the join of [begin, mid) and [mid, end) with mid = begin + n / 2 |
| Bvh.BuildInvariants | include/BVH.hpp:35-64 | a built tree holds exactly the given objects in list order, records consistent boxes and areas, and splits every node at the median |
| Bvh.BuildLeaves | include/BVH.hpp:40-59 | the leaves of a built tree are the objects, in list order |
| Bvh.BuildMedianSplit | include/BVH.hpp:57-59 | every internal node of a built tree gives its left child the lower half (rounded down) of its objects |
| Bvh.BuildBoxesConsistent | include/BVH.hpp:40-61 | every leaf of a built tree records its object's box, and every internal node records the merge of its children's boxes |
| Bvh.BuildAreasConsistent | include/BVH.hpp:40-62 | every leaf of a built tree records its object's area, and every internal node records the sum of its children's areas |
| Bvh.MedianSplitShape | include/BVH.hpp:57-59 | a median-split tree has the median shape of its leaf count |
| Bvh.BuildShapeOnlyCount | include/BVH.hpp:45-59 | the tree's shape depends only on the number of objects: the centroid box and split axis do not affect it |
| Bvh.MedianSplitHeight | include/BVH.hpp:57-59 | a median-split tree over n leaves has height ceil(log2 n) |
| Bvh.BuildHeight | include/BVH.hpp:35-64 | a tree built over n objects has height ceil(log2 n) |
| Bvh.CeilLog2IsCeiling | include/BVH.hpp:57 | the height function is the least k with n <= 2^k |
| Bvh.ConsistentBox | include/BVH.hpp:43-61 | the box of a consistent tree is the MergeBoxes fold of its objects' boxes |
| Bvh.BuildBox | include/BVH.hpp:69-71 | the root's box is the smallest box containing every object's box |
| Bvh.ConsistentArea | include/BVH.hpp:42-62 | the area of a consistent tree is the total area of its objects |
| Bvh.ConsistentContainsLeaves | include/BVH.hpp:61 | a consistent tree's box contains each of its objects' boxes |
| Bvh.RecordStep | include/BVH.hpp:93-96 | replacing the record by a hit that happened strictly closer keeps it the first closest of the hits seen so far |
| Bvh.RecordOfAll | include/BVH.hpp:83-108 | the record over one visiting order describes the hits in any order |
| Bvh.PushedHits | include/BVH.hpp:98-103 | queueing the children that pass the slab test keeps exactly the hits the walk reaches below them, and shrinks the remaining work |
| Bvh.SkipStep | include/BVH.hpp:89-91 | dropping a popped node whose box fails keeps the loop invariant and shrinks the queue's measure |
| Bvh.LeafStep | include/BVH.hpp:92-96 | querying a popped leaf whose box passes keeps the loop invariant with its hit added to the record |
| Bvh.InternalStep | include/BVH.hpp:97-104 | replacing a popped internal node by its passing children keeps the loop invariant and shrinks the measure |
| Bvh.LevelOrderStep | include/BVH.hpp:88-105 | each loop step keeps the hits seen so far, followed by the walk from the queue, equal to the level-order walk from the root |
| Bvh.RecordUnique | include/BVH.hpp:93-96 | the record of a sequence of hits is unique, so the visiting order decides between tied hits |
| Bvh.WalkDone | include/BVH.hpp:88-107 | when the queue is empty, every reached hit has been seen and the record is the closest of them |
| Bvh.CheckIntersect | include/BVH.hpp:83-108 | see the paragraph after this table |
| Bvh.NodeChecked | include/BVH.hpp:91 | a node whose box contains a leaf's box passes the slab test whenever that leaf's hit lies strictly inside its box and window |
| Bvh.LeafHitReached | include/BVH.hpp:83-108 | a leaf whose hit lies strictly inside its own box and the window is reached by the pruned walk, so the result is no farther than that hit |
| Bvh.DescendAsWritten | include/BVH.hpp:113-126 | the descent as written always ends at one of the tree's leaves |
| Bvh.DescendAsWrittenMisses | include/BVH.hpp:119 | a consistent two-leaf tree with areas 1 and 3 and budget 2: the written descent picks the leaf whose area span misses the budget, while the corrected one picks the leaf whose span contains it |
| Bvh.Descend | include/BVH.hpp:119-124 | the corrected descent always ends at one of the tree's leaves |
| Bvh.DescendSelectsSpan | include/BVH.hpp:110-126 | over a consistent tree with non-negative areas, a budget in [0, area) reaches the leaf whose span of the running area sum contains the budget |
| Bvh.SpanUnique | include/BVH.hpp:113-126 | with non-negative areas, the leaves' spans of the running area sum are disjoint |
| Bvh.DescendIffSpan | include/BVH.hpp:113-126 | the corrected descent picks leaf k exactly when k's span contains the budget |
| Bvh.UniformDrawShare | include/BVH.hpp:111 | with the budget a uniform draw d in [0, 1) times the total area A, leaf k is picked exactly for d in [S / A, (S + a) / A), a share a / A of the draws, where S is the area before k and a is k's area |
| Bvh.SqrtDrawSelects | include/BVH.hpp:111 | with the program's budget sqrt(d) times A, leaf k is picked exactly for d A^2 in [S^2, (S + a)^2), a share ((S + a)^2 - S^2) / A^2 of the draws |
| Bvh.SqrtDrawSkews | include/BVH.hpp:111 | two leaves of area 1: under the square-root budget the first leaf is picked exactly for draws below 1/4, and under a uniform budget exactly for draws below 1/2 |
| Bvh.Sample | include/BVH.hpp:110-128 | Sample as written returns the intersection some leaf's sampler produced |
| Bvh.SampleIntended | include/BVH.hpp:110-128 | the corrected Sample with u in [0, 1) returns the sample of the leaf whose area span contains u times the total area |
| Scenes.EmptyIsCurrent | include/scene.hpp:11 | a new scene holds no objects, and its flag does not claim a tree |
| Scenes.AddObject | include/scene.hpp:13-16 | adding one object appends it after the old list and clears the flag |
| Scenes.AddObjectKeepsCurrent | include/scene.hpp:13-16 | after adding one object the flag never claims a stale tree |
| Scenes.AddObjects | include/scene.hpp:18-20 | adding a list appends it in order and leaves the flag as it was |
| Scenes.AddObjectsLeavesStaleTree | include/scene.hpp:18-20 | adding a list to an initialized scene leaves the flag set over a tree that misses the new objects |
| Scenes.AddObjectsIntended | include/scene.hpp:18-20 | the corrected list overload appends in order and clears the flag |
| Scenes.AddObjectsIntendedKeepsCurrent | include/scene.hpp:18-20 | after the corrected list overload the flag never claims a stale tree |
| Scenes.InitializeBvh | include/scene.hpp:26-29 | building keeps the list, sets the flag, and stores a consistent median-split tree whose leaves are the list, so the flag is truthful |
| Scenes.Pick | include/scene.hpp:52-60 | the second loop picks only an emitting object, and picks nothing when no object emits |
| Scenes.PickSelects | include/scene.hpp:52-60 | the loop picks object i exactly when i emits, the draw falls short of the emitting area up to and including i, and the draw reaches that sum for every earlier emitter |
| Scenes.PickInSpan | include/scene.hpp:52-60 | with non-negative areas and draw, the picked object's span of the emitting area starts at or before the draw |
| Scenes.PickFound | include/scene.hpp:45-60 | with non-negative areas, a draw below the total emitting area always picks an object |
| Scenes.SampleLight | include/scene.hpp:44-61 | the selected emitter's sampler produces the result; with no emitter or no selection, the intersection and pdf come back unchanged |
| Scenes.SampleLightSamplesEmitter | include/scene.hpp:44-61 | with non-negative areas, positive emitting area and u in [0, 1), SampleLight always samples the emitter whose span contains u times the total emitting area |

`Spheres.Intersect`'s contract says:

- with a negative discriminant the result is the default record;
- otherwise it is a hit exactly when one of the roots lies in [t_min, t_max];
- that hit is the near root when the near root is in the window, and the far root otherwise;
- a hit lies at `At(t)` and carries the sphere's material.

`Bvh.CheckIntersect`'s contract says:

- the loop sees exactly the hits of the leaves that the pruned walk reaches;
- the result is the default record when none of those hits happened before the largest double;
- the hits are seen in the level order of the pruned walk, a first-in first-out queue from the root with the left child queued first (`Bvh.BfsHits`);
- otherwise the result is the first closest of those hits in that order, and is no farther than any of them. Since a record is unique (`Bvh.RecordUnique`), this decides which of several tied hits is returned.

## Left out

- Matrices.Div requires a non-zero divisor. The source divides by zero and gets IEEE infinities for float and double, and an undefined conversion for int. The int truncation is modelled separately (see Findings).
- Matrix output (operator<<), Length, Normalize, the element-wise Sqrt and Inverse: they need square roots, division by zero (IEEE infinities) or I/O. They are not modelled.
- Ray's constructor normalises the direction. The model keeps the direction as given, and no property proved here depends on its length.
- Boxes.Check requires every direction component to be non-zero. With a zero component the source divides by zero and relies on IEEE infinities, which exact reals do not have.
- Spheres.Intersect requires a non-zero radius and direction. The square root is the parameter `sq`, which is only constrained when the discriminant is not negative.
- Materials.HasEmission is decided on the squared length against eps^2. `Materials.HasEmissionIffLength` shows this agrees with the source's test on the length.
- Material::Sample, reflect, refract and reflectance are left out. They draw random directions or use sqrt/pow, and nothing in the core calls them.
- The random helpers of base.hpp and DegreesToRadians are left out. Draws become parameters of the operations that use them.
- The camera, renderer, colour output, triangle and main program are callers or context, not core.
- Scene's SetCamera and GetBvhTree are plain field accesses and are left out. The camera field is left out too.
- Scene() leaves `initialized_` uninitialised. The model starts from Scene(cam), where the flag is false.
- BvhNode sorts a copy of the object list by the centroid comparator along MaxDim of the centroid box, and then recurses on the original list. So the sort never affects the tree. The model therefore builds from the slice alone. `Bvh.BuildShapeOnlyCount` and `Bvh.BuildFollowsIndices` state the consequences.
- Scenes.InitializeBvh and Bvh.Build describe the tree built when the sort's comparator assertion passes. The assertion fails whenever two or more objects include one whose box is a single point, such as a zero-radius sphere. Then construction aborts in a build with assertions enabled. `Bvh.BuildChecked` models that abort as None, and `Bvh.BuildCheckedIff` gives its condition.
- Bvh.Sample: the contract only says that some leaf's sample is returned. Neither the written descent nor the square-root draw is area-proportional (see Findings). The pdf updates it makes are on by-value copies, which the caller never sees, so they are not modelled.
- Bvh.CheckIntersect: the `order` out-parameter is ghost. It is pinned to the level order `Bvh.BfsHits`. The leaves' hit oracles are abstract, so closest-hit completeness is proved only for hits strictly inside the leaf's box and window (`Bvh.LeafHitReached`).
- ObjectLists.GetBoundingBox: the merge-fold contract holds only when the first object's box is available and all boxes are well-formed. Otherwise the written loop can drop boxes (see Findings).
- Integers and floating-point values are exact. Rounding, overflow and NaN are not modelled.

## Findings

| source | as written | input that shows it | evidently intended | confidence | as-written member | corrected member |
|---|---|---|---|---|---|---|
| include/bounding_box.hpp:56-59 | BoxesCentroidCompare adds lhs.max() on both sides, so it compares only the minima | boxes [0,10] and [1,2] on axis 0: centroids 5 and 1.5, yet the first is ordered before the second | compare min + max of each box | not executed | Boxes.CentroidCompareMisorders | Boxes.BoxesCentroidCompareIntended |
| include/BVH.hpp:119 | Sample goes left when left area < remaining budget | two leaves of areas 1 and 3, budget 2: it picks the first leaf, whose span [0, 1) misses 2 | go left when the budget < left area | not executed | Bvh.DescendAsWrittenMisses | Bvh.DescendSelectsSpan |
| include/BVH.hpp:111 | the budget is sqrt(draw) times the root's area, so leaf k is picked for a share ((S + a)^2 - S^2) / A^2 of the draws | two leaves of area 1: the first is picked only for draws below 1/4 instead of 1/2 | a budget of the draw itself times the area, giving each leaf its area share a / A | not executed | Bvh.SqrtDrawSkews | Bvh.UniformDrawShare |
| include/matrix.hpp:96 | for the int instantiation, 1.0 / val is truncated to an int on its way to operator*= | Vector3i(4, 4, 4) / 2 is the zero vector | divide each element by val | not executed; the int types are declared at line 138 but never divided in the files shown | Matrices.DivIntAsWrittenZeroes | Matrices.DivInt |
| include/scene.hpp:18-20 | AddObject(list) does not clear `initialized_` | initialize over one object, then add a list of one: the flag stays set over a one-leaf tree for two objects | clear the flag like the single-object overload | not executed | Scenes.AddObjectsLeavesStaleTree | Scenes.AddObjectsIntendedKeepsCurrent |
| include/object_list.hpp:42-53 | the loop starts from the zero box and replaces the running box while it is not available, so a leading single-point box is dropped | the first object's box is the point (0,0,0) and the second's is the point (1,1,1): the result is the second point alone | merge all boxes, starting from the first | not executed | ObjectLists.GetBoundingBoxDropsLeadingPoint | ObjectLists.GetBoundingBoxIntended |
