# GraphicsProject mesh core in Dafny

This project models the computational core of GraphicsProject, a small
OpenGL viewer. The viewer loads two triangle meshes, builds coarser levels of
detail by edge collapse, extracts the triangles where two meshes collide and
moves the meshes and the camera in response to keys and the mouse. The model
covers four parts, and each module follows one source file:

- `Geom` (`geom.dfy`, from `geom.h`) covers points, boxes and triangles:
  - vector arithmetic;
  - the `mkcode` outcode;
  - the box built from three points, and box translation, scaling and the open-interval overlap test;
  - the cached plane of a triangle and its `planeEquation`;
  - the segment/triangle and triangle/triangle `intersects` tests.

  The C++ methods that update a value in place and return `*this` become
  functions that return the new value.
- `MeshCore` (`meshcore.dfy`) holds the algorithms shared by `Mesh` and
  `Model` on plain values:
  - the vertex→triangle incidence;
  - tombstones and the compaction of reduce;
  - the running bounding box;
  - the emission order of `findCollisions`, as a specification function with its lemmas;
  - the processing walk of `reduce`: the even-index queue, the sorted-merge search for the triangle sharing an edge, one edge collapse, and the run-erasing compaction.

  A triangle refers to its vertices by index into the vertex sequence of its
  mesh. This index arena takes the place of the C++ `vecList` pointer.
- `Meshes.Mesh` (`mesh.dfy`, from `mesh.cpp`) and `Models.Model` (`model.dfy`,
  from `model.cpp`) are classes. Each has the fields `vertices`, `triangles`,
  `vertexTriangles` and `box`, and its methods update them in place with the
  source's loops.
  - `Valid()` keeps the indices in range, the per-vertex lists equal to the incidence and the cached triangle data fresh.
  - `Model` is the older variant. Its `createTriangleLists` and `updateTriangleData` skip tombstoned triangles, its `reduce` clears the lists before compacting, and its single-mode `findCollisions` allocates and sets the collided flags.
- `Visuals.GlVisuals` (`glvisuals.dfy`, from `glvisuals.cpp`) is the
  user-interface state:
  - the angle normalisation and the rotation and translation setters;
  - the time calibration;
  - the mouse and arrow handlers that move the camera or the selected mesh;
  - the key state machine over `selObj` and `selT`;
  - the rebuild of the intersection meshes.

Coordinates are `real`; float rounding is not modelled. The pairwise test that
`findCollisions` uses is `Geom.Intersects`, which follows the steps of
`Triangle::intersects(t1, t2)` over the cached data of the two triangles. That
cached data holds the corrected three-point box of the first finding below, so
the broad phase of the test can accept pairs that the source's box rejects
(see "## Left out").

## Model

| member | source | states |
|---|---|---|
| Geom.AddSubInverse | GraphicsProject/geom.h:41-51 | adding a vector and then subtracting it gives back the point, and so does subtracting and then adding |
| Geom.ScaleInverse | GraphicsProject/geom.h:53-57 | scaling by a nonzero s and then by 1/s gives back the point |
| Geom.CrossProdPerpendicular | GraphicsProject/geom.h:59-71 | the cross product has zero dot product with each of its two factors |
| Geom.CrossProdAntiCommutative | GraphicsProject/geom.h:59-64 | swapping the factors of the cross product negates it |
| Geom.MkCodeZeroIff | GraphicsProject/geom.h:73-80 | the outcode is zero exactly when the point lies in the closed box [c1, c2], so a point on a face gets code 0 |
| Geom.MkCodeBits | GraphicsProject/geom.h:75-79 | for each axis, the upper bit is set iff the coordinate is above c2, and the lower bit iff it is not above c2 and is below c1 |
| Geom.MkCodeShape | GraphicsProject/geom.h:75-79 | at most one bit of each pair 0x01/0x02, 0x04/0x08 and 0x10/0x20 is set, and no bit outside 0x3F |
| Geom.MkCodeTrivialReject | GraphicsProject/geom.h:73-80 | when the codes of the two ends of a segment share a bit, every point of the segment has a nonzero code |
| Geom.TriangleBoxAsWrittenFacts | GraphicsProject/geom.h:118-127 | the three-point box as written is ordered, contains v1, and its upper corner is the componentwise maximum of the three points |
| Geom.TriangleBoxAsWrittenMissesVertex | GraphicsProject/geom.h:118-127 | for v1 = (0,0,0), v2 = (1,1,1) and v3 = (-1,-1,-1) the box as written does not contain v3 |
| Geom.TriangleBoxIsTight | GraphicsProject/geom.h:118-127 | the corrected box is ordered, contains all three points and lies inside every box that contains them |
| Geom.BoxAddSub | GraphicsProject/geom.h:165-177 | translating a box by p and back restores it, and translation keeps all three sizes |
| Geom.BoxScaleSizes | GraphicsProject/geom.h:179-184 | scaling a box by s multiplies each of its sizes by s |
| Geom.ContainsMoved | GraphicsProject/geom.h:165-177 | a point inside the box stays inside when both are moved by the same vector |
| Geom.ContainsScaled | GraphicsProject/geom.h:179-184 | a point inside the box stays inside when both are scaled by the same positive factor |
| Geom.IntersectSymmetric | GraphicsProject/geom.h:186-191 | the box overlap test is symmetric |
| Geom.TouchingBoxesDoNotIntersect | GraphicsProject/geom.h:186-191 | boxes that only touch along a face do not intersect |
| Geom.IntersectIffCommonInterior | GraphicsProject/geom.h:186-191 | two boxes with nonempty interior intersect iff some point is strictly inside both |
| Geom.UpdateData | GraphicsProject/geom.h:221-228 | updateData keeps the vertex indices and the tombstone, and its box contains the three vertices |
| Geom.UpdateDataPlaneThroughVertices | GraphicsProject/geom.h:221-234 | after updateData the plane equation is zero at v1, v2 and v3 |
| Geom.PlaneEquationIsDotProd | GraphicsProject/geom.h:230-234 | the cached normal is (v2 - v1) × (v3 - v1), and the plane equation is the dot product of the normal with r - v3, the form left commented out in the source |
| Geom.UpdateDataIdempotent | GraphicsProject/geom.h:221-228 | applying updateData twice gives the same triangle as applying it once |
| Geom.NewTriangle | GraphicsProject/geom.h:203-211 | the constructor stores the indices, starts live, and leaves data that updateData would not change |
| Geom.IntersectsLineSides | GraphicsProject/geom.h:236-245 | the segment test fails exactly when both ends are strictly on the same side of the plane |
| Geom.IntersectsLineSymmetric | GraphicsProject/geom.h:236-245 | the segment test does not depend on the direction of the segment |
| Geom.IntersectsLineOnPlane | GraphicsProject/geom.h:236-245 | a segment with an end on the plane is always reported |
| Geom.IntersectsBroadPhase | GraphicsProject/geom.h:247-266 | triangles whose boxes do not intersect never intersect |
| Geom.IntersectsSymmetric | GraphicsProject/geom.h:247-266 | the triangle/triangle test is symmetric, because its six edge tests cover both directions |
| Geom.ScaledLargestExtent | GraphicsProject/mesh.cpp:218-230 | scaling a box by size over its largest extent makes that extent equal to size |
| Geom.CenteredBoxIsSymmetric | GraphicsProject/mesh.cpp:252-266 | after moving a box by minus its centre, its midpoint is the origin on every axis |
| MeshCore.AddToLists | GraphicsProject/mesh.cpp:129-131 | the three inserts for triangle k add k to the lists of its vertices, and only to those |
| MeshCore.Live | GraphicsProject/mesh.cpp:334-340 | the live filter is no longer than the list, and each of its members is a triangle of the list without tombstone |
| MeshCore.LiveAppend | GraphicsProject/mesh.cpp:334-340 | filtering tombstones distributes over concatenation |
| MeshCore.LiveOfAllLive | GraphicsProject/mesh.cpp:334-340 | without tombstones the filter changes nothing |
| MeshCore.EraseRun | GraphicsProject/mesh.cpp:336-338 | erasing one run of tombstones keeps the live triangles, shortens the list and keeps the prefix before the run |
| MeshCore.Compact | GraphicsProject/mesh.cpp:334-340 | the run-erasing compaction leaves exactly the live triangles in their original order |
| MeshCore.BoundsFromContains | GraphicsProject/mesh.cpp:62-79 | the running minimum and maximum contain every vertex and never go past the seed corners |
| MeshCore.BoundsFromAttained | GraphicsProject/mesh.cpp:62-79 | on each axis each corner coordinate is either the seed or the coordinate of some vertex |
| MeshCore.MeshBoxTight | GraphicsProject/mesh.cpp:62-79 | with the intended seeds, a nonempty mesh gets its tight box: it contains every vertex and each of its six coordinates is attained by a vertex |
| MeshCore.MeshBoxAsWrittenNotTight | GraphicsProject/mesh.cpp:66 | with the FLT_MIN seed, the single vertex (-1,-1,-1) gets a box whose upper corner is (FLT_MIN, FLT_MIN, FLT_MIN) instead of the vertex |
| MeshCore.SwappedWindingFlipsPlane | GraphicsProject/mesh.cpp:160-161 | the counter-clockwise face rule, which swaps the last two indices, negates the cached normal and the plane equation |
| MeshCore.RowFacts | GraphicsProject/mesh.cpp:186-213 | one pass of the inner loop emits its first-mesh triangle iff it hits something and, in both mode, the second-mesh triangles it is the first to hit |
| MeshCore.EmissionMembers | GraphicsProject/mesh.cpp:171-216 | a first-mesh triangle is emitted iff it hits some second-mesh triangle; in both mode a second-mesh triangle is emitted iff some first-mesh triangle hits it; otherwise none is |
| MeshCore.EmissionOnceInOrder | GraphicsProject/mesh.cpp:171-216 | nothing is emitted twice, and first-mesh triangles are emitted in their own order |
| MeshCore.EmittedTrianglesCollide | GraphicsProject/mesh.cpp:171-216 | every emitted triangle intersects a triangle of the other mesh |
| MeshCore.LaidOutFacts | GraphicsProject/mesh.cpp:192-211 | the k-th emitted triangle is live, indexes the vertices 3k, 3k+1 and 3k+2, and has fresh cached data |
| MeshCore.CopiedSnoc | GraphicsProject/mesh.cpp:193-196 | appending the three corners of one more emitted triangle extends the vertex layout |
| MeshCore.EvenIndices | GraphicsProject/mesh.cpp:276-278 | the initial queue holds exactly the even indices below the triangle count, since ti is incremented twice per pass |
| MeshCore.FindSharedTriangle | GraphicsProject/mesh.cpp:294-302 | the merge walk finds the smallest triangle other than ti in both sorted lists, and reports none exactly when no such triangle exists |
| MeshCore.RetargetAll | GraphicsProject/mesh.cpp:311-318 | each live triangle of vx's list has its first slot holding vx set to vk, and every other triangle is unchanged |
| MeshCore.RetargetFirstFacts | GraphicsProject/mesh.cpp:312-317 | retargeting changes one vertex slot at most, loses no vertex other than vx, and removes vx from a triangle with distinct vertices |
| MeshCore.EraseAll | GraphicsProject/mesh.cpp:327-329 | erasing the members of vk's list from the queue leaves the queue minus that list |
| MeshCore.CollapseEdge | GraphicsProject/mesh.cpp:307-329 | a collapse tombstones exactly ti and tx and retargets the live triangles of vx's list. Afterwards no retargeted triangle with distinct vertices uses vx, vx's list is empty, vk's list is old vk ∪ old vx minus {ti, tx}, the queue loses tx and vk's list but keeps ti, and the rest stays as it was |
| MeshCore.LiveCountDeletePair | GraphicsProject/mesh.cpp:308-309 | tombstoning two live triangles lowers the live count by exactly two |
| MeshCore.CollapseStep | GraphicsProject/mesh.cpp:307-329 | a collapse keeps the walk's invariant and lowers the live count by two |
| MeshCore.WalkVisit | GraphicsProject/mesh.cpp:281-330 | one position of the walk is the step `Visit`: a triangle that is not queued or is tombstoned is skipped. Otherwise tx becomes the smallest other triangle sharing the edge (vi1, vi2), or keeps its old value when there is none, and the edge is collapsed with tx exactly when tx is live. The position also keeps the invariant, never clears a tombstone, keeps the remembered tx a tombstone, and removes either no live triangle or two |
| MeshCore.CollapseWalk | GraphicsProject/mesh.cpp:276-331 | the processing loop is a run of the walk (`IsWalk`): it starts with the even indices queued, takes one `Visit` step per position in ascending order, and ends in the returned triangles and lists. It also keeps indices and lists in range, changes only vertex indices and tombstones, never clears a tombstone, and lowers the live count by twice the number of collapsed edges |
| MeshCore.VisitDeterministic | GraphicsProject/mesh.cpp:281-330 | one position of the walk has exactly one outcome: the sharing triangle is unique, and so is the collapse |
| MeshCore.CollapsedDeterministic | GraphicsProject/mesh.cpp:307-329 | the new triangles, lists and queue of one collapse are determined by the old ones |
| MeshCore.WalkDeterministic | GraphicsProject/mesh.cpp:276-331 | two runs of the walk over the same triangles and lists agree at every position, so the walk's result is a function of its input |
| Meshes.Mesh.Load | GraphicsProject/mesh.cpp:24-32 | from the parsed points and faces, the mesh holds the points, one triangle per face by the face rule, consistent lists and data, and the bounding box of the points |
| Meshes.Mesh.FromCollision | GraphicsProject/mesh.cpp:34-42 | the collision mesh is consistent and is laid out from the emission of its two source meshes |
| Meshes.Mesh.Copy | GraphicsProject/mesh.cpp:44-55 | the copy has the original's vertices, triangles, lists and box |
| Meshes.Mesh.CreateBoundingBox | GraphicsProject/mesh.cpp:62-79 | the box is the running bounds of the vertices and contains every vertex; nothing else changes |
| Meshes.Mesh.CreateTriangleLists | GraphicsProject/mesh.cpp:121-133 | there is one list per vertex, and triangle i is in the list of v iff v is one of its three vertices |
| Meshes.Mesh.UpdateTriangleData | GraphicsProject/mesh.cpp:135-140 | every triangle's cached data is recomputed from the vertices and its indices are kept |
| Meshes.Mesh.SetSize | GraphicsProject/mesh.cpp:218-230 | every vertex and the box are scaled by size over the largest extent; with a positive factor the box still contains the vertices, and with positive sizes the largest extent becomes size |
| Meshes.Mesh.Translate | GraphicsProject/mesh.cpp:232-240 | every vertex and the box move by p; containment and the mesh invariant are kept |
| Meshes.Mesh.AlignCornerToOrigin | GraphicsProject/mesh.cpp:242-250 | vertices and box move by minus the lower corner; the lower corner becomes the origin and the sizes are kept |
| Meshes.Mesh.AlignCenterToOrigin | GraphicsProject/mesh.cpp:252-266 | vertices and box move by minus the box centre; the box midpoint becomes the origin and the sizes are kept |
| Meshes.Mesh.FindCollisions | GraphicsProject/mesh.cpp:171-216 | the output is the emission laid out with three copied vertices per triangle. In single mode the collided flags have length zero and are never read |
| Meshes.Mesh.CollideRow | GraphicsProject/mesh.cpp:186-213 | one pass of the outer loop appends exactly that row's emission and in both mode keeps the flags equal to "already hit" |
| Meshes.Mesh.Reduce | GraphicsProject/mesh.cpp:268-345 | reduce keeps the mesh invariant and the vertices. The ghost trace is the run of the walk (`IsWalk`) over the old triangles and lists, and marked is the triangle list where it ends. The result is marked's live triangles, in order, with fresh data; each is an original triangle with new indices. The count drops by exactly two per collapsed edge |
| Models.Model.Load | GraphicsProject/model.cpp:24-30 | as Mesh.Load, for the model's constructor |
| Models.Model.FromCollision | GraphicsProject/model.cpp:32-41 | the collision model is consistent and laid out from the emission of the two source models |
| Models.Model.CreateBoundingBox | GraphicsProject/model.cpp:48-65 | the box is the running bounds of the vertices and contains every vertex |
| Models.Model.CreateTriangleLists | GraphicsProject/model.cpp:67-80 | the lists number the live triangles by rank: i is in the list of v iff v is a vertex of the i-th live triangle; with no tombstone this is the plain incidence |
| Models.Model.InsertIntoLists | GraphicsProject/model.cpp:76-78 | the three inserts add the number k to exactly the lists of the triangle's three vertices, as `AddToLists` states, and change no other field |
| Models.Model.UpdateTriangleData | GraphicsProject/model.cpp:82-89 | live triangles get fresh cached data and tombstoned ones are left untouched |
| Models.Model.SetSize | GraphicsProject/model.cpp:166-178 | as Mesh.SetSize |
| Models.Model.AlignCornerToOrigin | GraphicsProject/model.cpp:180-188 | vertices and box move equally, the lower corner becomes the origin and the sizes are kept |
| Models.Model.AlignCenterToOrigin | GraphicsProject/model.cpp:190-204 | vertices and box move equally, the box midpoint becomes the origin and the sizes are kept |
| Models.Model.FindCollisions | GraphicsProject/model.cpp:120-164 | the emitted set and layout are those of Mesh's findCollisions, even though single mode also sets the hit second-model flag |
| Models.Model.CollideRow | GraphicsProject/model.cpp:132-162 | one pass appends that row's emission. In single mode a flag is set exactly for the second-model triangles that were the first hit of an earlier row |
| Models.Model.ClearLists | GraphicsProject/model.cpp:266-268 | every adjacency list is emptied and their number is kept |
| Models.Model.Reduce | GraphicsProject/model.cpp:206-281 | as Mesh.Reduce, with no limit on the triangle count: the trace is the run of the walk over the old triangles and lists, and the result is the live triangles where it ends, with fresh data |
| Visuals.NormalAngleSpec | GraphicsProject/glvisuals.cpp:197-203 | the normalised angle lies in [0, 360] and is congruent to the input modulo 360; it is 0 only for a non-positive multiple of 360 and 360 only for a positive one |
| Visuals.NormalAngleIdempotent | GraphicsProject/glvisuals.cpp:197-203 | normalising twice is normalising once |
| Visuals.QNormalizeAngle | GraphicsProject/glvisuals.cpp:197-203 | the two loops leave a value in [0, 360], congruent to the input modulo 360 |
| Visuals.GlVisuals.constructor | GraphicsProject/glvisuals.cpp:24-72 | the initial parameters, no selection, the z axis, the viewing angle (0, 90, 60) and a zero translation, over fifteen meshes that are separate objects as the `new` calls make them |
| Visuals.GlVisuals.MakeIntersections | GraphicsProject/glvisuals.cpp:83-96 | with a selection, the five intersection meshes become new, separate both-mode collision meshes of the selected level with each level of the second mesh, each laid out from the emission and boxed by its vertices. Without a selection the intersections stay. No other field changes, the drag start included |
| Visuals.GlVisuals.CollideLevels | GraphicsProject/glvisuals.cpp:90-94 | one new, consistent collision mesh per level, in order, no two the same object, each laid out from the emission and with the box of its vertices |
| Visuals.GlVisuals.SetGlobalXRotation | GraphicsProject/glvisuals.cpp:205-210 | the x rotation becomes the normalised angle, a whole number of degrees in [0, 360]; no other component and no other field changes, the drag start included |
| Visuals.GlVisuals.SetGlobalYRotation | GraphicsProject/glvisuals.cpp:212-217 | the same for the y rotation, and no other field changes |
| Visuals.GlVisuals.SetGlobalZRotation | GraphicsProject/glvisuals.cpp:219-224 | the same for the z rotation, and no other field changes |
| Visuals.GlVisuals.SetGlobalXTranslation | GraphicsProject/glvisuals.cpp:226-229 | the x translation becomes d percent of ten scene sizes, and no other field changes |
| Visuals.GlVisuals.SetGlobalYTranslation | GraphicsProject/glvisuals.cpp:231-234 | the y translation becomes d percent of ten scene sizes, and no other field changes |
| Visuals.GlVisuals.SetGlobalZTranslation | GraphicsProject/glvisuals.cpp:236-239 | the z translation becomes d percent of three scene sizes, and no other field changes |
| Visuals.GlVisuals.SetEllapsedMillis | GraphicsProject/glvisuals.cpp:241-247 | the first call sets the time origin and leaves t. Later calls set t to the elapsed seconds and never move the origin again. No other field changes, the drag start included |
| Visuals.GlVisuals.MousePressed | GraphicsProject/glvisuals.cpp:249-253 | the drag start is remembered, and no other field changes |
| Visuals.GlVisuals.MouseMoved | GraphicsProject/glvisuals.cpp:255-270 | the rotation becomes the normalised sum of the old angle and half the drag, about y and z, or about y and x with a modifier; the drag start moves to (x, y) and no other field changes |
| Visuals.GlVisuals.MouseWheel | GraphicsProject/glvisuals.cpp:272-288 | with no selection the camera moves a twentieth of the unchanged scene size along the selected axis. Otherwise the selected level of the first mesh is translated that way (vertices, box and cached data) and stays consistent, while the other meshes, separate objects, are untouched. No other field changes |
| Visuals.GlVisuals.TranslateSelected | GraphicsProject/glvisuals.cpp:286 | the selected mesh is translated as `Mesh::translate` does: vertices and box moved by p, cached data recomputed, lists kept. The other fourteen meshes are unchanged and every mesh stays consistent |
| Visuals.GlVisuals.KeyEvent | GraphicsProject/glvisuals.cpp:290-300 | a release clears the selection; 'x' to 'z' set the axis, '1' to '5' select levels 0 to 4, 'i' rebuilds the intersections as MakeIntersections states, and other keys change nothing. The selection always stays in [-1, 4], and no other field changes, the drag start included |
| Visuals.GlVisuals.ArrowEvent | GraphicsProject/glvisuals.cpp:302-319 | with no selection the camera moves a twentieth of the unchanged scene size along x (bit 1 set) or z, and otherwise the selected level is translated along z or x as in MouseWheel. The movement is backwards when bit 0 is set. No other field changes |

## Left out

- Rendering and windowing: `draw*`, `Box::draw`, `glInitialize`, `glResize`, `glPaint`, `drawAxes` and `drawScene`; `window.cpp`, `glwidget.cpp` and `main.cpp` are not part of this model. They are GL and Qt glue.
- Reading OBJ files (`loadTrianglesFromOBJ`): file I/O and `sscanf` parsing. `Mesh.Load` and `Model.Load` take the parsed vertex coordinates and 1-based face triples, and model the face-index rule `FaceIndices`. `Load` requires every face index to name a vertex; the source does not check this.
- `boxCoverage` (mesh.cpp:81-119): float grid sampling that calls functions `geom.h` does not define.
- Timing and console output (`clock`, `printf`, `cout`, the "d1"/"d2" traces of `Model::reduce`).
- Floating point: coordinates are reals with no rounding, and FLT_MAX and FLT_MIN are constants. Integer overflow of `count` and of the indices is not modelled.
- Chaining: `Point::add/sub/scale` and `Box::add/sub/scale` update in place and return `*this`. The model has value functions whose results the callers assign, so aliasing through the returned reference is not modelled.
- The `vecList` pointer of each triangle is the vertex sequence of the mesh that owns it. The copy constructor's re-pointing loop (mesh.cpp:51-53) therefore has nothing to do.
- mesh.cpp's `findCollisions` calls `Geom::intersects`, which `geom.h` does not declare. The model uses `Triangle::intersects(t1, t2)` (`Geom.Intersects`).
- `Mesh.UpdateTriangleData` is modelled as `updateData`. mesh.cpp calls `update()`, which `geom.h` does not declare, and `updateData` is the member it evidently means.
- `Geom.UpdateData` uses the corrected three-point box of the first finding below, so the cached box of every triangle contains its vertices, which the source's box need not.
- `Meshes.Mesh.CreateBoundingBox` and `Models.Model.CreateBoundingBox` use the corrected -FLT_MAX seed of the second finding below. The source's FLT_MIN seed (mesh.cpp:66, model.cpp:52) also gives a box that contains every vertex (`BoundsFromContains` holds for any seed). The corrected seed changes what the box is: it makes it tight, where the source's upper corner is at least FLT_MIN on every axis. The two differ on every mesh whose coordinates on some axis are all at most 0, and everything computed from the box differs with them:
  - `SetSize` (both classes) divides by the largest extent. For x in [-2, -1] and y, z in [0, 1], the source's box has x size about 2 and the model's 1, so `SetSize(10)` scales by 5 in the source and by 10 in the model.
  - `AlignCenterToOrigin` (both classes) moves by the box centre, which is about -1 on that x axis in the source and -1.5 in the model.
  - An empty mesh gets the upper corner (FLT_MIN, FLT_MIN, FLT_MIN) in the source and (-FLT_MAX, -FLT_MAX, -FLT_MAX) in the model.
- `Meshes.Mesh.FindCollisions` and `Models.Model.FindCollisions`: their output is computed over the corrected cached boxes, which contain the source's boxes. The emitted pairs can therefore be a strict superset of the source's, because the source's broad phase rejects a pair whose uncorrected boxes do not overlap. For example, take t1 = (0,0,0), (1,0,0), (-1,1,0) and t2 = (-0.4,0.4,-1), (-0.4,0.6,-1), (-0.4,0.5,1). The corrected boxes overlap and the source's do not, and an edge of t2 crosses the plane of t1.
- `Meshes.Mesh.SetSize` and `Models.Model.SetSize`: require a nonzero largest extent, because the source divides by it.
- `Meshes.Mesh.Reduce`: requires at most 65536 triangles. mesh.cpp keeps the queue as `set<unsigned short>` (mesh.cpp:271), and larger indices would be truncated.
- `Meshes.Mesh.Reduce`: the unused level-of-detail argument is kept. The same holds for `Models.Model.Reduce`'s unused argument.
- The walk of `reduce` when the merge finds no shared triangle: the source reads `tx` as the previous round left it, or uninitialised in the first round. `CollapseWalk` keeps the previous value in an `Option` and skips when it is `None`. The previous value is always a tombstone by then, and the walk proves this as an invariant, so only the read of the uninitialised variable differs.
- MeshCore.CollapseEdge: the "vx no longer used" clause is stated only for triangles with three distinct vertex indices. A degenerate triangle using vx twice keeps one use, as the source's if/else-if chain retargets only the first slot.
- Meshes.Mesh.Reduce: the resulting triangle list is given through the step relation `Visit` of the walk, which `WalkDeterministic` shows to be a function of the input mesh, rather than as a function one can evaluate. The same holds for `Models.Model.Reduce`.
- `GlVisuals` constructor: loading the two models, `alignLocalCenter` (not defined in mesh.cpp), `setSize`, the reduce chain and the per-level translation are not modelled. The constructor takes the finished meshes. The source leaves `mouse_lastX` and `mouse_lastY` uninitialised; the model sets them to 0.
- The destructor of `GlVisuals` and the deletion of the old intersection meshes: memory management.
- The BVH and voxel declarations in mesh.h (`mAABB`, `mVoxels`, `BVL`, `VDIV`, `calculateVolume`) have no implementation. The headers are out of step with the `.cpp` files (for example, model.h declares `mVertices` while model.cpp uses `mVertice`), and the model follows the `.cpp` files.

## Findings

| source | as written | input that shows it | evidently intended | confidence | as-written member | corrected member |
|---|---|---|---|---|---|---|
| GraphicsProject/geom.h:118-127 | the lower corner of the three-point box is `min(v1, max(v2, v3))` on each axis | v1 = (0,0,0), v2 = (1,1,1), v3 = (-1,-1,-1): the box is [(0,0,0), (1,1,1)] and misses v3 | the componentwise minimum of the three points, so the box contains the triangle that `Triangle::updateData` caches it for | high (not executed) | Geom.TriangleBoxAsWrittenMissesVertex | Geom.TriangleBoxIsTight |
| GraphicsProject/mesh.cpp:66 | `createBoundingBox` seeds the running maximum with FLT_MIN, the smallest positive float (the same in model.cpp:52) | one vertex (-1,-1,-1): the box's upper corner stays (FLT_MIN, FLT_MIN, FLT_MIN) | seed with -FLT_MAX, so a mesh with only negative coordinates gets its tight box | high (not executed) | MeshCore.MeshBoxAsWrittenNotTight | MeshCore.MeshBoxTight |
