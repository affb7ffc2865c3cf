/** model.cpp: the Model class, the older variant of Mesh that the scene no
    longer uses. Its data and operations match Mesh with three differences:
    createTriangleLists and updateTriangleData skip tombstoned triangles
    (and the lists number the live triangles by rank), findCollisions
    always allocates the collided flags of the second model and also flags
    the hit that ends a row in single mode, and reduce empties the
    per-vertex lists before rebuilding them and has no 16-bit index set. */
module Models {
  import opened Geom
  import opened MeshCore

  class Model {
    var vertices: seq<Point>
    var triangles: seq<Triangle>
    var vertexTriangles: seq<set<int>>
    var box: Box

    /** Indices in range, the per-vertex lists equal to the incidence, the
        cached triangle data fresh, and no tombstone outside of reduce. */
    ghost predicate Valid()
      reads this
    {
      WellIndexed(triangles, |vertices|) &&
      IsIncidence(vertexTriangles, triangles, |vertices|) &&
      CachesFresh(vertices, triangles) &&
      AllLive(triangles)
    }

    function Data(): MeshData
      reads this
    {
      MeshData(vertices, triangles)
    }

    /** Model(filename, ccw, vt) once the file has been read into the vertex
        coordinates and the 1-based face triples. */
    constructor Load(points: seq<Point>, faces: seq<(int, int, int)>, ccw: bool)
      requires forall k :: 0 <= k < |faces| ==>
        1 <= faces[k].0 <= |points| && 1 <= faces[k].1 <= |points| && 1 <= faces[k].2 <= |points|
      ensures Valid()
      ensures vertices == points && |triangles| == |faces|
      ensures forall k :: 0 <= k < |faces| ==>
        var f := FaceIndices(faces[k].0, faces[k].1, faces[k].2, ccw);
        triangles[k] == NewTriangle(points, f.0, f.1, f.2)
      ensures box == MeshBox(points)
    {
      vertices := points;
      triangles := [];
      vertexTriangles := [];
      box := Box(Origin, Origin);
      new;
      var k := 0;
      while k < |faces|
        invariant 0 <= k <= |faces| && vertices == points && |triangles| == k
        invariant forall q :: 0 <= q < k ==>
          var f := FaceIndices(faces[q].0, faces[q].1, faces[q].2, ccw);
          triangles[q] == NewTriangle(points, f.0, f.1, f.2)
      {
        var f := FaceIndices(faces[k].0, faces[k].1, faces[k].2, ccw);
        triangles := triangles + [NewTriangle(vertices, f.0, f.1, f.2)];
        k := k + 1;
      }
      CreateTriangleLists();
      CreateBoundingBox();
      ghost var made := triangles;
      UpdateTriangleData();
      assert triangles == made;
    }

    /** Model(m1, m2, both): the triangles of m1 that hit m2, and in "both"
        mode also the triangles of m2 that they hit. */
    constructor FromCollision(m1: Model, m2: Model, both: bool)
      requires m1.Valid() && m2.Valid()
      ensures Valid()
      ensures LaidOut(m1.Data(), m2.Data(),
        Emission(HitsOf(m1.Data(), m2.Data()), |m1.triangles|, |m2.triangles|, both), vertices, triangles)
      ensures box == MeshBox(vertices)
    {
      var vs, tris := FindCollisions(m1.Data(), m2.Data(), both);
      vertices := vs;
      triangles := tris;
      vertexTriangles := [];
      box := Box(Origin, Origin);
      new;
      LaidOutFacts(m1.Data(), m2.Data(),
        Emission(HitsOf(m1.Data(), m2.Data()), |m1.triangles|, |m2.triangles|, both), vertices, triangles);
      CreateTriangleLists();
      CreateBoundingBox();
      UpdateTriangleData();
      assert triangles == tris;
    }

    /** createBoundingBox: the running minimum and maximum of the vertices. */
    method CreateBoundingBox()
      modifies this
      ensures box == MeshBox(vertices) && ContainsAll(box, vertices)
      ensures vertices == old(vertices) && triangles == old(triangles)
      ensures vertexTriangles == old(vertexTriangles)
    {
      var boxMin, boxMax := Splat(FltMax), Splat(-FltMax);
      var i := 0;
      while i < |vertices|
        invariant 0 <= i <= |vertices|
        invariant Box(boxMin, boxMax) == MeshBox(vertices[..i])
      {
        var v := vertices[i];
        assert vertices[..i + 1][..i] == vertices[..i];
        boxMax := Point(if v.x > boxMax.x then v.x else boxMax.x,
                        if v.y > boxMax.y then v.y else boxMax.y,
                        if v.z > boxMax.z then v.z else boxMax.z);
        boxMin := Point(if v.x < boxMin.x then v.x else boxMin.x,
                        if v.y < boxMin.y then v.y else boxMin.y,
                        if v.z < boxMin.z then v.z else boxMin.z);
        i := i + 1;
      }
      assert vertices[..i] == vertices;
      box := Box(boxMin, boxMax);
      BoundsFromContains(Splat(FltMax), Splat(-FltMax), vertices);
    }

    /** createTriangleLists: clear the lists, then insert the rank of each
        live triangle among the live ones into the lists of its three
        vertices; tombstones are skipped and take no number. */
    method CreateTriangleLists()
      requires WellIndexed(triangles, |vertices|)
      modifies this
      ensures IsIncidence(vertexTriangles, Live(triangles), |vertices|)
      ensures AllLive(triangles) ==> IsIncidence(vertexTriangles, triangles, |vertices|)
      ensures vertices == old(vertices) && triangles == old(triangles) && box == old(box)
    {
      vertexTriangles := seq(|vertices|, _ => {});
      IncidenceOfNone(|vertices|);
      assert triangles[..0] == [];
      ghost var live: seq<Triangle> := [];
      var i := 0;
      var p := 0;
      while p < |triangles|
        invariant 0 <= p <= |triangles|
        invariant vertices == old(vertices) && triangles == old(triangles) && box == old(box)
        invariant live == Live(triangles[..p]) && i == |live|
        invariant IsIncidence(vertexTriangles, live, |vertices|)
      {
        var t := triangles[p];
        LiveSnoc(triangles, p);
        if !t.deleted {
          ghost var before := vertexTriangles;
          InsertIntoLists(t, i);
          IncidenceSnoc(before, live, t, |vertices|);
          live := live + [t];
          i := i + 1;
        }
        p := p + 1;
      }
      assert triangles[..p] == triangles;
      IncidenceOfAllLive(vertexTriangles, triangles, |vertices|);
    }

    /** The three inserts of createTriangleLists for triangle number k. */
    method InsertIntoLists(t: Triangle, k: int)
      requires IndexedIn(t, |vertexTriangles|)
      modifies this
      ensures vertexTriangles == AddToLists(old(vertexTriangles), t, k)
      ensures vertices == old(vertices) && triangles == old(triangles) && box == old(box)
    {
      vertexTriangles := vertexTriangles[t.vi1 := vertexTriangles[t.vi1] + {k}];
      vertexTriangles := vertexTriangles[t.vi2 := vertexTriangles[t.vi2] + {k}];
      vertexTriangles := vertexTriangles[t.vi3 := vertexTriangles[t.vi3] + {k}];
    }

    /** updateTriangleData: recompute the cached box and plane of every live
        triangle; tombstones keep their stale data. */
    method UpdateTriangleData()
      requires WellIndexed(triangles, |vertices|)
      modifies this
      ensures vertices == old(vertices) && vertexTriangles == old(vertexTriangles) && box == old(box)
      ensures |triangles| == old(|triangles|)
      ensures forall k :: 0 <= k < |triangles| ==>
        triangles[k] == if old(triangles[k]).deleted then old(triangles[k]) else UpdateData(vertices, old(triangles[k]))
      ensures SameIndices(old(triangles), triangles) && WellIndexed(triangles, |vertices|)
      ensures AllLive(old(triangles)) ==> CachesFresh(vertices, triangles)
    {
      var i := 0;
      while i < |triangles|
        invariant 0 <= i <= |triangles| && |triangles| == old(|triangles|)
        invariant vertices == old(vertices) && vertexTriangles == old(vertexTriangles) && box == old(box)
        invariant forall k :: 0 <= k < i ==>
          triangles[k] == if old(triangles[k]).deleted then old(triangles[k]) else UpdateData(vertices, old(triangles[k]))
        invariant forall k :: i <= k < |triangles| ==> triangles[k] == old(triangles[k])
      {
        if !triangles[i].deleted {
          triangles := triangles[i := UpdateData(vertices, triangles[i])];
        }
        i := i + 1;
      }
      if AllLive(old(triangles)) {
        forall k | 0 <= k < |triangles| ensures triangles[k] == UpdateData(vertices, triangles[k]) {
          UpdateDataIdempotent(vertices, old(triangles[k]));
        }
      }
    }

    /** After the vertices moved, the derived data is rebuilt the same way
        by every transform. */
    method Refresh()
      requires WellIndexed(triangles, |vertices|) && AllLive(triangles)
      requires IsIncidence(vertexTriangles, triangles, |vertices|)
      modifies this
      ensures vertices == old(vertices) && vertexTriangles == old(vertexTriangles) && box == old(box)
      ensures Valid()
      ensures |triangles| == old(|triangles|)
      ensures forall k :: 0 <= k < |triangles| ==> triangles[k] == UpdateData(vertices, old(triangles[k]))
    {
      ghost var t0 := triangles;
      UpdateTriangleData();
      IncidenceSameIndices(vertexTriangles, t0, triangles, |vertices|);
    }

    /** setSize: scale so that the largest extent of the box becomes size. */
    method SetSize(size: real)
      requires Valid() && LargestExtent(box) != 0.0
      modifies this
      ensures Valid()
      ensures var s := size / LargestExtent(old(box));
        && |vertices| == old(|vertices|)
        && (forall k :: 0 <= k < |vertices| ==> vertices[k] == Scale(old(vertices[k]), s))
        && box == BoxScale(old(box), s)
        && (s > 0.0 && old(ContainsAll(box, vertices)) ==> ContainsAll(box, vertices))
      ensures LargestExtent(old(box)) > 0.0 && size > 0.0 ==> LargestExtent(box) == size
      ensures |triangles| == old(|triangles|)
      ensures forall k :: 0 <= k < |triangles| ==> triangles[k] == UpdateData(vertices, old(triangles[k]))
      ensures vertexTriangles == old(vertexTriangles)
    {
      var s := size / LargestExtent(box);
      var i := 0;
      while i < |vertices|
        invariant 0 <= i <= |vertices| == old(|vertices|)
        invariant triangles == old(triangles) && vertexTriangles == old(vertexTriangles) && box == old(box)
        invariant forall k :: 0 <= k < i ==> vertices[k] == Scale(old(vertices[k]), s)
        invariant forall k :: i <= k < |vertices| ==> vertices[k] == old(vertices[k])
      {
        vertices := vertices[i := Scale(vertices[i], s)];
        i := i + 1;
      }
      box := BoxScale(box, s);
      if s > 0.0 && old(ContainsAll(box, vertices)) {
        forall k | 0 <= k < |vertices| ensures Contains(box, vertices[k]) {
          ContainsScaled(old(box), old(vertices[k]), s);
        }
      }
      if LargestExtent(old(box)) > 0.0 && size > 0.0 {
        ScaledLargestExtent(old(box), size);
      }
      Refresh();
    }

    /** alingCornerToOrigin: move the lower corner of the box to the origin. */
    method AlignCornerToOrigin()
      requires Valid()
      modifies this
      ensures Valid()
      ensures |vertices| == old(|vertices|)
      ensures forall k :: 0 <= k < |vertices| ==> vertices[k] == Sub(old(vertices[k]), old(box).min)
      ensures box == BoxSub(old(box), old(box).min) && box.min == Origin
      ensures XSize(box) == XSize(old(box)) && YSize(box) == YSize(old(box)) && ZSize(box) == ZSize(old(box))
      ensures old(ContainsAll(box, vertices)) ==> ContainsAll(box, vertices)
      ensures |triangles| == old(|triangles|)
      ensures forall k :: 0 <= k < |triangles| ==> triangles[k] == UpdateData(vertices, old(triangles[k]))
      ensures vertexTriangles == old(vertexTriangles)
    {
      var i := 0;
      while i < |vertices|
        invariant 0 <= i <= |vertices| == old(|vertices|)
        invariant triangles == old(triangles) && vertexTriangles == old(vertexTriangles) && box == old(box)
        invariant forall k :: 0 <= k < i ==> vertices[k] == Sub(old(vertices[k]), box.min)
        invariant forall k :: i <= k < |vertices| ==> vertices[k] == old(vertices[k])
      {
        vertices := vertices[i := Sub(vertices[i], box.min)];
        i := i + 1;
      }
      box := BoxSub(box, box.min);
      BoxAddSub(old(box), old(box).min);
      if old(ContainsAll(box, vertices)) {
        forall k | 0 <= k < |vertices| ensures Contains(box, vertices[k]) {
          ContainsMoved(old(box), old(vertices[k]), old(box).min);
        }
      }
      Refresh();
    }

    /** alingCenterToOrigin: move the centre of the box to the origin. */
    method AlignCenterToOrigin()
      requires Valid()
      modifies this
      ensures Valid()
      ensures |vertices| == old(|vertices|)
      ensures forall k :: 0 <= k < |vertices| ==> vertices[k] == Sub(old(vertices[k]), Center(old(box)))
      ensures box == BoxSub(old(box), Center(old(box)))
      ensures box.min.x + box.max.x == 0.0 && box.min.y + box.max.y == 0.0 && box.min.z + box.max.z == 0.0
      ensures XSize(box) == XSize(old(box)) && YSize(box) == YSize(old(box)) && ZSize(box) == ZSize(old(box))
      ensures old(ContainsAll(box, vertices)) ==> ContainsAll(box, vertices)
      ensures |triangles| == old(|triangles|)
      ensures forall k :: 0 <= k < |triangles| ==> triangles[k] == UpdateData(vertices, old(triangles[k]))
      ensures vertexTriangles == old(vertexTriangles)
    {
      var c2 := Sub(box.max, box.min);
      c2 := Scale(c2, 0.5);
      var c1 := Add(box.min, c2);
      assert c1 == Center(box);
      var i := 0;
      while i < |vertices|
        invariant 0 <= i <= |vertices| == old(|vertices|)
        invariant triangles == old(triangles) && vertexTriangles == old(vertexTriangles) && box == old(box)
        invariant forall k :: 0 <= k < i ==> vertices[k] == Sub(old(vertices[k]), c1)
        invariant forall k :: i <= k < |vertices| ==> vertices[k] == old(vertices[k])
      {
        vertices := vertices[i := Sub(vertices[i], c1)];
        i := i + 1;
      }
      box := BoxSub(box, c1);
      CenteredBoxIsSymmetric(old(box));
      BoxAddSub(old(box), c1);
      if old(ContainsAll(box, vertices)) {
        forall k | 0 <= k < |vertices| ensures Contains(box, vertices[k]) {
          ContainsMoved(old(box), old(vertices[k]), c1);
        }
      }
      Refresh();
    }

    /** findCollisions: for each triangle of m1 that hits a triangle of m2,
        copy it out; in "both" mode also copy each hit triangle of m2 the
        first time it is hit. The collided flags of m2 always have one entry
        per triangle; in single mode the flag of the hit that ends a row is
        set, so after the loop exactly the first hits of the rows are
        flagged. */
    static method FindCollisions(m1: MeshData, m2: MeshData, both: bool)
        returns (vs: seq<Point>, tris: seq<Triangle>)
      requires WellFormed(m1) && WellFormed(m2)
      ensures var e := Emission(HitsOf(m1, m2), |m1.triangles|, |m2.triangles|, both);
        LaidOut(m1, m2, e, vs, tris)
    {
      ghost var hit := HitsOf(m1, m2);
      var mt2Collided: seq<bool> := seq(|m2.triangles|, _ => false);
      vs, tris := [], [];
      var mti1 := 0;
      while mti1 < |m1.triangles|
        invariant 0 <= mti1 <= |m1.triangles|
        invariant LaidOut(m1, m2, EmissionUpTo(hit, |m2.triangles|, mti1, both), vs, tris)
        invariant |mt2Collided| == |m2.triangles|
        invariant both ==> forall j :: 0 <= j < |m2.triangles| ==>
          (mt2Collided[j] <==> exists i' :: 0 <= i' < mti1 && hit(i', j))
        invariant !both ==> forall j :: 0 <= j < |m2.triangles| ==>
          (mt2Collided[j] <==> exists i' :: 0 <= i' < mti1 && FirstHitAt(hit, i', j))
      {
        vs, tris, mt2Collided := CollideRow(m1, m2, both, mti1, vs, tris, mt2Collided);
        mti1 := mti1 + 1;
      }
    }

    /** The inner loop of findCollisions for triangle mti1 of m1. */
    static method CollideRow(m1: MeshData, m2: MeshData, both: bool, mti1: int,
                             vs: seq<Point>, tris: seq<Triangle>, mt2Collided: seq<bool>)
        returns (vs': seq<Point>, tris': seq<Triangle>, mt2Collided': seq<bool>)
      requires WellFormed(m1) && WellFormed(m2) && 0 <= mti1 < |m1.triangles|
      requires LaidOut(m1, m2, EmissionUpTo(HitsOf(m1, m2), |m2.triangles|, mti1, both), vs, tris)
      requires |mt2Collided| == |m2.triangles|
      requires both ==> forall j :: 0 <= j < |m2.triangles| ==>
        (mt2Collided[j] <==> exists i' :: 0 <= i' < mti1 && HitsOf(m1, m2)(i', j))
      requires !both ==> forall j :: 0 <= j < |m2.triangles| ==>
        (mt2Collided[j] <==> exists i' :: 0 <= i' < mti1 && FirstHitAt(HitsOf(m1, m2), i', j))
      ensures LaidOut(m1, m2, EmissionUpTo(HitsOf(m1, m2), |m2.triangles|, mti1 + 1, both), vs', tris')
      ensures |mt2Collided'| == |m2.triangles|
      ensures both ==> forall j :: 0 <= j < |m2.triangles| ==>
        (mt2Collided'[j] <==> exists i' :: 0 <= i' < mti1 + 1 && HitsOf(m1, m2)(i', j))
      ensures !both ==> forall j :: 0 <= j < |m2.triangles| ==>
        (mt2Collided'[j] <==> exists i' :: 0 <= i' < mti1 + 1 && FirstHitAt(HitsOf(m1, m2), i', j))
    {
      ghost var hit := HitsOf(m1, m2);
      ghost var n2 := |m2.triangles|;
      ghost var done := EmissionUpTo(hit, n2, mti1, both);
      ghost var emitted := done;
      vs', tris', mt2Collided' := vs, tris, mt2Collided;
      var mt1Collided := false;
      var mti2 := 0;
      assert done + Row(hit, 0, mti1, both) == done;
      while mti2 < |m2.triangles|
        invariant RowScan(m1, m2, both, mti1, mti2, done, emitted, vs', tris', mt2Collided', mt1Collided)
      {
        var stop;
        vs', tris', mt2Collided', mt1Collided, stop, emitted :=
          CollideStep(m1, m2, both, mti1, mti2, vs', tris', mt2Collided', mt1Collided, done, emitted);
        if stop {
          break;
        }
        mti2 := mti2 + 1;
      }
      if both {
        FlagsNextRow(hit, mt2Collided', mti1);
      } else if mti2 == |m2.triangles| {
        FirstFlagsNoHit(hit, mt2Collided', mti1);
      }
      assert emitted == done + Row(hit, n2, mti1, both) == EmissionUpTo(hit, n2, mti1 + 1, both);
    }

    /** The state of the inner loop of findCollisions for row i after m
        triangles of the second model: the emission so far and its buffers,
        whether the row has hit, and which second triangles are flagged. */
    static ghost predicate RowScan(m1: MeshData, m2: MeshData, both: bool, i: int, m: int,
                                   done: seq<Source>, emitted: seq<Source>, vs: seq<Point>,
                                   tris: seq<Triangle>, mt2Collided: seq<bool>, mt1Collided: bool)
    {
      WellFormed(m1) && WellFormed(m2) && 0 <= i < |m1.triangles| && 0 <= m <= |m2.triangles| &&
      emitted == done + Row(HitsOf(m1, m2), m, i, both) && LaidOut(m1, m2, emitted, vs, tris) &&
      (mt1Collided <==> RowHits(HitsOf(m1, m2), m, i)) && (!both ==> !mt1Collided) &&
      |mt2Collided| == |m2.triangles| &&
      (both ==> forall j :: 0 <= j < |m2.triangles| ==>
         (mt2Collided[j] <==> (exists i' :: 0 <= i' < i && HitsOf(m1, m2)(i', j)) || (j < m && HitsOf(m1, m2)(i, j)))) &&
      (!both ==> forall j :: 0 <= j < |m2.triangles| ==>
         (mt2Collided[j] <==> exists i' :: 0 <= i' < i && FirstHitAt(HitsOf(m1, m2), i', j)))
    }

    /** One iteration of the inner loop: skip an already collided pair or a
        miss, otherwise handle the hit; stop reports the single-mode break. */
    static method CollideStep(m1: MeshData, m2: MeshData, both: bool, mti1: int, mti2: int,
                              vs: seq<Point>, tris: seq<Triangle>, mt2Collided: seq<bool>, mt1Collided: bool,
                              ghost done: seq<Source>, ghost emitted: seq<Source>)
        returns (vs': seq<Point>, tris': seq<Triangle>, mt2Collided': seq<bool>, mt1Collided': bool,
                 stop: bool, ghost emitted': seq<Source>)
      requires RowScan(m1, m2, both, mti1, mti2, done, emitted, vs, tris, mt2Collided, mt1Collided)
      requires mti2 < |m2.triangles|
      ensures !stop ==> RowScan(m1, m2, both, mti1, mti2 + 1, done, emitted', vs', tris', mt2Collided', mt1Collided')
      ensures stop ==> (!both && |mt2Collided'| == |m2.triangles| &&
        (forall j :: 0 <= j < |m2.triangles| ==>
           (mt2Collided'[j] <==> exists i' :: 0 <= i' < mti1 + 1 && FirstHitAt(HitsOf(m1, m2), i', j))) &&
        emitted' == done + Row(HitsOf(m1, m2), |m2.triangles|, mti1, both) && LaidOut(m1, m2, emitted', vs', tris'))
    {
      ghost var hit := HitsOf(m1, m2);
      vs', tris', mt2Collided', mt1Collided', stop, emitted' := vs, tris, mt2Collided, mt1Collided, false, emitted;
      if mt1Collided && mt2Collided[mti2] {
        RowSkip(hit, mti2, mti1, both);
        assert emitted == done + Row(hit, mti2 + 1, mti1, both);
        return;
      }
      var collide := TrianglesIntersect(m1, m2, mti1, mti2);
      if !collide {
        RowSkip(hit, mti2, mti1, both);
        assert emitted == done + Row(hit, mti2 + 1, mti1, both);
        return;
      }
      vs', tris', mt2Collided', mt1Collided', emitted' :=
        CollideHit(m1, m2, both, mti1, mti2, vs, tris, mt2Collided, mt1Collided, done);
      stop := !both;
      if both {
        RowStep(hit, mti2, mti1, both);
      } else {
        FirstFlagsHit(hit, mt2Collided, mt2Collided', mti1, mti2);
      }
    }

    /** The body of the inner loop of findCollisions once triangles mti1 and
        mti2 are known to intersect: emit the first model's triangle on the
        row's first hit and, in "both" mode, the second model's triangle on
        its first hit. Without "both" the flag is set and the row is then
        complete. */
    static method CollideHit(m1: MeshData, m2: MeshData, both: bool, mti1: int, mti2: int,
                             vs: seq<Point>, tris: seq<Triangle>, mt2Collided: seq<bool>, mt1Collided: bool,
                             ghost done: seq<Source>)
        returns (vs': seq<Point>, tris': seq<Triangle>, mt2Collided': seq<bool>, mt1Collided': bool,
                 ghost emitted: seq<Source>)
      requires WellFormed(m1) && WellFormed(m2) && 0 <= mti1 < |m1.triangles| && 0 <= mti2 < |m2.triangles|
      requires HitsOf(m1, m2)(mti1, mti2)
      requires LaidOut(m1, m2, done + Row(HitsOf(m1, m2), mti2, mti1, both), vs, tris)
      requires mt1Collided <==> RowHits(HitsOf(m1, m2), mti2, mti1)
      requires !both ==> !mt1Collided
      requires |mt2Collided| == |m2.triangles|
      requires both ==> (mt2Collided[mti2] <==> exists i' :: 0 <= i' < mti1 && HitsOf(m1, m2)(i', mti2))
      requires both ==> !(mt1Collided && mt2Collided[mti2])
      ensures mt1Collided'
      ensures LaidOut(m1, m2, emitted, vs', tris')
      ensures !both ==> emitted == done + Row(HitsOf(m1, m2), |m2.triangles|, mti1, both)
      ensures both ==> emitted == done + Row(HitsOf(m1, m2), mti2 + 1, mti1, both)
      ensures mt2Collided' == mt2Collided[mti2 := true]
    {
      ghost var hit := HitsOf(m1, m2);
      ghost var row := Row(hit, mti2, mti1, both);
      RowStep(hit, mti2, mti1, both);
      vs', tris', mt2Collided', mt1Collided' := vs, tris, mt2Collided, mt1Collided;
      if !mt1Collided {
        /* the colliding triangle of the first model */
        vs', tris' := Emit(m1, m2, First(mti1), vs', tris', done + row);
        mt1Collided' := true;
        assert done + row + [First(mti1)] == done + (row + [First(mti1)]);
        row := row + [First(mti1)];
      }
      if !both {
        RowSingleStable(hit, mti2 + 1, |m2.triangles|, mti1);
        assert row == Row(hit, |m2.triangles|, mti1, both);
        mt2Collided' := mt2Collided'[mti2 := true];
      } else if !mt2Collided[mti2] {
        /* the colliding triangle of the second model */
        vs', tris' := Emit(m1, m2, Second(mti2), vs', tris', done + row);
        mt2Collided' := mt2Collided'[mti2 := true];
        assert done + row + [Second(mti2)] == done + (row + [Second(mti2)]);
        row := row + [Second(mti2)];
      }
      assert both ==> row == Row(hit, mti2 + 1, mti1, both);
      emitted := done + row;
    }

    /** The clean-up loop of reduce: empty every per-vertex list. */
    method ClearLists()
      modifies this
      ensures |vertexTriangles| == old(|vertexTriangles|)
      ensures forall v :: 0 <= v < |vertexTriangles| ==> vertexTriangles[v] == {}
      ensures vertices == old(vertices) && triangles == old(triangles) && box == old(box)
    {
      var v := 0;
      while v < |vertexTriangles|
        invariant 0 <= v <= |vertexTriangles| == old(|vertexTriangles|)
        invariant vertices == old(vertices) && triangles == old(triangles) && box == old(box)
        invariant forall w :: 0 <= w < v ==> vertexTriangles[w] == {}
      {
        vertexTriangles := vertexTriangles[v := {}];
        v := v + 1;
      }
    }

    /** reduce: walk the even-numbered triangles in ascending order and
        collapse the first edge (vi1, vi2) of each live one with the
        triangle sharing it, then empty the per-vertex lists, erase the
        tombstones and rebuild the lists and cached data. trace is the
        walk's state at every position, marked the triangle list as the
        walk leaves it and pairs the number of edges
        collapsed. The triangle-count argument is
        unused by the source. */
    method Reduce(t: int) returns (ghost trace: seq<WalkPoint>, ghost marked: seq<Triangle>, ghost pairs: nat)
      requires Valid()
      modifies this
      ensures Valid()
      ensures vertices == old(vertices) && box == old(box)
      ensures IsWalk(old(triangles), old(vertexTriangles), trace) && marked == trace[old(|triangles|)].tris
      ensures |marked| == old(|triangles|) && WellIndexed(marked, |vertices|)
      ensures forall k :: 0 <= k < |marked| ==>
        marked[k].(vi1 := old(triangles[k]).vi1, vi2 := old(triangles[k]).vi2,
                   vi3 := old(triangles[k]).vi3, deleted := false) == old(triangles[k])
      ensures |triangles| == |Live(marked)| <= old(|triangles|)
      ensures forall k :: 0 <= k < |triangles| ==> triangles[k] == UpdateData(vertices, Live(marked)[k])
      ensures |triangles| + 2 * pairs == old(|triangles|)
    {
      IncidenceInRange(vertexTriangles, triangles, |vertices|);
      triangles, vertexTriangles, trace, pairs := CollapseWalk(|vertices|, triangles, vertexTriangles);
      forall k | 0 <= k < |triangles|
        ensures triangles[k].(vi1 := old(triangles[k]).vi1, vi2 := old(triangles[k]).vi2,
                              vi3 := old(triangles[k]).vi3, deleted := false) == old(triangles[k])
      {
        assert KeepsData(old(triangles[k]), triangles[k]);
      }
      marked := triangles;
      ClearLists();
      triangles := Compact(triangles);
      LiveWellIndexed(marked, |vertices|);
      LiveIsAllLive(marked);
      CreateTriangleLists();
      ghost var t1 := triangles;
      UpdateTriangleData();
      IncidenceSameIndices(vertexTriangles, t1, triangles, |vertices|);
    }
  }
}
