/** mesh.cpp: the Mesh class. A mesh owns a vertex arena, an indexed
    triangle list, the per-vertex lists of incident triangles and a
    bounding box; its methods rebuild the derived data, transform the
    vertices, extract the triangles of two meshes that collide and simplify
    the mesh by collapsing edges. */
module Meshes {
  import opened Geom
  import opened MeshCore

  class Mesh {
    var vertices: seq<Point>
    var triangles: seq<Triangle>
    var vertexTriangles: seq<set<int>>
    var box: Box

    /** Every operation keeps the indices in range, the per-vertex lists
        equal to the incidence, the cached triangle data fresh, and no
        tombstone outside of reduce. */
    ghost predicate Valid()
      reads this
    {
      WellIndexed(triangles, |vertices|) &&
      IsIncidence(vertexTriangles, triangles, |vertices|) &&
      CachesFresh(vertices, triangles) &&
      AllLive(triangles)
    }

    function Data(): MeshData
      reads this
    {
      MeshData(vertices, triangles)
    }

    /** Mesh(filename, ccw, vt) once the file has been read into the vertex
        coordinates and the 1-based face triples. */
    constructor Load(points: seq<Point>, faces: seq<(int, int, int)>, ccw: bool)
      requires forall k :: 0 <= k < |faces| ==>
        1 <= faces[k].0 <= |points| && 1 <= faces[k].1 <= |points| && 1 <= faces[k].2 <= |points|
      ensures Valid()
      ensures vertices == points && |triangles| == |faces|
      ensures forall k :: 0 <= k < |faces| ==>
        var f := FaceIndices(faces[k].0, faces[k].1, faces[k].2, ccw);
        triangles[k] == NewTriangle(points, f.0, f.1, f.2)
      ensures box == MeshBox(points)
    {
      vertices := points;
      triangles := [];
      vertexTriangles := [];
      box := Box(Origin, Origin);
      new;
      var k := 0;
      while k < |faces|
        invariant 0 <= k <= |faces| && vertices == points && |triangles| == k
        invariant forall q :: 0 <= q < k ==>
          var f := FaceIndices(faces[q].0, faces[q].1, faces[q].2, ccw);
          triangles[q] == NewTriangle(points, f.0, f.1, f.2)
      {
        var f := FaceIndices(faces[k].0, faces[k].1, faces[k].2, ccw);
        triangles := triangles + [NewTriangle(vertices, f.0, f.1, f.2)];
        k := k + 1;
      }
      CreateTriangleLists();
      CreateBoundingBox();
      ghost var made := triangles;
      UpdateTriangleData();
      assert triangles == made;
    }

    /** Mesh(m1, m2, both): the triangles of m1 that hit m2, and in "both"
        mode also the triangles of m2 that they hit. */
    constructor FromCollision(m1: Mesh, m2: Mesh, both: bool)
      requires m1.Valid() && m2.Valid()
      ensures Valid()
      ensures LaidOut(m1.Data(), m2.Data(),
        Emission(HitsOf(m1.Data(), m2.Data()), |m1.triangles|, |m2.triangles|, both), vertices, triangles)
      ensures box == MeshBox(vertices)
    {
      var vs, tris := FindCollisions(m1.Data(), m2.Data(), both);
      vertices := vs;
      triangles := tris;
      vertexTriangles := [];
      box := Box(Origin, Origin);
      new;
      LaidOutFacts(m1.Data(), m2.Data(),
        Emission(HitsOf(m1.Data(), m2.Data()), |m1.triangles|, |m2.triangles|, both), vertices, triangles);
      CreateTriangleLists();
      CreateBoundingBox();
      UpdateTriangleData();
      assert triangles == tris;
    }

    /** The copy constructor. */
    constructor Copy(original: Mesh)
      requires original.Valid()
      ensures Valid()
      ensures vertices == original.vertices && triangles == original.triangles
      ensures vertexTriangles == original.vertexTriangles && box == original.box
    {
      vertices := original.vertices;
      triangles := original.triangles;
      vertexTriangles := original.vertexTriangles;
      box := original.box;
    }

    /** createBoundingBox: the running minimum and maximum of the vertices. */
    method CreateBoundingBox()
      modifies this
      ensures box == MeshBox(vertices) && ContainsAll(box, vertices)
      ensures vertices == old(vertices) && triangles == old(triangles)
      ensures vertexTriangles == old(vertexTriangles)
    {
      var boxMin, boxMax := Splat(FltMax), Splat(-FltMax);
      var i := 0;
      while i < |vertices|
        invariant 0 <= i <= |vertices|
        invariant Box(boxMin, boxMax) == MeshBox(vertices[..i])
      {
        var v := vertices[i];
        assert vertices[..i + 1][..i] == vertices[..i];
        boxMax := Point(if v.x > boxMax.x then v.x else boxMax.x,
                        if v.y > boxMax.y then v.y else boxMax.y,
                        if v.z > boxMax.z then v.z else boxMax.z);
        boxMin := Point(if v.x < boxMin.x then v.x else boxMin.x,
                        if v.y < boxMin.y then v.y else boxMin.y,
                        if v.z < boxMin.z then v.z else boxMin.z);
        i := i + 1;
      }
      assert vertices[..i] == vertices;
      box := Box(boxMin, boxMax);
      BoundsFromContains(Splat(FltMax), Splat(-FltMax), vertices);
    }

    /** createTriangleLists: clear the lists, then insert each triangle's
        index into the lists of its three vertices. */
    method CreateTriangleLists()
      requires WellIndexed(triangles, |vertices|)
      modifies this
      ensures IsIncidence(vertexTriangles, triangles, |vertices|)
      ensures vertices == old(vertices) && triangles == old(triangles) && box == old(box)
    {
      vertexTriangles := seq(|vertices|, _ => {});
      IncidenceOfNone(|vertices|);
      var i := 0;
      while i < |triangles|
        invariant 0 <= i <= |triangles|
        invariant vertices == old(vertices) && triangles == old(triangles) && box == old(box)
        invariant IsIncidence(vertexTriangles, triangles[..i], |vertices|)
      {
        var t := triangles[i];
        ghost var before := vertexTriangles;
        vertexTriangles := vertexTriangles[t.vi1 := vertexTriangles[t.vi1] + {i}];
        vertexTriangles := vertexTriangles[t.vi2 := vertexTriangles[t.vi2] + {i}];
        vertexTriangles := vertexTriangles[t.vi3 := vertexTriangles[t.vi3] + {i}];
        assert vertexTriangles == AddToLists(before, t, i);
        IncidenceSnoc(before, triangles[..i], t, |vertices|);
        assert triangles[..i] + [t] == triangles[..i + 1];
        i := i + 1;
      }
      assert triangles[..i] == triangles;
    }

    /** updateTriangleData: recompute every triangle's cached box and plane. */
    method UpdateTriangleData()
      requires WellIndexed(triangles, |vertices|)
      modifies this
      ensures vertices == old(vertices) && vertexTriangles == old(vertexTriangles) && box == old(box)
      ensures |triangles| == old(|triangles|)
      ensures forall k :: 0 <= k < |triangles| ==> triangles[k] == UpdateData(vertices, old(triangles[k]))
      ensures SameIndices(old(triangles), triangles) && WellIndexed(triangles, |vertices|)
      ensures CachesFresh(vertices, triangles)
    {
      var i := 0;
      while i < |triangles|
        invariant 0 <= i <= |triangles| && |triangles| == old(|triangles|)
        invariant vertices == old(vertices) && vertexTriangles == old(vertexTriangles) && box == old(box)
        invariant forall k :: 0 <= k < i ==> triangles[k] == UpdateData(vertices, old(triangles[k]))
        invariant forall k :: i <= k < |triangles| ==> triangles[k] == old(triangles[k])
      {
        triangles := triangles[i := UpdateData(vertices, triangles[i])];
        i := i + 1;
      }
      forall k | 0 <= k < |triangles| ensures triangles[k] == UpdateData(vertices, triangles[k]) {
        UpdateDataIdempotent(vertices, old(triangles[k]));
      }
    }

    /** After the vertices moved, the derived data is rebuilt the same way
        by every transform. */
    method Refresh()
      requires WellIndexed(triangles, |vertices|) && AllLive(triangles)
      requires IsIncidence(vertexTriangles, triangles, |vertices|)
      modifies this
      ensures vertices == old(vertices) && vertexTriangles == old(vertexTriangles) && box == old(box)
      ensures Valid()
      ensures |triangles| == old(|triangles|)
      ensures forall k :: 0 <= k < |triangles| ==> triangles[k] == UpdateData(vertices, old(triangles[k]))
    {
      ghost var t0 := triangles;
      UpdateTriangleData();
      IncidenceSameIndices(vertexTriangles, t0, triangles, |vertices|);
    }

    /** setSize: scale so that the largest extent of the box becomes size. */
    method SetSize(size: real)
      requires Valid() && LargestExtent(box) != 0.0
      modifies this
      ensures Valid()
      ensures var s := size / LargestExtent(old(box));
        && |vertices| == old(|vertices|)
        && (forall k :: 0 <= k < |vertices| ==> vertices[k] == Scale(old(vertices[k]), s))
        && box == BoxScale(old(box), s)
        && (s > 0.0 && old(ContainsAll(box, vertices)) ==> ContainsAll(box, vertices))
      ensures LargestExtent(old(box)) > 0.0 && size > 0.0 ==> LargestExtent(box) == size
      ensures |triangles| == old(|triangles|)
      ensures forall k :: 0 <= k < |triangles| ==> triangles[k] == UpdateData(vertices, old(triangles[k]))
      ensures vertexTriangles == old(vertexTriangles)
    {
      var s := size / LargestExtent(box);
      var i := 0;
      while i < |vertices|
        invariant 0 <= i <= |vertices| == old(|vertices|)
        invariant triangles == old(triangles) && vertexTriangles == old(vertexTriangles) && box == old(box)
        invariant forall k :: 0 <= k < i ==> vertices[k] == Scale(old(vertices[k]), s)
        invariant forall k :: i <= k < |vertices| ==> vertices[k] == old(vertices[k])
      {
        vertices := vertices[i := Scale(vertices[i], s)];
        i := i + 1;
      }
      box := BoxScale(box, s);
      if s > 0.0 && old(ContainsAll(box, vertices)) {
        forall k | 0 <= k < |vertices| ensures Contains(box, vertices[k]) {
          ContainsScaled(old(box), old(vertices[k]), s);
        }
      }
      if LargestExtent(old(box)) > 0.0 && size > 0.0 {
        ScaledLargestExtent(old(box), size);
      }
      Refresh();
    }

    /** translate: move every vertex and the box by p. */
    method Translate(p: Point)
      requires Valid()
      modifies this
      ensures Valid()
      ensures |vertices| == old(|vertices|)
      ensures forall k :: 0 <= k < |vertices| ==> vertices[k] == Add(old(vertices[k]), p)
      ensures box == BoxAdd(old(box), p)
      ensures old(ContainsAll(box, vertices)) ==> ContainsAll(box, vertices)
      ensures |triangles| == old(|triangles|)
      ensures forall k :: 0 <= k < |triangles| ==> triangles[k] == UpdateData(vertices, old(triangles[k]))
      ensures vertexTriangles == old(vertexTriangles)
    {
      var i := 0;
      while i < |vertices|
        invariant 0 <= i <= |vertices| == old(|vertices|)
        invariant triangles == old(triangles) && vertexTriangles == old(vertexTriangles) && box == old(box)
        invariant forall k :: 0 <= k < i ==> vertices[k] == Add(old(vertices[k]), p)
        invariant forall k :: i <= k < |vertices| ==> vertices[k] == old(vertices[k])
      {
        vertices := vertices[i := Add(vertices[i], p)];
        i := i + 1;
      }
      box := BoxAdd(box, p);
      if old(ContainsAll(box, vertices)) {
        forall k | 0 <= k < |vertices| ensures Contains(box, vertices[k]) {
          ContainsMoved(old(box), old(vertices[k]), p);
        }
      }
      Refresh();
    }

    /** alingCornerToOrigin: move the lower corner of the box to the origin. */
    method AlignCornerToOrigin()
      requires Valid()
      modifies this
      ensures Valid()
      ensures |vertices| == old(|vertices|)
      ensures forall k :: 0 <= k < |vertices| ==> vertices[k] == Sub(old(vertices[k]), old(box).min)
      ensures box == BoxSub(old(box), old(box).min) && box.min == Origin
      ensures XSize(box) == XSize(old(box)) && YSize(box) == YSize(old(box)) && ZSize(box) == ZSize(old(box))
      ensures old(ContainsAll(box, vertices)) ==> ContainsAll(box, vertices)
      ensures |triangles| == old(|triangles|)
      ensures forall k :: 0 <= k < |triangles| ==> triangles[k] == UpdateData(vertices, old(triangles[k]))
      ensures vertexTriangles == old(vertexTriangles)
    {
      var i := 0;
      while i < |vertices|
        invariant 0 <= i <= |vertices| == old(|vertices|)
        invariant triangles == old(triangles) && vertexTriangles == old(vertexTriangles) && box == old(box)
        invariant forall k :: 0 <= k < i ==> vertices[k] == Sub(old(vertices[k]), box.min)
        invariant forall k :: i <= k < |vertices| ==> vertices[k] == old(vertices[k])
      {
        vertices := vertices[i := Sub(vertices[i], box.min)];
        i := i + 1;
      }
      box := BoxSub(box, box.min);
      BoxAddSub(old(box), old(box).min);
      if old(ContainsAll(box, vertices)) {
        forall k | 0 <= k < |vertices| ensures Contains(box, vertices[k]) {
          ContainsMoved(old(box), old(vertices[k]), old(box).min);
        }
      }
      Refresh();
    }

    /** alingCenterToOrigin: move the centre of the box to the origin. */
    method AlignCenterToOrigin()
      requires Valid()
      modifies this
      ensures Valid()
      ensures |vertices| == old(|vertices|)
      ensures forall k :: 0 <= k < |vertices| ==> vertices[k] == Sub(old(vertices[k]), Center(old(box)))
      ensures box == BoxSub(old(box), Center(old(box)))
      ensures box.min.x + box.max.x == 0.0 && box.min.y + box.max.y == 0.0 && box.min.z + box.max.z == 0.0
      ensures XSize(box) == XSize(old(box)) && YSize(box) == YSize(old(box)) && ZSize(box) == ZSize(old(box))
      ensures old(ContainsAll(box, vertices)) ==> ContainsAll(box, vertices)
      ensures |triangles| == old(|triangles|)
      ensures forall k :: 0 <= k < |triangles| ==> triangles[k] == UpdateData(vertices, old(triangles[k]))
      ensures vertexTriangles == old(vertexTriangles)
    {
      var c2 := Sub(box.max, box.min);
      c2 := Scale(c2, 0.5);
      var c1 := Add(box.min, c2);
      assert c1 == Center(box);
      var i := 0;
      while i < |vertices|
        invariant 0 <= i <= |vertices| == old(|vertices|)
        invariant triangles == old(triangles) && vertexTriangles == old(vertexTriangles) && box == old(box)
        invariant forall k :: 0 <= k < i ==> vertices[k] == Sub(old(vertices[k]), c1)
        invariant forall k :: i <= k < |vertices| ==> vertices[k] == old(vertices[k])
      {
        vertices := vertices[i := Sub(vertices[i], c1)];
        i := i + 1;
      }
      box := BoxSub(box, c1);
      CenteredBoxIsSymmetric(old(box));
      BoxAddSub(old(box), c1);
      if old(ContainsAll(box, vertices)) {
        forall k | 0 <= k < |vertices| ensures Contains(box, vertices[k]) {
          ContainsMoved(old(box), old(vertices[k]), c1);
        }
      }
      Refresh();
    }

    /** findCollisions: for each triangle of m1 that hits a triangle of m2,
        copy it out; in "both" mode also copy each hit triangle of m2 the
        first time it is hit. Without "both" the collided flags of m2 are
        never allocated. */
    static method FindCollisions(m1: MeshData, m2: MeshData, both: bool)
        returns (vs: seq<Point>, tris: seq<Triangle>)
      requires WellFormed(m1) && WellFormed(m2)
      ensures var e := Emission(HitsOf(m1, m2), |m1.triangles|, |m2.triangles|, both);
        LaidOut(m1, m2, e, vs, tris)
    {
      ghost var hit := HitsOf(m1, m2);
      var mt2Collided: seq<bool> := if both then seq(|m2.triangles|, _ => false) else [];
      vs, tris := [], [];
      var mti1 := 0;
      while mti1 < |m1.triangles|
        invariant 0 <= mti1 <= |m1.triangles|
        invariant LaidOut(m1, m2, EmissionUpTo(hit, |m2.triangles|, mti1, both), vs, tris)
        invariant |mt2Collided| == if both then |m2.triangles| else 0
        invariant both ==> forall j :: 0 <= j < |m2.triangles| ==>
          (mt2Collided[j] <==> exists i' :: 0 <= i' < mti1 && hit(i', j))
      {
        vs, tris, mt2Collided := CollideRow(m1, m2, both, mti1, vs, tris, mt2Collided);
        mti1 := mti1 + 1;
      }
    }

    /** The inner loop of findCollisions for triangle mti1 of m1. Without
        "both" it stops at the first hit, so the guard that reads the
        collided flags never reaches the unallocated array. */
    static method CollideRow(m1: MeshData, m2: MeshData, both: bool, mti1: int,
                             vs: seq<Point>, tris: seq<Triangle>, mt2Collided: seq<bool>)
        returns (vs': seq<Point>, tris': seq<Triangle>, mt2Collided': seq<bool>)
      requires WellFormed(m1) && WellFormed(m2) && 0 <= mti1 < |m1.triangles|
      requires LaidOut(m1, m2, EmissionUpTo(HitsOf(m1, m2), |m2.triangles|, mti1, both), vs, tris)
      requires |mt2Collided| == if both then |m2.triangles| else 0
      requires both ==> forall j :: 0 <= j < |m2.triangles| ==>
        (mt2Collided[j] <==> exists i' :: 0 <= i' < mti1 && HitsOf(m1, m2)(i', j))
      ensures LaidOut(m1, m2, EmissionUpTo(HitsOf(m1, m2), |m2.triangles|, mti1 + 1, both), vs', tris')
      ensures |mt2Collided'| == if both then |m2.triangles| else 0
      ensures both ==> forall j :: 0 <= j < |m2.triangles| ==>
        (mt2Collided'[j] <==> exists i' :: 0 <= i' < mti1 + 1 && HitsOf(m1, m2)(i', j))
    {
      ghost var hit := HitsOf(m1, m2);
      ghost var n2 := |m2.triangles|;
      ghost var done := EmissionUpTo(hit, n2, mti1, both);
      ghost var emitted := done;
      vs', tris', mt2Collided' := vs, tris, mt2Collided;
      var mt1Collided := false;
      var mti2 := 0;
      assert done + Row(hit, 0, mti1, both) == done;
      while mti2 < |m2.triangles|
        invariant RowScan(m1, m2, both, mti1, mti2, done, emitted, vs', tris', mt2Collided', mt1Collided)
      {
        var stop;
        vs', tris', mt2Collided', mt1Collided, stop, emitted :=
          CollideStep(m1, m2, both, mti1, mti2, vs', tris', mt2Collided', mt1Collided, done, emitted);
        if stop {
          break;
        }
        mti2 := mti2 + 1;
      }
      if both {
        FlagsNextRow(hit, mt2Collided', mti1);
      }
      assert emitted == done + Row(hit, n2, mti1, both) == EmissionUpTo(hit, n2, mti1 + 1, both);
    }

    /** The state of the inner loop of findCollisions for row i after m
        triangles of the second mesh: the emission so far and its buffers,
        whether the row has hit, and which second triangles were emitted. */
    static ghost predicate RowScan(m1: MeshData, m2: MeshData, both: bool, i: int, m: int,
                                   done: seq<Source>, emitted: seq<Source>, vs: seq<Point>,
                                   tris: seq<Triangle>, mt2Collided: seq<bool>, mt1Collided: bool)
    {
      WellFormed(m1) && WellFormed(m2) && 0 <= i < |m1.triangles| && 0 <= m <= |m2.triangles| &&
      emitted == done + Row(HitsOf(m1, m2), m, i, both) && LaidOut(m1, m2, emitted, vs, tris) &&
      (mt1Collided <==> RowHits(HitsOf(m1, m2), m, i)) && (!both ==> !mt1Collided) &&
      |mt2Collided| == (if both then |m2.triangles| else 0) &&
      (both ==> forall j :: 0 <= j < |m2.triangles| ==>
         (mt2Collided[j] <==> (exists i' :: 0 <= i' < i && HitsOf(m1, m2)(i', j)) || (j < m && HitsOf(m1, m2)(i, j))))
    }

    /** One iteration of the inner loop: skip an already collided pair or a
        miss, otherwise handle the hit; stop reports the single-mode break. */
    static method CollideStep(m1: MeshData, m2: MeshData, both: bool, mti1: int, mti2: int,
                              vs: seq<Point>, tris: seq<Triangle>, mt2Collided: seq<bool>, mt1Collided: bool,
                              ghost done: seq<Source>, ghost emitted: seq<Source>)
        returns (vs': seq<Point>, tris': seq<Triangle>, mt2Collided': seq<bool>, mt1Collided': bool,
                 stop: bool, ghost emitted': seq<Source>)
      requires RowScan(m1, m2, both, mti1, mti2, done, emitted, vs, tris, mt2Collided, mt1Collided)
      requires mti2 < |m2.triangles|
      ensures !stop ==> RowScan(m1, m2, both, mti1, mti2 + 1, done, emitted', vs', tris', mt2Collided', mt1Collided')
      ensures stop ==> (!both && mt2Collided' == mt2Collided &&
        emitted' == done + Row(HitsOf(m1, m2), |m2.triangles|, mti1, both) && LaidOut(m1, m2, emitted', vs', tris'))
    {
      ghost var hit := HitsOf(m1, m2);
      vs', tris', mt2Collided', mt1Collided', stop, emitted' := vs, tris, mt2Collided, mt1Collided, false, emitted;
      if mt1Collided && mt2Collided[mti2] {
        RowSkip(hit, mti2, mti1, both);
        assert emitted == done + Row(hit, mti2 + 1, mti1, both);
        return;
      }
      var collide := TrianglesIntersect(m1, m2, mti1, mti2);
      if !collide {
        RowSkip(hit, mti2, mti1, both);
        assert emitted == done + Row(hit, mti2 + 1, mti1, both);
        return;
      }
      vs', tris', mt2Collided', mt1Collided', emitted' :=
        CollideHit(m1, m2, both, mti1, mti2, vs, tris, mt2Collided, mt1Collided, done);
      stop := !both;
      if both {
        RowStep(hit, mti2, mti1, both);
      }
    }

    /** The body of the inner loop of findCollisions once triangles mti1 and
        mti2 are known to intersect: emit the first mesh's triangle on the
        row's first hit and, in "both" mode, the second mesh's triangle on
        its first hit. Without "both" the row is then complete. */
    static method CollideHit(m1: MeshData, m2: MeshData, both: bool, mti1: int, mti2: int,
                             vs: seq<Point>, tris: seq<Triangle>, mt2Collided: seq<bool>, mt1Collided: bool,
                             ghost done: seq<Source>)
        returns (vs': seq<Point>, tris': seq<Triangle>, mt2Collided': seq<bool>, mt1Collided': bool,
                 ghost emitted: seq<Source>)
      requires WellFormed(m1) && WellFormed(m2) && 0 <= mti1 < |m1.triangles| && 0 <= mti2 < |m2.triangles|
      requires HitsOf(m1, m2)(mti1, mti2)
      requires LaidOut(m1, m2, done + Row(HitsOf(m1, m2), mti2, mti1, both), vs, tris)
      requires mt1Collided <==> RowHits(HitsOf(m1, m2), mti2, mti1)
      requires !both ==> !mt1Collided
      requires |mt2Collided| == if both then |m2.triangles| else 0
      requires both ==> (mt2Collided[mti2] <==> exists i' :: 0 <= i' < mti1 && HitsOf(m1, m2)(i', mti2))
      requires both ==> !(mt1Collided && mt2Collided[mti2])
      ensures mt1Collided'
      ensures LaidOut(m1, m2, emitted, vs', tris')
      ensures !both ==> emitted == done + Row(HitsOf(m1, m2), |m2.triangles|, mti1, both)
      ensures both ==> emitted == done + Row(HitsOf(m1, m2), mti2 + 1, mti1, both)
      ensures both ==> mt2Collided' == mt2Collided[mti2 := true]
      ensures !both ==> mt2Collided' == mt2Collided
    {
      ghost var hit := HitsOf(m1, m2);
      ghost var row := Row(hit, mti2, mti1, both);
      RowStep(hit, mti2, mti1, both);
      vs', tris', mt2Collided', mt1Collided' := vs, tris, mt2Collided, mt1Collided;
      if !mt1Collided {
        /* the colliding triangle of the first mesh */
        vs', tris' := Emit(m1, m2, First(mti1), vs', tris', done + row);
        mt1Collided' := true;
        assert done + row + [First(mti1)] == done + (row + [First(mti1)]);
        row := row + [First(mti1)];
      }
      if !both {
        RowSingleStable(hit, mti2 + 1, |m2.triangles|, mti1);
        assert row == Row(hit, |m2.triangles|, mti1, both);
      } else if !mt2Collided[mti2] {
        /* the colliding triangle of the second mesh */
        vs', tris' := Emit(m1, m2, Second(mti2), vs', tris', done + row);
        mt2Collided' := mt2Collided'[mti2 := true];
        assert done + row + [Second(mti2)] == done + (row + [Second(mti2)]);
        row := row + [Second(mti2)];
      }
      assert both ==> row == Row(hit, mti2 + 1, mti1, both);
      emitted := done + row;
    }

    /** reduce: walk the even-numbered triangles in ascending order and
        collapse the first edge (vi1, vi2) of each live one with the
        triangle sharing it, then erase the tombstones and rebuild the
        lists and cached data. marked is the triangle list as the walk leaves
        it, trace the walk's state at every position, and pairs the number of edges
        collapsed. The level-of-detail argument is unused by the source. */
    method Reduce(lod: int) returns (ghost trace: seq<WalkPoint>, ghost marked: seq<Triangle>, ghost pairs: nat)
      requires Valid() && |triangles| <= 65536
      modifies this
      ensures Valid()
      ensures vertices == old(vertices) && box == old(box)
      ensures IsWalk(old(triangles), old(vertexTriangles), trace) && marked == trace[old(|triangles|)].tris
      ensures |marked| == old(|triangles|) && WellIndexed(marked, |vertices|)
      ensures forall k :: 0 <= k < |marked| ==>
        marked[k].(vi1 := old(triangles[k]).vi1, vi2 := old(triangles[k]).vi2,
                   vi3 := old(triangles[k]).vi3, deleted := false) == old(triangles[k])
      ensures |triangles| == |Live(marked)| <= old(|triangles|)
      ensures forall k :: 0 <= k < |triangles| ==> triangles[k] == UpdateData(vertices, Live(marked)[k])
      ensures |triangles| + 2 * pairs == old(|triangles|)
    {
      IncidenceInRange(vertexTriangles, triangles, |vertices|);
      triangles, vertexTriangles, trace, pairs := CollapseWalk(|vertices|, triangles, vertexTriangles);
      forall k | 0 <= k < |triangles|
        ensures triangles[k].(vi1 := old(triangles[k]).vi1, vi2 := old(triangles[k]).vi2,
                              vi3 := old(triangles[k]).vi3, deleted := false) == old(triangles[k])
      {
        assert KeepsData(old(triangles[k]), triangles[k]);
      }
      marked := triangles;
      triangles := Compact(triangles);
      LiveWellIndexed(marked, |vertices|);
      LiveIsAllLive(marked);
      CreateTriangleLists();
      ghost var t1 := triangles;
      UpdateTriangleData();
      IncidenceSameIndices(vertexTriangles, t1, triangles, |vertices|);
    }
  }
}
