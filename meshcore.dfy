/** Definitions shared by the two mesh classes (mesh.cpp's Mesh and
    model.cpp's older Model): the vertex/triangle adjacency, the filter of
    live (not tombstoned) triangles, the running bounding box, the layout of
    the mesh built from a collision, and the helpers of edge-collapse
    simplification. */
module MeshCore {
  import opened Geom

  datatype Option<T> = None | Some(value: T)

  /** The vertex arena and triangle list of one mesh, as values. */
  datatype MeshData = MeshData(vertices: seq<Point>, triangles: seq<Triangle>)

  predicate WellIndexed(tris: seq<Triangle>, n: int) {
    forall k :: 0 <= k < |tris| ==> IndexedIn(tris[k], n)
  }

  predicate WellFormed(m: MeshData) { WellIndexed(m.triangles, |m.vertices|) }

  predicate HasVertex(t: Triangle, v: int) { t.vi1 == v || t.vi2 == v || t.vi3 == v }

  /** Three different vertex indices. */
  predicate Distinct(t: Triangle) { t.vi1 != t.vi2 && t.vi2 != t.vi3 && t.vi1 != t.vi3 }

  // ---------------------------------------------------------------------
  // Adjacency: mVertexTriangles[v] is the set of triangle indices using v.

  /** adj lists, for each of the n vertices, exactly the triangles of tris
      that use it. */
  ghost predicate IsIncidence(adj: seq<set<int>>, tris: seq<Triangle>, n: int) {
    |adj| == n && forall v :: 0 <= v < n ==> adj[v] == TrianglesOf(tris, v)
  }

  /** The indices of the triangles that use vertex v. */
  ghost function TrianglesOf(tris: seq<Triangle>, v: int): set<int> {
    set i | 0 <= i < |tris| && HasVertex(tris[i], v)
  }

  /** Every adjacency entry is a valid triangle index. */
  ghost predicate AdjInRange(adj: seq<set<int>>, n: int) {
    forall v, e :: 0 <= v < |adj| && e in adj[v] ==> 0 <= e < n
  }

  lemma IncidenceInRange(adj: seq<set<int>>, tris: seq<Triangle>, n: int)
    requires IsIncidence(adj, tris, n)
    ensures AdjInRange(adj, |tris|)
  {
    forall v, e | 0 <= v < |adj| && e in adj[v] ensures 0 <= e < |tris| {
      assert e in TrianglesOf(tris, v);
    }
  }

  /** createTriangleLists' three inserts of triangle number k. */
  function AddToLists(adj: seq<set<int>>, t: Triangle, k: int): (r: seq<set<int>>)
    requires IndexedIn(t, |adj|)
    ensures |r| == |adj|
    ensures forall v :: 0 <= v < |adj| ==> r[v] == if HasVertex(t, v) then adj[v] + {k} else adj[v]
  {
    var adj1 := adj[t.vi1 := adj[t.vi1] + {k}];
    var adj2 := adj1[t.vi2 := adj1[t.vi2] + {k}];
    adj2[t.vi3 := adj2[t.vi3] + {k}]
  }

  /** Empty lists are the incidence of no triangles. */
  lemma IncidenceOfNone(n: nat)
    ensures IsIncidence(seq(n, _ => {}), [], n)
  {
    forall v | 0 <= v < n ensures seq(n, _ => {})[v] == TrianglesOf([], v) {
      assert forall i :: i !in TrianglesOf([], v);
      assert (forall m :: m !in TrianglesOf([], v)) ==> TrianglesOf([], v) == {};
    }
  }

  /** Inserting the index of one more triangle keeps the incidence. */
  lemma IncidenceSnoc(adj: seq<set<int>>, tris: seq<Triangle>, t: Triangle, n: int)
    requires IsIncidence(adj, tris, n) && IndexedIn(t, n)
    ensures IsIncidence(AddToLists(adj, t, |tris|), tris + [t], n)
  {
    var r := AddToLists(adj, t, |tris|);
    forall v | 0 <= v < n ensures r[v] == TrianglesOf(tris + [t], v) {
      forall i ensures i in r[v] <==> i in TrianglesOf(tris + [t], v) {
        if 0 <= i < |tris| { assert (tris + [t])[i] == tris[i]; }
      }
    }
  }

  /** Triangles with the same indices have the same incidence. */
  lemma IncidenceSameIndices(adj: seq<set<int>>, t1: seq<Triangle>, t2: seq<Triangle>, n: int)
    requires IsIncidence(adj, t1, n) && SameIndices(t1, t2)
    ensures IsIncidence(adj, t2, n)
  {
    forall v | 0 <= v < n ensures TrianglesOf(t1, v) == TrianglesOf(t2, v) {
      forall i ensures i in TrianglesOf(t1, v) <==> i in TrianglesOf(t2, v) {
        if 0 <= i < |t1| { assert HasVertex(t1[i], v) == HasVertex(t2[i], v); }
      }
    }
  }

  /** Two triangle lists agree on vertex indices and tombstones. */
  ghost predicate SameIndices(t1: seq<Triangle>, t2: seq<Triangle>) {
    |t1| == |t2| &&
    forall k :: 0 <= k < |t1| ==>
      t1[k].vi1 == t2[k].vi1 && t1[k].vi2 == t2[k].vi2 && t1[k].vi3 == t2[k].vi3 && t1[k].deleted == t2[k].deleted
  }

  // ---------------------------------------------------------------------
  // Tombstones

  /** The live triangles, in their original order. */
  function Live(tris: seq<Triangle>): (r: seq<Triangle>)
    ensures |r| <= |tris|
    ensures forall t :: t in r ==> t in tris && !t.deleted
  {
    if tris == [] then []
    else Live(tris[..|tris| - 1]) + (if tris[|tris| - 1].deleted then [] else [tris[|tris| - 1]])
  }

  predicate AllLive(tris: seq<Triangle>) { forall k :: 0 <= k < |tris| ==> !tris[k].deleted }

  lemma {:induction false} LiveAppend(a: seq<Triangle>, b: seq<Triangle>)
    ensures Live(a + b) == Live(a) + Live(b)
    decreases |b|
  {
    if b == [] {
      assert a + b == a;
    } else {
      var b' := b[..|b| - 1];
      assert (a + b)[..|a + b| - 1] == a + b';
      LiveAppend(a, b');
    }
  }

  /** A run of tombstoned triangles contributes nothing. */
  lemma {:induction false} LiveAllDeleted(tris: seq<Triangle>)
    requires forall k :: 0 <= k < |tris| ==> tris[k].deleted
    ensures Live(tris) == []
  {
    if tris != [] {
      LiveAllDeleted(tris[..|tris| - 1]);
    }
  }

  /** Without tombstones the filter changes nothing. */
  lemma {:induction false} LiveOfAllLive(tris: seq<Triangle>)
    requires AllLive(tris)
    ensures Live(tris) == tris
  {
    if tris != [] {
      var p := tris[..|tris| - 1];
      assert AllLive(p) by {
        forall k | 0 <= k < |p| ensures !p[k].deleted { assert p[k] == tris[k]; }
      }
      LiveOfAllLive(p);
      assert p + [tris[|tris| - 1]] == tris;
    }
  }

  /** Lists numbering the live triangles by rank number all of them when
      there is no tombstone. */
  lemma IncidenceOfAllLive(adj: seq<set<int>>, tris: seq<Triangle>, n: int)
    requires IsIncidence(adj, Live(tris), n)
    ensures AllLive(tris) ==> IsIncidence(adj, tris, n)
  {
    if AllLive(tris) {
      LiveOfAllLive(tris);
    }
  }

  lemma LiveIsAllLive(tris: seq<Triangle>)
    ensures AllLive(Live(tris))
  {
    forall k | 0 <= k < |Live(tris)| ensures !Live(tris)[k].deleted {
      assert Live(tris)[k] in Live(tris);
    }
  }

  lemma LiveWellIndexed(tris: seq<Triangle>, n: int)
    requires WellIndexed(tris, n)
    ensures WellIndexed(Live(tris), n)
  {
    forall k | 0 <= k < |Live(tris)| ensures IndexedIn(Live(tris)[k], n) {
      assert Live(tris)[k] in Live(tris);
    }
  }

  /** Two triangle lists with the same tombstones have as many live triangles. */
  lemma {:induction false} LiveCountSameFlags(a: seq<Triangle>, b: seq<Triangle>)
    requires |a| == |b| && forall k :: 0 <= k < |a| ==> a[k].deleted == b[k].deleted
    ensures |Live(a)| == |Live(b)|
    decreases |a|
  {
    if a != [] {
      LiveCountSameFlags(a[..|a| - 1], b[..|b| - 1]);
    }
  }

  /** Tombstoning one live triangle removes exactly one live triangle. */
  lemma LiveCountDelete(tris: seq<Triangle>, i: int)
    requires 0 <= i < |tris| && !tris[i].deleted
    ensures |Live(tris[i := tris[i].(deleted := true)])| == |Live(tris)| - 1
  {
    var d := tris[i := tris[i].(deleted := true)];
    assert tris == tris[..i] + [tris[i]] + tris[i + 1..];
    assert d == tris[..i] + [d[i]] + tris[i + 1..];
    LiveAppend(tris[..i] + [tris[i]], tris[i + 1..]);
    LiveAppend(tris[..i], [tris[i]]);
    LiveAppend(tris[..i] + [d[i]], tris[i + 1..]);
    LiveAppend(tris[..i], [d[i]]);
    assert [tris[i]][..0] == [] && [d[i]][..0] == [];
  }

  /** Tombstoning two live triangles removes exactly two live triangles. */
  lemma LiveCountDeletePair(tris: seq<Triangle>, ti: int, tx: int, r: seq<Triangle>)
    requires 0 <= ti < |tris| && 0 <= tx < |tris| && ti != tx
    requires !tris[ti].deleted && !tris[tx].deleted
    requires |r| == |tris| && forall k :: 0 <= k < |tris| ==> r[k].deleted == (k == ti || k == tx || tris[k].deleted)
    ensures |Live(r)| == |Live(tris)| - 2
  {
    var t1 := tris[ti := tris[ti].(deleted := true)];
    LiveCountDelete(tris, ti);
    var t2 := t1[tx := t1[tx].(deleted := true)];
    LiveCountDelete(t1, tx);
    forall k | 0 <= k < |t2| ensures t2[k].deleted == r[k].deleted {
      if k != ti && k != tx {
        assert t2[k] == tris[k];
      }
    }
    LiveCountSameFlags(t2, r);
  }

  /** Adding one triangle at the end of a prefix. */
  lemma LiveSnoc(tris: seq<Triangle>, p: int)
    requires 0 <= p < |tris|
    ensures Live(tris[..p + 1]) == Live(tris[..p]) + (if tris[p].deleted then [] else [tris[p]])
  {
    assert tris[..p + 1][..p] == tris[..p];
  }

  // ---------------------------------------------------------------------
  // Cached triangle data

  /** Every triangle's cached box and plane agree with the vertex coordinates. */
  ghost predicate CachesFresh(vs: seq<Point>, tris: seq<Triangle>)
    requires WellIndexed(tris, |vs|)
  {
    forall k :: 0 <= k < |tris| ==> tris[k] == UpdateData(vs, tris[k])
  }

  /** Every box of the set contains every vertex. */
  ghost predicate ContainsAll(b: Box, vs: seq<Point>) {
    forall k :: 0 <= k < |vs| ==> Contains(b, vs[k])
  }

  // ---------------------------------------------------------------------
  // Bounding box (createBoundingBox)

  function Splat(c: real): Point { Point(c, c, c) }

  /** The running minimum and maximum of createBoundingBox, starting from
      the corners lo and hi, with the source's ternaries. */
  function BoundsFrom(lo: Point, hi: Point, vs: seq<Point>): Box {
    if vs == [] then Box(lo, hi)
    else
      var b := BoundsFrom(lo, hi, vs[..|vs| - 1]);
      var v := vs[|vs| - 1];
      Box(Point(if v.x < b.min.x then v.x else b.min.x,
                if v.y < b.min.y then v.y else b.min.y,
                if v.z < b.min.z then v.z else b.min.z),
          Point(if v.x > b.max.x then v.x else b.max.x,
                if v.y > b.max.y then v.y else b.max.y,
                if v.z > b.max.z then v.z else b.max.z))
  }

  /** The source seeds the maximum with FLT_MIN, the smallest positive float. */
  function MeshBoxAsWritten(vs: seq<Point>): Box { BoundsFrom(Splat(FltMax), Splat(FltMin), vs) }

  /** The intended seed is the lowest float, -FLT_MAX. */
  function MeshBox(vs: seq<Point>): Box { BoundsFrom(Splat(FltMax), Splat(-FltMax), vs) }

  /** The running box contains every point and the seed corners. */
  lemma {:induction false} BoundsFromContains(lo: Point, hi: Point, vs: seq<Point>)
    ensures ContainsAll(BoundsFrom(lo, hi, vs), vs)
    ensures var b := BoundsFrom(lo, hi, vs);
      b.min.x <= lo.x && b.min.y <= lo.y && b.min.z <= lo.z &&
      b.max.x >= hi.x && b.max.y >= hi.y && b.max.z >= hi.z
  {
    if vs != [] {
      BoundsFromContains(lo, hi, vs[..|vs| - 1]);
    }
  }

  function Coord(p: Point, axis: int): real {
    if axis == 0 then p.x else if axis == 1 then p.y else p.z
  }

  /** Along each axis, each corner is a seed coordinate or a point's coordinate. */
  lemma {:induction false} BoundsFromAttained(lo: Point, hi: Point, vs: seq<Point>, axis: int)
    requires 0 <= axis < 3
    ensures var b := BoundsFrom(lo, hi, vs);
      && (Coord(b.min, axis) == Coord(lo, axis) || exists k :: 0 <= k < |vs| && Coord(b.min, axis) == Coord(vs[k], axis))
      && (Coord(b.max, axis) == Coord(hi, axis) || exists k :: 0 <= k < |vs| && Coord(b.max, axis) == Coord(vs[k], axis))
  {
    if vs != [] {
      var n := |vs| - 1;
      var vs' := vs[..n];
      BoundsFromAttained(lo, hi, vs', axis);
      var b', b := BoundsFrom(lo, hi, vs'), BoundsFrom(lo, hi, vs);
      var c := Coord(vs[n], axis);
      assert Coord(b.min, axis) == if c < Coord(b'.min, axis) then c else Coord(b'.min, axis);
      assert Coord(b.max, axis) == if c > Coord(b'.max, axis) then c else Coord(b'.max, axis);
      if Coord(b.min, axis) != Coord(lo, axis) && c >= Coord(b'.min, axis) {
        var k :| 0 <= k < |vs'| && Coord(b'.min, axis) == Coord(vs'[k], axis);
        assert vs'[k] == vs[k];
      }
      if Coord(b.max, axis) != Coord(hi, axis) && c <= Coord(b'.max, axis) {
        var k :| 0 <= k < |vs'| && Coord(b'.max, axis) == Coord(vs'[k], axis);
        assert vs'[k] == vs[k];
      }
    }
  }

  predicate InFloatRange(p: Point) {
    -FltMax <= p.x <= FltMax && -FltMax <= p.y <= FltMax && -FltMax <= p.z <= FltMax
  }

  /** With the intended seeds, a non-empty set of float points gets its
      tight bounding box: it contains every point and each of its six
      coordinates is attained by some point. */
  lemma MeshBoxTight(vs: seq<Point>)
    requires |vs| > 0 && forall k :: 0 <= k < |vs| ==> InFloatRange(vs[k])
    ensures ContainsAll(MeshBox(vs), vs)
    ensures var b := MeshBox(vs);
      && (exists k :: 0 <= k < |vs| && b.min.x == vs[k].x)
      && (exists k :: 0 <= k < |vs| && b.min.y == vs[k].y)
      && (exists k :: 0 <= k < |vs| && b.min.z == vs[k].z)
      && (exists k :: 0 <= k < |vs| && b.max.x == vs[k].x)
      && (exists k :: 0 <= k < |vs| && b.max.y == vs[k].y)
      && (exists k :: 0 <= k < |vs| && b.max.z == vs[k].z)
  {
    BoundsFromContains(Splat(FltMax), Splat(-FltMax), vs);
    BoundsFromAttained(Splat(FltMax), Splat(-FltMax), vs, 0);
    BoundsFromAttained(Splat(FltMax), Splat(-FltMax), vs, 1);
    BoundsFromAttained(Splat(FltMax), Splat(-FltMax), vs, 2);
    var b := MeshBox(vs);
    assert Contains(b, vs[0]) && InFloatRange(vs[0]);
    if b.min.x == FltMax { assert vs[0].x == FltMax; }
    if b.min.y == FltMax { assert vs[0].y == FltMax; }
    if b.min.z == FltMax { assert vs[0].z == FltMax; }
    if b.max.x == -FltMax { assert vs[0].x == -FltMax; }
    if b.max.y == -FltMax { assert vs[0].y == -FltMax; }
    if b.max.z == -FltMax { assert vs[0].z == -FltMax; }
  }

  /** As written, a mesh whose points all have negative coordinates gets a
      box whose upper corner is (FLT_MIN, FLT_MIN, FLT_MIN), above every point. */
  lemma MeshBoxAsWrittenNotTight()
    ensures var p := Point(-1.0, -1.0, -1.0);
      MeshBoxAsWritten([p]) == Box(p, Splat(FltMin)) && MeshBox([p]) == Box(p, p)
  {
    var p := Point(-1.0, -1.0, -1.0);
    assert [p][..0] == [];
    assert BoundsFrom(Splat(FltMax), Splat(FltMin), []) == Box(Splat(FltMax), Splat(FltMin));
    assert BoundsFrom(Splat(FltMax), Splat(-FltMax), []) == Box(Splat(FltMax), Splat(-FltMax));
  }

  // ---------------------------------------------------------------------
  // Faces read from a model file

  /** The face rule of loadTrianglesFromOBJ: 1-based indices become 0-based,
      and a counter-clockwise source swaps the last two. */
  function FaceIndices(f1: int, f2: int, f3: int, ccw: bool): (int, int, int) {
    if ccw then (f1 - 1, f3 - 1, f2 - 1) else (f1 - 1, f2 - 1, f3 - 1)
  }

  /** Swapping the last two indices reverses the winding: the cached normal
      and plane equation change sign. */
  lemma SwappedWindingFlipsPlane(vs: seq<Point>, i1: int, i2: int, i3: int, r: Point)
    requires 0 <= i1 < |vs| && 0 <= i2 < |vs| && 0 <= i3 < |vs|
    ensures Normal(NewTriangle(vs, i1, i3, i2)) == Scale(Normal(NewTriangle(vs, i1, i2, i3)), -1.0)
    ensures PlaneEquation(NewTriangle(vs, i1, i3, i2), r) == -PlaneEquation(NewTriangle(vs, i1, i2, i3), r)
  {
    var t, u := NewTriangle(vs, i1, i2, i3), NewTriangle(vs, i1, i3, i2);
    PlaneSwap(t, u, vs[i1], vs[i2], vs[i3], r);
  }

  lemma PlaneSwap(t: Triangle, u: Triangle, p: Point, q: Point, s: Point, r: Point)
    requires t.A == PlaneA(p, q, s) && t.B == PlaneB(p, q, s) && t.C == PlaneC(p, q, s) && t.D == PlaneD(p, q, s)
    requires u.A == PlaneA(p, s, q) && u.B == PlaneB(p, s, q) && u.C == PlaneC(p, s, q) && u.D == PlaneD(p, s, q)
    ensures Normal(u) == Scale(Normal(t), -1.0)
    ensures PlaneEquation(u, r) == -PlaneEquation(t, r)
  {
  }

  // ---------------------------------------------------------------------
  // Collision extraction (findCollisions)

  /** Where an emitted triangle comes from: the first or the second mesh. */
  datatype Source = First(i: int) | Second(j: int)

  /** The pairwise test of findCollisions, total over indices. */
  predicate HitAt(a: MeshData, b: MeshData, i: int, j: int) {
    WellFormed(a) && WellFormed(b) && 0 <= i < |a.triangles| && 0 <= j < |b.triangles| &&
    Intersects(a.vertices, a.triangles[i], b.vertices, b.triangles[j])
  }

  /** The hit relation as a value, so that the emission order below reasons
      about it without unfolding the geometry. */
  function HitsOf(a: MeshData, b: MeshData): (int, int) -> bool {
    (i: int, j: int) => HitAt(a, b, i, j)
  }

  /** Triangle i of the first mesh hits some of the n2 triangles of the second. */
  ghost predicate RowHits(hit: (int, int) -> bool, n2: int, i: int) {
    exists j :: 0 <= j < n2 && hit(i, j)
  }

  /** Second-mesh triangle j is hit by row i and by no earlier row. */
  ghost predicate NewAt(hit: (int, int) -> bool, i: int, j: int) {
    hit(i, j) && forall i' :: 0 <= i' < i ==> !hit(i', j)
  }

  /** The second-mesh triangles below m that row i emits in "both" mode. */
  ghost function RowSeconds(hit: (int, int) -> bool, i: int, m: int): seq<Source>
    decreases m
  {
    if m <= 0 then []
    else RowSeconds(hit, i, m - 1) + (if NewAt(hit, i, m - 1) then [Second(m - 1)] else [])
  }

  /** What row i emits: nothing without a hit, else itself, followed in
      "both" mode by its newly hit second-mesh triangles. */
  ghost function Row(hit: (int, int) -> bool, n2: int, i: int, both: bool): seq<Source> {
    if RowHits(hit, n2, i) then [First(i)] + (if both then RowSeconds(hit, i, n2) else []) else []
  }

  ghost function EmissionUpTo(hit: (int, int) -> bool, n2: int, k: int, both: bool): seq<Source>
    decreases k
  {
    if k <= 0 then [] else EmissionUpTo(hit, n2, k - 1, both) + Row(hit, n2, k - 1, both)
  }

  /** The inner loop of findCollisions, one second-mesh triangle m further:
      a miss changes nothing; a hit emits the row's own triangle if it is the
      row's first hit and, in "both" mode, m if no earlier row hit it. */
  lemma RowStep(hit: (int, int) -> bool, m: int, i: int, both: bool)
    requires 0 <= m
    ensures Row(hit, m + 1, i, both) ==
      if !hit(i, m) then Row(hit, m, i, both)
      else (if RowHits(hit, m, i) then Row(hit, m, i, both) else [First(i)]) +
           (if both && NewAt(hit, i, m) then [Second(m)] else [])
  {
    if !RowHits(hit, m, i) {
      NoHitsNoSeconds(hit, i, m);
    }
    if hit(i, m) {
      assert RowHits(hit, m + 1, i);
    } else if RowHits(hit, m + 1, i) {
      var j :| 0 <= j < m + 1 && hit(i, j);
      assert RowHits(hit, m, i);
    }
  }

  /** After a full row in "both" mode, a second triangle is flagged exactly
      when some row up to and including i hit it. */
  lemma FlagsNextRow(hit: (int, int) -> bool, flags: seq<bool>, i: int)
    requires 0 <= i
    requires forall j :: 0 <= j < |flags| ==>
      (flags[j] <==> (exists i' :: 0 <= i' < i && hit(i', j)) || (j < |flags| && hit(i, j)))
    ensures forall j :: 0 <= j < |flags| ==> (flags[j] <==> exists i' :: 0 <= i' < i + 1 && hit(i', j))
  {
    forall j | 0 <= j < |flags| ensures flags[j] <==> exists i' :: 0 <= i' < i + 1 && hit(i', j) {
      if hit(i, j) {
        assert 0 <= i < i + 1 && hit(i, j);
      }
    }
  }

  /** Second-mesh triangle j is the first one that row i hits. */
  ghost predicate FirstHitAt(hit: (int, int) -> bool, i: int, j: int) {
    hit(i, j) && forall j' :: 0 <= j' < j ==> !hit(i, j')
  }

  /** model.cpp's single mode flags, for each second-mesh triangle, whether
      it was the first hit of an earlier row. A row without hits adds no
      flag. */
  lemma FirstFlagsNoHit(hit: (int, int) -> bool, flags: seq<bool>, i: int)
    requires 0 <= i && !RowHits(hit, |flags|, i)
    requires forall j :: 0 <= j < |flags| ==> (flags[j] <==> exists i' :: 0 <= i' < i && FirstHitAt(hit, i', j))
    ensures forall j :: 0 <= j < |flags| ==> (flags[j] <==> exists i' :: 0 <= i' < i + 1 && FirstHitAt(hit, i', j))
  {
    forall j | 0 <= j < |flags|
      ensures flags[j] <==> exists i' :: 0 <= i' < i + 1 && FirstHitAt(hit, i', j)
    {
      assert !hit(i, j);
    }
  }

  /** A row whose first hit is m adds exactly the flag of m. */
  lemma FirstFlagsHit(hit: (int, int) -> bool, flags: seq<bool>, flags': seq<bool>, i: int, m: int)
    requires 0 <= i && 0 <= m < |flags| && hit(i, m) && !RowHits(hit, m, i)
    requires forall j :: 0 <= j < |flags| ==> (flags[j] <==> exists i' :: 0 <= i' < i && FirstHitAt(hit, i', j))
    requires flags' == flags[m := true]
    ensures forall j :: 0 <= j < |flags'| ==> (flags'[j] <==> exists i' :: 0 <= i' < i + 1 && FirstHitAt(hit, i', j))
  {
    forall j | 0 <= j < |flags'|
      ensures flags'[j] <==> exists i' :: 0 <= i' < i + 1 && FirstHitAt(hit, i', j)
    {
      if j == m {
        assert FirstHitAt(hit, i, m);
      } else if j < m {
        assert !hit(i, j);
      } else {
        assert !FirstHitAt(hit, i, j);
      }
    }
  }

  /** Both skips of the inner loop leave the row as it was: a miss, and a
      hit on a row that already hit where the second triangle was already
      emitted by an earlier row. */
  lemma RowSkip(hit: (int, int) -> bool, m: int, i: int, both: bool)
    requires 0 <= m
    requires !hit(i, m) || (RowHits(hit, m, i) && both && exists i' :: 0 <= i' < i && hit(i', m))
    ensures Row(hit, m + 1, i, both) == Row(hit, m, i, both)
    ensures RowHits(hit, m + 1, i) == RowHits(hit, m, i)
  {
    RowStep(hit, m, i, both);
    if hit(i, m) {
      assert !NewAt(hit, i, m);
    } else if RowHits(hit, m + 1, i) {
      var j :| 0 <= j < m + 1 && hit(i, j);
      assert RowHits(hit, m, i);
    }
  }

  /** A row without hits below m has no second-mesh triangles below m. */
  lemma {:induction false} NoHitsNoSeconds(hit: (int, int) -> bool, i: int, m: int)
    requires !RowHits(hit, m, i)
    ensures RowSeconds(hit, i, m) == []
    decreases m
  {
    if m > 0 {
      assert !hit(i, m - 1);
      assert !RowHits(hit, m - 1, i);
      NoHitsNoSeconds(hit, i, m - 1);
    }
  }

  /** In single mode a row that has had a hit emits exactly its own triangle,
      however far the inner loop goes. */
  lemma RowSingleStable(hit: (int, int) -> bool, m: int, m': int, i: int)
    requires RowHits(hit, m, i) && m <= m'
    ensures Row(hit, m', i, false) == [First(i)]
  {
    var j :| 0 <= j < m && hit(i, j);
    assert RowHits(hit, m', i);
  }

  /** The sources of the emitted triangles, in emission order. */
  ghost function Emission(hit: (int, int) -> bool, n1: int, n2: int, both: bool): seq<Source> {
    EmissionUpTo(hit, n2, n1, both)
  }

  ghost predicate NoDuplicates(s: seq<Source>) {
    forall p, q :: 0 <= p < q < |s| ==> s[p] != s[q]
  }

  lemma {:induction false} RowSecondsFacts(hit: (int, int) -> bool, i: int, m: int)
    ensures forall s :: s in RowSeconds(hit, i, m) <==> s.Second? && 0 <= s.j < m && NewAt(hit, i, s.j)
    ensures NoDuplicates(RowSeconds(hit, i, m))
    decreases m
  {
    if m > 0 {
      RowSecondsFacts(hit, i, m - 1);
    }
  }

  /** The elements of the first k rows: the first-mesh triangles below k
      with a hit, and in "both" mode the second-mesh triangles first hit by
      one of them. */
  ghost predicate Emitted(hit: (int, int) -> bool, n2: int, k: int, both: bool, s: Source) {
    (s.First? && 0 <= s.i < k && RowHits(hit, n2, s.i)) ||
    (both && s.Second? && 0 <= s.j < n2 && exists i :: 0 <= i < k && NewAt(hit, i, s.j))
  }

  ghost predicate FirstsAscending(s: seq<Source>) {
    forall p, q :: 0 <= p < q < |s| && s[p].First? && s[q].First? ==> s[p].i < s[q].i
  }

  lemma NoDuplicatesAppend(e: seq<Source>, r: seq<Source>)
    requires NoDuplicates(e) && NoDuplicates(r)
    requires forall s :: s in r ==> s !in e
    ensures NoDuplicates(e + r)
  {
    forall p, q | 0 <= p < q < |e + r| ensures (e + r)[p] != (e + r)[q] {
      if q >= |e| {
        assert (e + r)[q] == r[q - |e|] && r[q - |e|] in r;
        if p < |e| {
          assert (e + r)[p] == e[p] && e[p] in e;
        } else {
          assert (e + r)[p] == r[p - |e|];
        }
      }
    }
  }

  lemma FirstsAscendingAppend(e: seq<Source>, r: seq<Source>, k: int)
    requires FirstsAscending(e) && FirstsAscending(r)
    requires forall s :: s in e && s.First? ==> s.i < k
    requires forall s :: s in r && s.First? ==> s.i == k
    ensures FirstsAscending(e + r)
  {
    forall p, q | 0 <= p < q < |e + r| && (e + r)[p].First? && (e + r)[q].First?
      ensures (e + r)[p].i < (e + r)[q].i
    {
      if q >= |e| {
        assert (e + r)[q] == r[q - |e|];
        if p < |e| {
          assert (e + r)[p] == e[p];
        } else {
          assert (e + r)[p] == r[p - |e|];
        }
      }
    }
  }

  /** One row: its own first-mesh triangle when it has a hit, then in
      "both" mode the second-mesh triangles it is the first to hit. */
  lemma RowFacts(hit: (int, int) -> bool, n2: int, i: int, both: bool)
    ensures forall s :: s in Row(hit, n2, i, both) <==>
      (s == First(i) && RowHits(hit, n2, i)) || (both && s.Second? && 0 <= s.j < n2 && NewAt(hit, i, s.j))
    ensures NoDuplicates(Row(hit, n2, i, both))
    ensures FirstsAscending(Row(hit, n2, i, both))
  {
    RowSecondsFacts(hit, i, n2);
    var r := Row(hit, n2, i, both);
    forall s: Source | both && s.Second? && 0 <= s.j < n2 && NewAt(hit, i, s.j) ensures s in r {
      assert RowHits(hit, n2, i);
      assert s in RowSeconds(hit, i, n2);
    }
    if RowHits(hit, n2, i) {
      var rest := if both then RowSeconds(hit, i, n2) else [];
      assert r == [First(i)] + rest;
      assert forall s :: s in rest ==> s.Second?;
      NoDuplicatesAppend([First(i)], rest);
    }
  }

  /** What the first k rows emit, element by element. */
  lemma {:induction false} EmissionUpToMembers(hit: (int, int) -> bool, n2: int, k: int, both: bool)
    ensures forall s :: s in EmissionUpTo(hit, n2, k, both) <==> Emitted(hit, n2, k, both, s)
    decreases k
  {
    if k > 0 {
      EmissionUpToMembers(hit, n2, k - 1, both);
      RowFacts(hit, n2, k - 1, both);
      forall s ensures s in EmissionUpTo(hit, n2, k, both) <==> Emitted(hit, n2, k, both, s) {
        if Emitted(hit, n2, k, both, s) && s.Second? && !s.First? {
          var i :| 0 <= i < k && NewAt(hit, i, s.j);
          if i < k - 1 {
            assert Emitted(hit, n2, k - 1, both, s);
          }
        }
      }
    }
  }

  lemma {:induction false} EmissionUpToOnceInOrder(hit: (int, int) -> bool, n2: int, k: int, both: bool)
    ensures NoDuplicates(EmissionUpTo(hit, n2, k, both))
    ensures FirstsAscending(EmissionUpTo(hit, n2, k, both))
    decreases k
  {
    if k > 0 {
      var e, r := EmissionUpTo(hit, n2, k - 1, both), Row(hit, n2, k - 1, both);
      EmissionUpToOnceInOrder(hit, n2, k - 1, both);
      EmissionUpToMembers(hit, n2, k - 1, both);
      RowFacts(hit, n2, k - 1, both);
      forall s | s in r ensures s !in e {
        if s.Second? {
          assert NewAt(hit, k - 1, s.j);
        }
      }
      NoDuplicatesAppend(e, r);
      FirstsAscendingAppend(e, r, k - 1);
    }
  }

  /** A second-mesh triangle hit by some row is new at the first such row. */
  lemma {:induction false} FirstHitterExists(hit: (int, int) -> bool, i: int, j: int)
    requires 0 <= i && hit(i, j)
    ensures exists i0 :: 0 <= i0 <= i && NewAt(hit, i0, j)
    decreases i
  {
    if !NewAt(hit, i, j) {
      var i' :| 0 <= i' < i && hit(i', j);
      FirstHitterExists(hit, i', j);
    }
  }

  /** Each first-mesh triangle is emitted iff it hits some second-mesh
      triangle; in "both" mode each second-mesh triangle is emitted iff some
      first-mesh triangle hits it; and otherwise nothing is emitted. */
  lemma EmissionMembers(hit: (int, int) -> bool, n1: int, n2: int, both: bool)
    ensures forall i :: First(i) in Emission(hit, n1, n2, both) <==> 0 <= i < n1 && RowHits(hit, n2, i)
    ensures forall j :: Second(j) in Emission(hit, n1, n2, both) <==>
      both && 0 <= j < n2 && exists i :: 0 <= i < n1 && hit(i, j)
  {
    EmissionUpToMembers(hit, n2, n1, both);
    forall j | both && 0 <= j < n2 && (exists i :: 0 <= i < n1 && hit(i, j))
      ensures Second(j) in Emission(hit, n1, n2, both)
    {
      var i :| 0 <= i < n1 && hit(i, j);
      FirstHitterExists(hit, i, j);
      assert Second(j).Second?;
    }
  }

  /** Nothing is emitted twice, and first-mesh triangles come in their order. */
  lemma EmissionOnceInOrder(hit: (int, int) -> bool, n1: int, n2: int, both: bool)
    ensures NoDuplicates(Emission(hit, n1, n2, both))
    ensures FirstsAscending(Emission(hit, n1, n2, both))
  {
    EmissionUpToOnceInOrder(hit, n2, n1, both);
  }

  /** Every emitted triangle collides with a triangle of the other mesh. */
  lemma EmittedTrianglesCollide(hit: (int, int) -> bool, n1: int, n2: int, both: bool, k: int)
    requires 0 <= k < |Emission(hit, n1, n2, both)|
    ensures var s := Emission(hit, n1, n2, both)[k];
      && (s.First? ==> 0 <= s.i < n1 && exists j :: 0 <= j < n2 && hit(s.i, j))
      && (s.Second? ==> both && 0 <= s.j < n2 && exists i :: 0 <= i < n1 && hit(i, s.j))
  {
    EmissionUpToMembers(hit, n2, n1, both);
    var s := Emission(hit, n1, n2, both)[k];
    assert s in Emission(hit, n1, n2, both);
  }

  predicate ValidSource(a: MeshData, b: MeshData, s: Source) {
    WellFormed(a) && WellFormed(b) &&
    (s.First? ==> 0 <= s.i < |a.triangles|) && (s.Second? ==> 0 <= s.j < |b.triangles|)
  }

  /** The three vertices copied for an emitted triangle. */
  function Corners(a: MeshData, b: MeshData, s: Source): seq<Point>
    requires ValidSource(a, b, s)
  {
    if s.First? then [V1(a.vertices, a.triangles[s.i]), V2(a.vertices, a.triangles[s.i]), V3(a.vertices, a.triangles[s.i])]
    else [V1(b.vertices, b.triangles[s.j]), V2(b.vertices, b.triangles[s.j]), V3(b.vertices, b.triangles[s.j])]
  }

  /** Slot k of the vertex buffer holds the corners of the k-th emitted
      triangle. */
  ghost predicate CopiedAt(a: MeshData, b: MeshData, e: seq<Source>, vs: seq<Point>, k: int)
    requires 0 <= k < |e| && |vs| == 3 * |e|
  {
    ValidSource(a, b, e[k]) && vs[3 * k..3 * k + 3] == Corners(a, b, e[k])
  }

  /** The vertex buffer of findCollisions for the emission e: three fresh
      vertices per emitted triangle, copied from its source in emission
      order. */
  ghost predicate Copied(a: MeshData, b: MeshData, e: seq<Source>, vs: seq<Point>) {
    |vs| == 3 * |e| && forall k :: 0 <= k < |e| ==> CopiedAt(a, b, e, vs, k)
  }

  /** Triangle k spans vertices 3k, 3k + 1 and 3k + 2, with its data
      computed from them. */
  ghost predicate TriangleAt(vs: seq<Point>, tris: seq<Triangle>, k: int)
    requires 0 <= k < |tris| && |vs| == 3 * |tris|
  {
    tris[k] == NewTriangle(vs, 3 * k, 3 * k + 1, 3 * k + 2)
  }

  /** The triangle buffer over a vertex buffer. */
  ghost predicate Triangulated(vs: seq<Point>, tris: seq<Triangle>) {
    |vs| == 3 * |tris| && forall k :: 0 <= k < |tris| ==> TriangleAt(vs, tris, k)
  }

  /** The output buffers of findCollisions for the emission e. */
  ghost predicate LaidOut(a: MeshData, b: MeshData, e: seq<Source>, vs: seq<Point>, tris: seq<Triangle>) {
    Copied(a, b, e, vs) && Triangulated(vs, tris)
  }

  /** The emitted triangles are live, index their own three copied
      vertices, and have fresh cached data. */
  lemma LaidOutFacts(a: MeshData, b: MeshData, e: seq<Source>, vs: seq<Point>, tris: seq<Triangle>)
    requires LaidOut(a, b, e, vs, tris)
    ensures |tris| == |e| && WellIndexed(tris, |vs|) && AllLive(tris) && CachesFresh(vs, tris)
    ensures forall k :: 0 <= k < |tris| ==> tris[k].vi1 == 3 * k && tris[k].vi2 == 3 * k + 1 && tris[k].vi3 == 3 * k + 2
  {
    forall k | 0 <= k < |tris|
      ensures tris[k] == NewTriangle(vs, 3 * k, 3 * k + 1, 3 * k + 2)
    {
      assert TriangleAt(vs, tris, k);
    }
  }

  /** Copying one more triangle's corners extends the vertex buffer. */
  lemma CopiedSnoc(a: MeshData, b: MeshData, e: seq<Source>, vs: seq<Point>, s: Source)
    requires Copied(a, b, e, vs) && ValidSource(a, b, s)
    ensures Copied(a, b, e + [s], vs + Corners(a, b, s))
  {
    var e', vs' := e + [s], vs + Corners(a, b, s);
    forall k | 0 <= k < |e'| ensures CopiedAt(a, b, e', vs', k) {
      if k < |e| {
        assert CopiedAt(a, b, e, vs, k);
        assert e'[k] == e[k];
        assert vs'[3 * k..3 * k + 3] == vs[3 * k..3 * k + 3];
      } else {
        assert vs'[3 * k..3 * k + 3] == Corners(a, b, s);
      }
    }
  }

  /** UpdateData reads only the three vertices it indexes. */
  lemma UpdateDataLocal(vs1: seq<Point>, vs2: seq<Point>, t: Triangle)
    requires IndexedIn(t, |vs1|) && IndexedIn(t, |vs2|)
    requires vs1[t.vi1] == vs2[t.vi1] && vs1[t.vi2] == vs2[t.vi2] && vs1[t.vi3] == vs2[t.vi3]
    ensures UpdateData(vs1, t) == UpdateData(vs2, t)
  {
  }

  /** Appending three corners adds one triangle and leaves the earlier
      triangles, which never read the new corners, as they were. */
  lemma TriangulatedSnoc(vs: seq<Point>, tris: seq<Triangle>, c: seq<Point>)
    requires Triangulated(vs, tris) && |c| == 3
    ensures Triangulated(vs + c, tris + [NewTriangle(vs + c, |vs|, |vs| + 1, |vs| + 2)])
  {
    var vs' := vs + c;
    var r := tris + [NewTriangle(vs', |vs|, |vs| + 1, |vs| + 2)];
    forall k | 0 <= k < |r| ensures TriangleAt(vs', r, k) {
      if k < |tris| {
        assert TriangleAt(vs, tris, k);
        var t := Triangle(3 * k, 3 * k + 1, 3 * k + 2, 0.0, 0.0, 0.0, 0.0, Box(Origin, Origin), false);
        UpdateDataLocal(vs, vs', t);
      }
    }
  }

  /** The intersection test of findCollisions on triangle i of m1 and triangle j of m2. */
  method TrianglesIntersect(m1: MeshData, m2: MeshData, i: int, j: int) returns (r: bool)
    requires WellFormed(m1) && WellFormed(m2) && 0 <= i < |m1.triangles| && 0 <= j < |m2.triangles|
    ensures r == HitsOf(m1, m2)(i, j)
  {
    r := Intersects(m1.vertices, m1.triangles[i], m2.vertices, m2.triangles[j]);
  }

  /** Copy the three vertices of the source triangle s and append the
      triangle (3 count, 3 count + 1, 3 count + 2) over them. */
  method Emit(m1: MeshData, m2: MeshData, s: Source, vs: seq<Point>, tris: seq<Triangle>,
                     ghost e: seq<Source>)
      returns (vs': seq<Point>, tris': seq<Triangle>)
    requires ValidSource(m1, m2, s) && LaidOut(m1, m2, e, vs, tris)
    ensures LaidOut(m1, m2, e + [s], vs', tris')
  {
    var count := |tris|;
    var mv, t := if s.First? then m1.vertices else m2.vertices,
                 if s.First? then m1.triangles[s.i] else m2.triangles[s.j];
    CopiedSnoc(m1, m2, e, vs, s);
    vs' := vs + [V1(mv, t)];
    vs' := vs' + [V2(mv, t)];
    vs' := vs' + [V3(mv, t)];
    assert vs' == vs + Corners(m1, m2, s);
    tris' := tris + [NewTriangle(vs', 3 * count, 3 * count + 1, 3 * count + 2)];
    TriangulatedSnoc(vs, tris, Corners(m1, m2, s));
  }

  // ---------------------------------------------------------------------
  // Edge-collapse simplification (reduce)

  /** The initial procList: `ti` is incremented both in the loop header and
      in the insert call, so only the even indices below n are queued. */
  method EvenIndices(n: int) returns (procList: set<int>)
    ensures forall k :: k in procList <==> 0 <= k < n && k % 2 == 0
  {
    procList := {};
    var ti := 0;
    while ti < n
      invariant 0 <= ti && ti % 2 == 0 && (ti == 0 || ti <= n + 1)
      invariant forall k :: k in procList <==> 0 <= k < ti && k % 2 == 0
    {
      procList := procList + {ti};  // procList.insert(pli, ti++)
      ti := ti + 1;
      ti := ti + 1;                 // the loop's ++ti
    }
  }

  lemma HasElement(s: set<int>)
    requires s != {}
    ensures exists m :: m in s
  {
    assert (forall m :: m !in s) ==> s == {};
  }

  lemma {:induction false} MinExists(s: set<int>)
    requires s != {}
    ensures exists m :: m in s && forall y :: y in s ==> m <= y
    decreases |s|
  {
    HasElement(s);
    var x :| x in s;
    var s' := s - {x};
    if s' == {} {
      assert s == {x};
      assert forall y :: y in s ==> x <= y;
    } else {
      MinExists(s');
      var m :| m in s' && forall y :: y in s' ==> m <= y;
      var w := if x < m then x else m;
      forall y | y in s ensures w <= y {
        if y != x { assert y in s'; }
      }
    }
  }

  /** c is the smallest triangle other than ti in both lists. */
  predicate SmallestShared(vxList: set<int>, vkList: set<int>, ti: int, c: int) {
    c in vxList && c in vkList && c != ti &&
    forall d :: d in vxList && d in vkList && d != ti ==> c <= d
  }

  /** No triangle other than ti is in both lists. */
  predicate NoneShared(vxList: set<int>, vkList: set<int>, ti: int) {
    forall c :: c in vxList && c in vkList ==> c == ti
  }

  /** The merge walk of reduce over the sorted sets of vx and vk: it finds
      the smallest triangle other than ti that is in both, or reports that
      there is none. rx and rk are what the two iterators have not passed. */
  method FindSharedTriangle(vxList: set<int>, vkList: set<int>, ti: int) returns (tx: Option<int>)
    ensures tx.Some? ==> SmallestShared(vxList, vkList, ti, tx.value)
    ensures tx.None? <==> NoneShared(vxList, vkList, ti)
  {
    var rx, rk := vxList, vkList;
    tx := None;
    while rx != {} && rk != {}
      invariant rx <= vxList && rk <= vkList && tx.None?
      invariant forall c :: c in vxList && c in vkList && c != ti ==> c in rx && c in rk
      decreases |rx| + |rk|
    {
      MinExists(rx);
      MinExists(rk);
      var x :| x in rx && forall y :: y in rx ==> x <= y;  // *vxLi
      var k :| k in rk && forall y :: y in rk ==> k <= y;  // *vkLi
      if x < k {
        rx := rx - {x};
      } else if x > k {
        rk := rk - {k};
      } else if x == ti {
        rx, rk := rx - {x}, rk - {k};
      } else {
        tx := Some(x);
        break;
      }
    }
  }

  /** The new state of steps 3 to 7 of reduce for the edge (vk, vx) =
      (vi1, vi2) of ti shared with tx: both triangles tombstoned, the live
      triangles of vx's list retargeted to vk, vx's list moved into vk's,
      and tx and vk's triangles dropped from procList. */
  ghost predicate Collapsed(tris: seq<Triangle>, adj: seq<set<int>>, ti: int, tx: int, procList: set<int>,
                            tris': seq<Triangle>, adj': seq<set<int>>, procList': set<int>)
    requires 0 <= ti < |tris| && 0 <= tx < |tris|
    requires 0 <= tris[ti].vi1 < |adj| && 0 <= tris[ti].vi2 < |adj|
  {
    var vk, vx := tris[ti].vi1, tris[ti].vi2;
    && |tris'| == |tris| && |adj'| == |adj|
    && tris'[ti] == tris[ti].(deleted := true)
    && tris'[tx] == tris[tx].(deleted := true)
    && (forall k :: 0 <= k < |tris| && k != ti && k != tx ==>
          tris'[k] == if k in adj[vx] && !tris[k].deleted then RetargetFirst(tris[k], vx, vk) else tris[k])
    && (vk != vx ==> adj'[vk] == (adj[vk] + adj[vx]) - {ti, tx})
    && adj'[vx] == {}
    && (forall v :: 0 <= v < |adj| && v != vk && v != vx ==> adj'[v] == adj[v])
    && procList' == procList - {tx} - adj'[vk]
  }

  /** Steps 3 to 7 of reduce for the edge (vk, vx) = (vi1, vi2) of ti,
      shared with tx, over a mesh with n vertices: delete both, retarget the
      live triangles of vx's list to vk, move vx's list into vk's, and drop
      tx and vk's triangles from procList. */
  method CollapseEdge(n: int, tris: seq<Triangle>, adj: seq<set<int>>, ti: int, tx: int, procList: set<int>)
      returns (tris': seq<Triangle>, adj': seq<set<int>>, procList': set<int>)
    requires |adj| == n && WellIndexed(tris, n) && AdjInRange(adj, |tris|)
    requires 0 <= ti < |tris| && 0 <= tx < |tris| && ti != tx
    requires !tris[ti].deleted && !tris[tx].deleted
    ensures Collapsed(tris, adj, ti, tx, procList, tris', adj', procList')
    ensures WellIndexed(tris', n) && AdjInRange(adj', |tris'|)
    ensures var vk, vx := tris[ti].vi1, tris[ti].vi2;
      forall k :: (0 <= k < |tris| && k in adj[vx] && !tris'[k].deleted && Distinct(tris[k]) && vk != vx) ==>
        !HasVertex(tris'[k], vx)
    ensures ti in procList ==> ti in procList'
    ensures forall k :: 0 <= k < |tris| ==> tris'[k].deleted == (k == ti || k == tx || tris[k].deleted)
    ensures forall k :: 0 <= k < |tris| ==> KeepsData(tris[k], tris'[k])
  {
    var vk, vx := tris[ti].vi1, tris[ti].vi2;
    /* 3. delete the two triangles of the edge */
    tris' := tris[ti := tris[ti].(deleted := true)];
    tris' := tris'[tx := tris'[tx].(deleted := true)];
    /* 5. retarget the live triangles of vx's list, in ascending order */
    ghost var before := tris';
    tris' := RetargetAll(tris', adj[vx], vx, vk);
    forall k | 0 <= k < |tris'|
      ensures IndexedIn(tris'[k], n) && tris'[k].deleted == before[k].deleted && KeepsData(tris[k], tris'[k])
    {
      RetargetFirstFacts(before[k], vx, vk);
    }
    forall k | 0 <= k < |tris| && k in adj[vx] && !tris'[k].deleted && Distinct(tris[k]) && vk != vx
      ensures !HasVertex(tris'[k], vx)
    {
      RetargetFirstFacts(tris[k], vx, vk);
    }
    /* 6. move vx's list into vk's */
    adj' := adj[vk := adj[vk] + adj[vx]];
    adj' := adj'[vx := {}];
    adj' := adj'[vk := adj'[vk] - {ti}];
    adj' := adj'[vk := adj'[vk] - {tx}];
    /* 7. drop the triangles of this area from procList */
    procList' := EraseAll(procList - {tx}, adj'[vk]);
  }

  /** A triangle of the walk differs from its original t0 at most in its
      vertex indices and its tombstone. */
  predicate KeepsData(t0: Triangle, t: Triangle) {
    t.(vi1 := t0.vi1, vi2 := t0.vi2, vi3 := t0.vi3, deleted := t0.deleted) == t0
  }

  /** What the walk of reduce keeps over a mesh with n vertices whose
      triangles were t0: indices and list entries in range, and the data of
      every triangle preserved. */
  ghost predicate WalkState(n: int, t0: seq<Triangle>, tris: seq<Triangle>, adj: seq<set<int>>) {
    |adj| == n && |tris| == |t0| && WellIndexed(tris, n) && AdjInRange(adj, |tris|) &&
    forall k :: 0 <= k < |tris| ==> KeepsData(t0[k], tris[k])
  }

  /** The state of reduce's walk between two positions of its iterator. */
  datatype WalkPoint = WalkPoint(tris: seq<Triangle>, adj: seq<set<int>>, procList: set<int>, tx: Option<int>)

  /** One position ti of reduce's walk takes s to s': a triangle that is
      not queued or is a tombstone is skipped; otherwise tx becomes the
      smallest other triangle sharing the edge (vi1, vi2), or stays as it
      was when there is none, and the edge is collapsed with tx when tx is
      live. */
  ghost predicate Visit(ti: int, s: WalkPoint, s': WalkPoint) {
    if !(0 <= ti < |s.tris| && ti in s.procList && !s.tris[ti].deleted) then s' == s
    else
      var vk, vx := s.tris[ti].vi1, s.tris[ti].vi2;
      && 0 <= vk < |s.adj| && 0 <= vx < |s.adj|
      && (if NoneShared(s.adj[vx], s.adj[vk], ti) then s'.tx == s.tx
          else s'.tx.Some? && SmallestShared(s.adj[vx], s.adj[vk], ti, s'.tx.value))
      && if s'.tx.Some? && 0 <= s'.tx.value < |s.tris| && !s.tris[s'.tx.value].deleted then
           Collapsed(s.tris, s.adj, ti, s'.tx.value, s.procList, s'.tris, s'.adj, s'.procList)
         else
           s'.tris == s.tris && s'.adj == s.adj && s'.procList == s.procList
  }

  /** trace is the first m positions of reduce's walk over the triangles
      tris and the lists adj: it starts with the even indices queued and no
      tx, and visits the positions below m in ascending order. */
  ghost predicate IsWalkPrefix(tris: seq<Triangle>, adj: seq<set<int>>, trace: seq<WalkPoint>, m: int) {
    && 0 <= m && |trace| == m + 1
    && trace[0].tris == tris && trace[0].adj == adj && trace[0].tx == None
    && (forall k :: k in trace[0].procList <==> 0 <= k < |tris| && k % 2 == 0)
    && forall ti :: 0 <= ti < m ==> Visit(ti, trace[ti], trace[ti + 1])
  }

  /** trace is the whole of reduce's walk over tris and adj. */
  ghost predicate IsWalk(tris: seq<Triangle>, adj: seq<set<int>>, trace: seq<WalkPoint>) {
    IsWalkPrefix(tris, adj, trace, |tris|)
  }

  /** Collapsing an edge has one outcome. */
  lemma CollapsedDeterministic(tris: seq<Triangle>, adj: seq<set<int>>, ti: int, tx: int, procList: set<int>,
                               a: WalkPoint, b: WalkPoint)
    requires 0 <= ti < |tris| && 0 <= tx < |tris|
    requires 0 <= tris[ti].vi1 < |adj| && 0 <= tris[ti].vi2 < |adj|
    requires Collapsed(tris, adj, ti, tx, procList, a.tris, a.adj, a.procList)
    requires Collapsed(tris, adj, ti, tx, procList, b.tris, b.adj, b.procList)
    ensures a.tris == b.tris && a.adj == b.adj && a.procList == b.procList
  {
    var vk, vx := tris[ti].vi1, tris[ti].vi2;
    forall k | 0 <= k < |tris| ensures a.tris[k] == b.tris[k] {
    }
    forall v | 0 <= v < |adj| ensures a.adj[v] == b.adj[v] {
      if v == vk && vk == vx {
        assert a.adj[vx] == {} == b.adj[vx];
      }
    }
  }

  /** A visit has one outcome: the sharing triangle is unique, and so is
      the collapse. */
  lemma VisitDeterministic(ti: int, s: WalkPoint, a: WalkPoint, b: WalkPoint)
    requires Visit(ti, s, a) && Visit(ti, s, b)
    ensures a == b
  {
    if 0 <= ti < |s.tris| && ti in s.procList && !s.tris[ti].deleted {
      var vk, vx := s.tris[ti].vi1, s.tris[ti].vi2;
      if !NoneShared(s.adj[vx], s.adj[vk], ti) {
        assert a.tx.value <= b.tx.value && b.tx.value <= a.tx.value;
      }
      assert a.tx == b.tx;
      if a.tx.Some? && 0 <= a.tx.value < |s.tris| && !s.tris[a.tx.value].deleted {
        CollapsedDeterministic(s.tris, s.adj, ti, a.tx.value, s.procList, a, b);
      }
    }
  }

  /** reduce's walk is a function of the triangles and the lists: two runs
      over the same input agree at every position. */
  lemma {:induction false} WalkDeterministic(tris: seq<Triangle>, adj: seq<set<int>>,
                                             t1: seq<WalkPoint>, t2: seq<WalkPoint>, m: int)
    requires IsWalkPrefix(tris, adj, t1, m) && IsWalkPrefix(tris, adj, t2, m)
    ensures t1 == t2
    decreases m
  {
    if m == 0 {
      forall k ensures k in t1[0].procList <==> k in t2[0].procList {
      }
      assert t1[0].procList == t2[0].procList;
      assert t1 == [t1[0]] && t2 == [t2[0]];
    } else {
      assert IsWalkPrefix(tris, adj, t1[..m], m - 1) by {
        forall ti | 0 <= ti < m - 1 ensures Visit(ti, t1[..m][ti], t1[..m][ti + 1]) {
          assert Visit(ti, t1[ti], t1[ti + 1]);
        }
      }
      assert IsWalkPrefix(tris, adj, t2[..m], m - 1) by {
        forall ti | 0 <= ti < m - 1 ensures Visit(ti, t2[..m][ti], t2[..m][ti + 1]) {
          assert Visit(ti, t2[ti], t2[ti + 1]);
        }
      }
      WalkDeterministic(tris, adj, t1[..m], t2[..m], m - 1);
      assert t1[m - 1] == t1[..m][m - 1] == t2[..m][m - 1] == t2[m - 1];
      VisitDeterministic(m - 1, t1[m - 1], t1[m], t2[m]);
      assert t1 == t1[..m] + [t1[m]] && t2 == t2[..m] + [t2[m]];
    }
  }

  /** A visit at the next position extends a prefix of the walk. */
  lemma WalkPrefixSnoc(tris: seq<Triangle>, adj: seq<set<int>>, trace: seq<WalkPoint>, m: int, p: WalkPoint)
    requires IsWalkPrefix(tris, adj, trace, m) && Visit(m, trace[m], p)
    ensures IsWalkPrefix(tris, adj, trace + [p], m + 1) && (trace + [p])[m + 1] == p
  {
    var t' := trace + [p];
    forall ti | 0 <= ti < m + 1 ensures Visit(ti, t'[ti], t'[ti + 1]) {
      if ti < m {
        assert t'[ti] == trace[ti] && t'[ti + 1] == trace[ti + 1];
      }
    }
  }

  /** The processing loop of reduce: walk procList (the even-numbered
      triangles) in ascending order and collapse the first edge (vi1, vi2)
      of each live triangle still queued with the triangle sharing it, when
      that one is live. A walk that finds no sharing triangle reuses the
      previous round's tx, which is always a tombstone by then. trace is
      the walk's state at each position, and pairs the number of edges
      collapsed, each tombstoning two live triangles. */
  method CollapseWalk(n: int, tris: seq<Triangle>, adj: seq<set<int>>)
      returns (tris': seq<Triangle>, adj': seq<set<int>>, ghost trace: seq<WalkPoint>, ghost pairs: nat)
    requires |adj| == n && WellIndexed(tris, n) && AdjInRange(adj, |tris|)
    ensures IsWalk(tris, adj, trace) && trace[|tris|].tris == tris' && trace[|tris|].adj == adj'
    ensures WalkState(n, tris, tris', adj')
    ensures forall k :: 0 <= k < |tris| && tris[k].deleted ==> tris'[k].deleted
    ensures |Live(tris')| + 2 * pairs == |Live(tris)|
    ensures AllLive(tris) ==> |Live(tris')| + 2 * pairs == |tris|
  {
    var procList := EvenIndices(|tris|);
    var tx: Option<int> := None;  // the source leaves tx uninitialised
    var ti := 0;                  // the position of the iterator pli
    pairs := 0;                   // the edges collapsed so far
    tris', adj' := tris, adj;
    trace := [WalkPoint(tris, adj, procList, tx)];
    while ti < |tris|
      invariant 0 <= ti <= |tris| && WalkState(n, tris, tris', adj')
      invariant IsWalkPrefix(tris, adj, trace, ti) && trace[ti] == WalkPoint(tris', adj', procList, tx)
      invariant tx.Some? ==> 0 <= tx.value < |tris| && tris'[tx.value].deleted
      invariant forall k :: 0 <= k < |tris| && tris[k].deleted ==> tris'[k].deleted
      invariant |Live(tris')| + 2 * pairs == |Live(tris)|
    {
      ghost var before := tris';
      tris', adj', procList, tx := WalkVisit(n, tris, tris', adj', procList, tx, ti);
      if |Live(tris')| != |Live(before)| {
        pairs := pairs + 1;
      }
      WalkPrefixSnoc(tris, adj, trace, ti, WalkPoint(tris', adj', procList, tx));
      trace := trace + [WalkPoint(tris', adj', procList, tx)];
      ti := ti + 1;
    }
    LiveCountOfAllLive(tris);
  }

  /** Without tombstones the live count is the length. */
  lemma LiveCountOfAllLive(tris: seq<Triangle>)
    ensures AllLive(tris) ==> |Live(tris)| == |tris|
  {
    if AllLive(tris) {
      LiveOfAllLive(tris);
    }
  }

  /** The walk at position ti, as Visit states it: a live triangle still
      queued has its edge (vi1, vi2) collapsed when the triangle found to
      share it (or the previous round's tx) is live. */
  method WalkVisit(n: int, t0: seq<Triangle>, tris: seq<Triangle>, adj: seq<set<int>>, procList: set<int>,
                   tx: Option<int>, ti: int)
      returns (tris': seq<Triangle>, adj': seq<set<int>>, procList': set<int>, tx': Option<int>)
    requires WalkState(n, t0, tris, adj) && 0 <= ti < |tris|
    requires tx.Some? ==> 0 <= tx.value < |tris| && tris[tx.value].deleted
    ensures Visit(ti, WalkPoint(tris, adj, procList, tx), WalkPoint(tris', adj', procList', tx'))
    ensures WalkState(n, t0, tris', adj')
    ensures tx'.Some? ==> 0 <= tx'.value < |tris| && tris'[tx'.value].deleted
    ensures forall k :: 0 <= k < |tris| && tris[k].deleted ==> tris'[k].deleted
    ensures |Live(tris')| == |Live(tris)| || |Live(tris')| == |Live(tris)| - 2
  {
    tris', adj', procList', tx' := tris, adj, procList, tx;
    if ti in procList && !tris[ti].deleted {
      /* the collapsing edge */
      var vk, vx := tris[ti].vi1, tris[ti].vi2;
      /* the other triangle with the edge */
      var found := FindSharedTriangle(adj[vx], adj[vk], ti);
      if found.Some? {
        tx' := found;
      }
      if tx'.Some? && !tris[tx'.value].deleted {
        tris', adj', procList' := CollapseStep(n, t0, tris, adj, ti, tx'.value, procList);
      }
    }
  }

  /** One collapse of the walk: it keeps the walk's state and tombstones
      exactly two more live triangles. */
  method CollapseStep(n: int, t0: seq<Triangle>, tris: seq<Triangle>, adj: seq<set<int>>, ti: int, tx: int,
                      procList: set<int>)
      returns (tris': seq<Triangle>, adj': seq<set<int>>, procList': set<int>)
    requires WalkState(n, t0, tris, adj)
    requires 0 <= ti < |tris| && 0 <= tx < |tris| && ti != tx
    requires !tris[ti].deleted && !tris[tx].deleted
    ensures Collapsed(tris, adj, ti, tx, procList, tris', adj', procList')
    ensures WalkState(n, t0, tris', adj')
    ensures forall k :: 0 <= k < |tris| ==> tris'[k].deleted == (k == ti || k == tx || tris[k].deleted)
    ensures |Live(tris')| == |Live(tris)| - 2
  {
    tris', adj', procList' := CollapseEdge(n, tris, adj, ti, tx, procList);
    LiveCountDeletePair(tris, ti, tx, tris');
    forall k | 0 <= k < |tris| ensures KeepsData(t0[k], tris'[k]) {
      KeepsDataTrans(t0[k], tris[k], tris'[k]);
    }
  }

  lemma KeepsDataTrans(t0: Triangle, t1: Triangle, t2: Triangle)
    requires KeepsData(t0, t1) && KeepsData(t1, t2)
    ensures KeepsData(t0, t2)
  {
  }

  /** Step 5 of reduce: each live triangle of vx's list, in ascending
      order, has its first occurrence of vx replaced by vk. */
  method RetargetAll(tris: seq<Triangle>, list: set<int>, vx: int, vk: int) returns (r: seq<Triangle>)
    requires forall e :: e in list ==> 0 <= e < |tris|
    ensures |r| == |tris|
    ensures forall k :: 0 <= k < |r| ==>
      r[k] == if k in list && !tris[k].deleted then RetargetFirst(tris[k], vx, vk) else tris[k]
  {
    r := tris;
    var rest := list;
    while rest != {}
      invariant rest <= list && |r| == |tris|
      invariant forall k :: 0 <= k < |r| ==>
        r[k] == if k in list && k !in rest && !tris[k].deleted then RetargetFirst(tris[k], vx, vk) else tris[k]
      decreases |rest|
    {
      MinExists(rest);
      var e :| e in rest && forall y :: y in rest ==> e <= y;
      if !r[e].deleted {
        r := r[e := RetargetFirst(r[e], vx, vk)];
      }
      rest := rest - {e};
    }
  }

  /** The erase loop of reduce's step 7: every triangle of the list, in
      ascending order, is erased from procList. */
  method EraseAll(procList: set<int>, list: set<int>) returns (r: set<int>)
    ensures r == procList - list
  {
    r := procList;
    var rest := list;
    while rest != {}
      invariant rest <= list
      invariant r == procList - (list - rest)
      decreases |rest|
    {
      MinExists(rest);
      var e :| e in rest && forall y :: y in rest ==> e <= y;
      r := r - {e};
      rest := rest - {e};
    }
    assert list - rest == list;
  }

  /** The retargeting of reduce: the first slot, in the order vi1, vi2, vi3,
      that holds vx is set to vk. */
  function RetargetFirst(t: Triangle, vx: int, vk: int): Triangle {
    if t.vi1 == vx then t.(vi1 := vk)
    else if t.vi2 == vx then t.(vi2 := vk)
    else if t.vi3 == vx then t.(vi3 := vk)
    else t
  }

  /** Retargeting keeps everything but one vertex slot; a triangle that uses
      vx once no longer uses it, and no other vertex is lost. */
  lemma RetargetFirstFacts(t: Triangle, vx: int, vk: int)
    ensures var r := RetargetFirst(t, vx, vk);
      && r.(vi1 := t.vi1, vi2 := t.vi2, vi3 := t.vi3) == t
      && (!HasVertex(t, vx) ==> r == t)
      && (HasVertex(t, vx) ==> HasVertex(r, vk))
      && (forall v :: v != vx && HasVertex(t, v) ==> HasVertex(r, v))
      && (Distinct(t) && vx != vk ==> !HasVertex(r, vx))
  {
  }

  /** Erasing a run of tombstoned triangles leaves the live ones. */
  lemma LiveErase(a: seq<Triangle>, run: seq<Triangle>, c: seq<Triangle>)
    requires forall k :: 0 <= k < |run| ==> run[k].deleted
    ensures Live(a + run + c) == Live(a + c)
  {
    LiveAllDeleted(run);
    assert Live(run) == [];
    LiveAppend(a + run, c);
    assert Live(a + run + c) == Live(a + run) + Live(c);
    LiveAppend(a, run);
    assert Live(a + run) == Live(a);
    LiveAppend(a, c);
    assert Live(a + c) == Live(a) + Live(c);
  }

  /** The erase step of the compaction: the live triangles and the prefix
      before the run stay as they were. */
  lemma EraseRun(r: seq<Triangle>, from: int, to: int)
    requires 0 <= from <= to < |r|
    requires forall k :: from <= k <= to ==> r[k].deleted
    ensures Live(r[..from] + r[to + 1..]) == Live(r)
    ensures |r[..from] + r[to + 1..]| < |r|
    ensures forall k :: 0 <= k < from ==> (r[..from] + r[to + 1..])[k] == r[k]
  {
    assert r == r[..from] + r[from..to + 1] + r[to + 1..];
    LiveErase(r[..from], r[from..to + 1], r[to + 1..]);
  }

  /** The compaction of reduce: erase each maximal run of tombstoned
      triangles at once. The result is the live triangles in their order. */
  method Compact(tris: seq<Triangle>) returns (r: seq<Triangle>)
    ensures r == Live(tris)
  {
    r := tris;
    var from := 0;
    while from < |r|
      invariant 0 <= from <= |r|
      invariant Live(r) == Live(tris)
      invariant forall k :: 0 <= k < from ==> !r[k].deleted
      decreases |r| - from
    {
      if r[from].deleted {
        var to := from;
        while to + 1 < |r| && r[to + 1].deleted
          invariant from <= to < |r|
          invariant forall k :: from <= k <= to ==> r[k].deleted
        {
          to := to + 1;
        }
        EraseRun(r, from, to);
        r := r[..from] + r[to + 1..];
      } else {
        from := from + 1;
      }
    }
    LiveOfAllLive(r);
  }
}
