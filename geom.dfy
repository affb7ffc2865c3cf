/** Geometry primitives of the mesh program: points, outcodes, axis-aligned
    boxes, segments and triangles whose vertices live in a vertex arena owned
    by a mesh. Coordinates are exact reals; single-precision rounding is not
    modelled. */
module Geom {

  /** A 3D point or vector (the C++ `Point`, whose fields are floats). */
  datatype Point = Point(x: real, y: real, z: real)

  const Origin: Point := Point(0.0, 0.0, 0.0)

  /** `FLT_MAX`, the largest finite float, as an exact real. */
  const FltMax: real := 340282346638528859811704183484516925440.0

  /** `FLT_MIN`, the smallest POSITIVE normalised float (2^-126), as an exact real. */
  const FltMin: real := 1.1754943508222875079687365372222456778186655567720875215087517062784172594547271728515625e-38

  function Min(a: real, b: real): real { if b < a then b else a }
  function Max(a: real, b: real): real { if a < b then b else a }

  // ---------------------------------------------------------------------
  // Point arithmetic. Point::add/sub/scale update the point in place and
  // return it for chaining; here each returns the updated value.

  function Add(p: Point, v: Point): Point { Point(p.x + v.x, p.y + v.y, p.z + v.z) }

  function Sub(p: Point, v: Point): Point { Point(p.x - v.x, p.y - v.y, p.z - v.z) }

  function Scale(p: Point, s: real): Point { Point(p.x * s, p.y * s, p.z * s) }

  function CrossProd(a: Point, b: Point): Point {
    Point(a.y * b.z - a.z * b.y, a.z * b.x - a.x * b.z, a.x * b.y - a.y * b.x)
  }

  function DotProd(a: Point, b: Point): real { a.x * b.x + a.y * b.y + a.z * b.z }

  /** Subtracting what was added restores the point, and the other way round. */
  lemma AddSubInverse(p: Point, v: Point)
    ensures Sub(Add(p, v), v) == p
    ensures Add(Sub(p, v), v) == p
  {
  }

  /** Scaling by s and then by 1/s restores the point. */
  lemma ScaleInverse(p: Point, s: real)
    requires s != 0.0
    ensures Scale(Scale(p, s), 1.0 / s) == p
  {
    assert p.x * s * (1.0 / s) == p.x;
    assert p.y * s * (1.0 / s) == p.y;
    assert p.z * s * (1.0 / s) == p.z;
  }

  /** The cross product is perpendicular to both of its operands. */
  lemma CrossProdPerpendicular(a: Point, b: Point)
    ensures DotProd(CrossProd(a, b), a) == 0.0
    ensures DotProd(CrossProd(a, b), b) == 0.0
  {
  }

  /** The cross product is anti-commutative. */
  lemma CrossProdAntiCommutative(a: Point, b: Point)
    ensures CrossProd(b, a) == Scale(CrossProd(a, b), -1.0)
  {
  }

  // ---------------------------------------------------------------------
  // Outcodes (Point::mkcode): one bit per face of the box [c1, c2] that the
  // point lies strictly beyond; z uses 0x01/0x02, y 0x04/0x08, x 0x10/0x20.

  function MkCode(v: Point, c1: Point, c2: Point): bv8 {
    (if v.z > c2.z then 0x01 else if v.z < c1.z then 0x02 else 0x00) |
    (if v.y > c2.y then 0x04 else if v.y < c1.y then 0x08 else 0x00) |
    (if v.x > c2.x then 0x10 else if v.x < c1.x then 0x20 else 0x00)
  }

  /** The closed box [c1, c2]: the comparisons of MkCode are strict, so points
      on a face count as inside. */
  predicate InClosedBox(v: Point, c1: Point, c2: Point) {
    c1.x <= v.x <= c2.x && c1.y <= v.y <= c2.y && c1.z <= v.z <= c2.z
  }

  /** The code is zero exactly for the points of the closed box. */
  lemma MkCodeZeroIff(v: Point, c1: Point, c2: Point)
    ensures MkCode(v, c1, c2) == 0 <==> InClosedBox(v, c1, c2)
  {
  }

  /** What each bit of the code means, checking the upper face first. */
  lemma MkCodeBits(v: Point, c1: Point, c2: Point)
    ensures var r := MkCode(v, c1, c2);
      && (r & 0x01 != 0 <==> v.z > c2.z)
      && (r & 0x02 != 0 <==> !(v.z > c2.z) && v.z < c1.z)
      && (r & 0x04 != 0 <==> v.y > c2.y)
      && (r & 0x08 != 0 <==> !(v.y > c2.y) && v.y < c1.y)
      && (r & 0x10 != 0 <==> v.x > c2.x)
      && (r & 0x20 != 0 <==> !(v.x > c2.x) && v.x < c1.x)
  {
  }

  /** At most one bit of each axis pair is set, and none outside 0x3F. */
  lemma MkCodeShape(v: Point, c1: Point, c2: Point)
    ensures var r := MkCode(v, c1, c2);
      && r & 0x03 != 0x03 && r & 0x0C != 0x0C && r & 0x30 != 0x30
      && r & 0xC0 == 0
  {
  }

  /** The point a + t * (b - a) of the segment from a to b, 0 <= t <= 1. */
  function Lerp(a: Point, b: Point, t: real): Point {
    Add(a, Scale(Sub(b, a), t))
  }

  /** Sign facts for the products in the two Lerp lemmas below. */
  lemma MulPos(u: real, v: real)
    requires u > 0.0 && v > 0.0
    ensures u * v > 0.0
  {
  }

  lemma MulNonNeg(u: real, v: real)
    requires u >= 0.0 && v >= 0.0
    ensures u * v >= 0.0
  {
  }

  lemma LerpAbove(a: real, b: real, c: real, t: real)
    requires 0.0 <= t <= 1.0 && a > c && b > c
    ensures a + (b - a) * t > c
  {
    var u := 1.0 - t;
    var e1, e2 := u * (a - c), t * (b - c);
    assert a + (b - a) * t - c == e1 + e2;
    if t < 1.0 {
      MulPos(u, a - c);
      MulNonNeg(t, b - c);
    } else {
      MulPos(t, b - c);
    }
  }

  lemma LerpBelow(a: real, b: real, c: real, t: real)
    requires 0.0 <= t <= 1.0 && a < c && b < c
    ensures a + (b - a) * t < c
  {
    var u := 1.0 - t;
    var e1, e2 := u * (c - a), t * (c - b);
    assert c - (a + (b - a) * t) == e1 + e2;
    if t < 1.0 {
      MulPos(u, c - a);
      MulNonNeg(t, c - b);
    } else {
      MulPos(t, c - b);
    }
  }

  /** Trivial reject: when the codes of both ends share a bit, both ends lie
      strictly beyond the same face plane, and so does every point of the
      segment between them. */
  lemma MkCodeTrivialReject(a: Point, b: Point, c1: Point, c2: Point, t: real)
    requires 0.0 <= t <= 1.0
    requires MkCode(a, c1, c2) & MkCode(b, c1, c2) != 0
    ensures MkCode(Lerp(a, b, t), c1, c2) != 0
  {
    var p := Lerp(a, b, t);
    MkCodeBits(a, c1, c2);
    MkCodeBits(b, c1, c2);
    MkCodeBits(p, c1, c2);
    if a.z > c2.z && b.z > c2.z {
      LerpAbove(a.z, b.z, c2.z, t);
    } else if a.z < c1.z && b.z < c1.z {
      LerpBelow(a.z, b.z, c1.z, t);
    } else if a.y > c2.y && b.y > c2.y {
      LerpAbove(a.y, b.y, c2.y, t);
    } else if a.y < c1.y && b.y < c1.y {
      LerpBelow(a.y, b.y, c1.y, t);
    } else if a.x > c2.x && b.x > c2.x {
      LerpAbove(a.x, b.x, c2.x, t);
    } else {
      LerpBelow(a.x, b.x, c1.x, t);
    }
  }

  // ---------------------------------------------------------------------
  // Axis-aligned boxes

  datatype Box = Box(min: Point, max: Point)

  predicate Contains(b: Box, p: Point) { InClosedBox(p, b.min, b.max) }

  predicate Ordered(b: Box) {
    b.min.x <= b.max.x && b.min.y <= b.max.y && b.min.z <= b.max.z
  }

  function XSize(b: Box): real { b.max.x - b.min.x }
  function YSize(b: Box): real { b.max.y - b.min.y }
  function ZSize(b: Box): real { b.max.z - b.min.z }

  /** Box::add, Box::sub and Box::scale move both corners. */
  function BoxAdd(b: Box, v: Point): Box { Box(Add(b.min, v), Add(b.max, v)) }
  function BoxSub(b: Box, v: Point): Box { Box(Sub(b.min, v), Sub(b.max, v)) }
  function BoxScale(b: Box, s: real): Box { Box(Scale(b.min, s), Scale(b.max, s)) }

  /** Box(v1, v2, v3) as the source writes it: the lower corner takes
      min(v1, max(v2, v3)) per axis rather than the minimum of the three. */
  function TriangleBoxAsWritten(v1: Point, v2: Point, v3: Point): Box {
    Box(Point(Min(v1.x, Max(v2.x, v3.x)), Min(v1.y, Max(v2.y, v3.y)), Min(v1.z, Max(v2.z, v3.z))),
        Point(Max(v1.x, Max(v2.x, v3.x)), Max(v1.y, Max(v2.y, v3.y)), Max(v1.z, Max(v2.z, v3.z))))
  }

  /** The as-written box: its upper corner is the componentwise maximum of
      the three points, it is ordered and it contains v1. */
  lemma TriangleBoxAsWrittenFacts(v1: Point, v2: Point, v3: Point)
    ensures var b := TriangleBoxAsWritten(v1, v2, v3);
      && Ordered(b) && Contains(b, v1)
      && b.max.x >= v1.x && b.max.x >= v2.x && b.max.x >= v3.x
      && (b.max.x == v1.x || b.max.x == v2.x || b.max.x == v3.x)
      && b.max.y >= v1.y && b.max.y >= v2.y && b.max.y >= v3.y
      && (b.max.y == v1.y || b.max.y == v2.y || b.max.y == v3.y)
      && b.max.z >= v1.z && b.max.z >= v2.z && b.max.z >= v3.z
      && (b.max.z == v1.z || b.max.z == v2.z || b.max.z == v3.z)
  {
  }

  /** The as-written box can miss a vertex of its own triangle. */
  lemma TriangleBoxAsWrittenMissesVertex()
    ensures var v3 := Point(-1.0, -1.0, -1.0);
      !Contains(TriangleBoxAsWritten(Origin, Point(1.0, 1.0, 1.0), v3), v3)
  {
  }

  /** The intended triangle box: the componentwise minimum and maximum. */
  function TriangleBox(v1: Point, v2: Point, v3: Point): Box {
    Box(Point(Min(v1.x, Min(v2.x, v3.x)), Min(v1.y, Min(v2.y, v3.y)), Min(v1.z, Min(v2.z, v3.z))),
        Point(Max(v1.x, Max(v2.x, v3.x)), Max(v1.y, Max(v2.y, v3.y)), Max(v1.z, Max(v2.z, v3.z))))
  }

  /** The intended box contains all three points and is the smallest box that does. */
  lemma TriangleBoxIsTight(v1: Point, v2: Point, v3: Point, b: Box)
    ensures var t := TriangleBox(v1, v2, v3);
      Ordered(t) && Contains(t, v1) && Contains(t, v2) && Contains(t, v3)
    ensures Contains(b, v1) && Contains(b, v2) && Contains(b, v3) ==>
      var t := TriangleBox(v1, v2, v3);
      Contains(b, t.min) && Contains(b, t.max)
  {
  }

  /** Moving a box by p and back restores it; moving keeps every size. */
  lemma BoxAddSub(b: Box, p: Point)
    ensures BoxSub(BoxAdd(b, p), p) == b && BoxAdd(BoxSub(b, p), p) == b
    ensures XSize(BoxAdd(b, p)) == XSize(b) && YSize(BoxAdd(b, p)) == YSize(b) && ZSize(BoxAdd(b, p)) == ZSize(b)
    ensures XSize(BoxSub(b, p)) == XSize(b) && YSize(BoxSub(b, p)) == YSize(b) && ZSize(BoxSub(b, p)) == ZSize(b)
  {
  }

  /** Scaling a box by s multiplies each of its sizes by s. */
  lemma BoxScaleSizes(b: Box, s: real)
    ensures XSize(BoxScale(b, s)) == s * XSize(b)
    ensures YSize(BoxScale(b, s)) == s * YSize(b)
    ensures ZSize(BoxScale(b, s)) == s * ZSize(b)
  {
  }

  /** A point of a box stays in the box when both are moved by the same vector. */
  lemma ContainsMoved(b: Box, p: Point, v: Point)
    requires Contains(b, p)
    ensures Contains(BoxAdd(b, v), Add(p, v)) && Contains(BoxSub(b, v), Sub(p, v))
  {
  }

  /** A point of a box stays in the box when both are scaled by the same positive factor. */
  lemma ContainsScaled(b: Box, p: Point, s: real)
    requires Contains(b, p) && s > 0.0
    ensures Contains(BoxScale(b, s), Scale(p, s))
  {
    assert b.min.x * s <= p.x * s <= b.max.x * s;
    assert b.min.y * s <= p.y * s <= b.max.y * s;
    assert b.min.z * s <= p.z * s <= b.max.z * s;
  }

  /** The largest of the three sizes, as setSize computes it with std::max. */
  function LargestExtent(b: Box): real { Max(XSize(b), Max(YSize(b), ZSize(b))) }

  /** Scaling by size / LargestExtent(b) makes the largest extent exactly size. */
  lemma ScaledLargestExtent(b: Box, size: real)
    requires LargestExtent(b) > 0.0 && size > 0.0
    ensures LargestExtent(BoxScale(b, size / LargestExtent(b))) == size
  {
    var m := LargestExtent(b);
    var s := size / m;
    assert s > 0.0;
    BoxScaleSizes(b, s);
    MaxScaled(XSize(b), YSize(b), ZSize(b), s);
    assert s * m == size;
  }

  lemma MaxScaled(a: real, b: real, c: real, s: real)
    requires s > 0.0
    ensures Max(s * a, Max(s * b, s * c)) == s * Max(a, Max(b, c))
  {
    if a < b { assert s * a < s * b; } else { assert s * a >= s * b; }
    if b < c { assert s * b < s * c; } else { assert s * b >= s * c; }
    if a < c { assert s * a < s * c; } else { assert s * a >= s * c; }
  }

  /** The centre as alingCenterToOrigin computes it: min + (max - min) * 0.5. */
  function Center(b: Box): Point { Add(b.min, Scale(Sub(b.max, b.min), 0.5)) }

  /** Moving a box by minus its centre puts its midpoint at the origin. */
  lemma CenteredBoxIsSymmetric(b: Box)
    ensures var c := BoxSub(b, Center(b));
      c.min.x + c.max.x == 0.0 && c.min.y + c.max.y == 0.0 && c.min.z + c.max.z == 0.0
  {
  }

  /** Box::intersect: overlap of the OPEN intervals on every axis. */
  predicate Intersect(b1: Box, b2: Box) {
    b1.min.x < b2.max.x && b1.max.x > b2.min.x &&
    b1.min.y < b2.max.y && b1.max.y > b2.min.y &&
    b1.min.z < b2.max.z && b1.max.z > b2.min.z
  }

  predicate StrictlyOrdered(b: Box) {
    b.min.x < b.max.x && b.min.y < b.max.y && b.min.z < b.max.z
  }

  predicate StrictlyInside(p: Point, b: Box) {
    b.min.x < p.x < b.max.x && b.min.y < p.y < b.max.y && b.min.z < p.z < b.max.z
  }

  lemma IntersectSymmetric(b1: Box, b2: Box)
    ensures Intersect(b1, b2) == Intersect(b2, b1)
  {
  }

  /** Boxes that only touch on one axis do not intersect. */
  lemma TouchingBoxesDoNotIntersect(b1: Box, b2: Box)
    requires b1.max.x == b2.min.x || b1.max.y == b2.min.y || b1.max.z == b2.min.z
    ensures !Intersect(b1, b2)
  {
  }

  /** Two boxes of positive extent intersect exactly when some point lies
      strictly inside both. */
  lemma IntersectIffCommonInterior(b1: Box, b2: Box)
    requires StrictlyOrdered(b1) && StrictlyOrdered(b2)
    ensures Intersect(b1, b2) <==> exists p :: StrictlyInside(p, b1) && StrictlyInside(p, b2)
  {
    if Intersect(b1, b2) {
      var p := Point((Max(b1.min.x, b2.min.x) + Min(b1.max.x, b2.max.x)) / 2.0,
                     (Max(b1.min.y, b2.min.y) + Min(b1.max.y, b2.max.y)) / 2.0,
                     (Max(b1.min.z, b2.min.z) + Min(b1.max.z, b2.max.z)) / 2.0);
      assert StrictlyInside(p, b1) && StrictlyInside(p, b2);
    }
  }

  // ---------------------------------------------------------------------
  // Segments and triangles

  datatype Line = Line(start: Point, end: Point)

  /** A triangle: three indices into its mesh's vertex arena (the C++ struct
      keeps a pointer to that vector), the cached plane coefficients A..D,
      the cached bounding box and the tombstone flag used by simplification. */
  datatype Triangle = Triangle(vi1: int, vi2: int, vi3: int, A: real, B: real, C: real, D: real,
                               box: Box, deleted: bool)

  predicate IndexedIn(t: Triangle, n: int) {
    0 <= t.vi1 < n && 0 <= t.vi2 < n && 0 <= t.vi3 < n
  }

  function V1(vs: seq<Point>, t: Triangle): Point requires IndexedIn(t, |vs|) { vs[t.vi1] }
  function V2(vs: seq<Point>, t: Triangle): Point requires IndexedIn(t, |vs|) { vs[t.vi2] }
  function V3(vs: seq<Point>, t: Triangle): Point requires IndexedIn(t, |vs|) { vs[t.vi3] }

  /** Triangle::planeEquation: proportional to the signed distance of r from
      the triangle's plane, with the sign fixed by the winding. */
  function PlaneEquation(t: Triangle, r: Point): real {
    t.A * r.x + t.B * r.y + t.C * r.z + t.D
  }

  /** Triangle::getNormal. */
  function Normal(t: Triangle): Point { Point(t.A, t.B, t.C) }

  /** The plane coefficients Triangle::updateData computes from three points. */
  function PlaneA(p: Point, q: Point, r: Point): real { p.y * (q.z - r.z) + q.y * (r.z - p.z) + r.y * (p.z - q.z) }
  function PlaneB(p: Point, q: Point, r: Point): real { p.z * (q.x - r.x) + q.z * (r.x - p.x) + r.z * (p.x - q.x) }
  function PlaneC(p: Point, q: Point, r: Point): real { p.x * (q.y - r.y) + q.x * (r.y - p.y) + r.x * (p.y - q.y) }
  function PlaneD(p: Point, q: Point, r: Point): real {
    -p.x * (q.y * r.z - r.y * q.z) - q.x * (r.y * p.z - p.y * r.z) - r.x * (p.y * q.z - q.y * p.z)
  }

  /** Triangle::updateData: recompute the cached box and plane from the
      current vertex coordinates. The box is the intended three-point box
      (see TriangleBoxAsWritten for the source's). */
  function UpdateData(vs: seq<Point>, t: Triangle): (r: Triangle)
    requires IndexedIn(t, |vs|)
    ensures r.vi1 == t.vi1 && r.vi2 == t.vi2 && r.vi3 == t.vi3 && r.deleted == t.deleted
    ensures Contains(r.box, vs[t.vi1]) && Contains(r.box, vs[t.vi2]) && Contains(r.box, vs[t.vi3])
  {
    var p, q, s := vs[t.vi1], vs[t.vi2], vs[t.vi3];
    TriangleBoxIsTight(p, q, s, TriangleBox(p, q, s));
    t.(box := TriangleBox(p, q, s), A := PlaneA(p, q, s), B := PlaneB(p, q, s),
       C := PlaneC(p, q, s), D := PlaneD(p, q, s))
  }

  /** After updateData the plane equation vanishes at the three vertices. */
  lemma UpdateDataPlaneThroughVertices(vs: seq<Point>, t: Triangle)
    requires IndexedIn(t, |vs|)
    ensures var u := UpdateData(vs, t);
      PlaneEquation(u, V1(vs, t)) == 0.0 && PlaneEquation(u, V2(vs, t)) == 0.0 && PlaneEquation(u, V3(vs, t)) == 0.0
  {
    PlaneThroughCorners(UpdateData(vs, t), V1(vs, t), V2(vs, t), V3(vs, t));
  }

  lemma PlaneThroughCorners(u: Triangle, p: Point, q: Point, r: Point)
    requires u.A == PlaneA(p, q, r) && u.B == PlaneB(p, q, r) && u.C == PlaneC(p, q, r) && u.D == PlaneD(p, q, r)
    ensures PlaneEquation(u, p) == 0.0 && PlaneEquation(u, q) == 0.0 && PlaneEquation(u, r) == 0.0
  {
    PlaneVanishesAtCorners(p, q, r);
  }

  lemma PlaneVanishesAtCorners(p: Point, q: Point, r: Point)
    ensures var a, b, c, d := PlaneA(p, q, r), PlaneB(p, q, r), PlaneC(p, q, r), PlaneD(p, q, r);
      && a * p.x + b * p.y + c * p.z + d == 0.0
      && a * q.x + b * q.y + c * q.z + d == 0.0
      && a * r.x + b * r.y + c * r.z + d == 0.0
  {
    PlaneIdentity(p.x, p.y, p.z, q.x, q.y, q.z, r.x, r.y, r.z);
  }

  /** The determinant identity behind PlaneVanishesAtCorners, on plain reals. */
  lemma PlaneIdentity(x1: real, y1: real, z1: real, x2: real, y2: real, z2: real, x3: real, y3: real, z3: real)
    ensures var a := y1 * (z2 - z3) + y2 * (z3 - z1) + y3 * (z1 - z2);
      var b := z1 * (x2 - x3) + z2 * (x3 - x1) + z3 * (x1 - x2);
      var c := x1 * (y2 - y3) + x2 * (y3 - y1) + x3 * (y1 - y2);
      var d := -x1 * (y2 * z3 - y3 * z2) - x2 * (y3 * z1 - y1 * z3) - x3 * (y1 * z2 - y2 * z1);
      && a * x1 + b * y1 + c * z1 + d == 0.0
      && a * x2 + b * y2 + c * z2 + d == 0.0
      && a * x3 + b * y3 + c * z3 + d == 0.0
  {
  }

  /** The cached normal is the cross product of two edges, and the plane
      equation equals the dot product of that normal with r - v3 (the
      commented-out alternative formula of Triangle::planeEquation). */
  lemma PlaneEquationIsDotProd(vs: seq<Point>, t: Triangle, r: Point)
    requires IndexedIn(t, |vs|)
    ensures var u := UpdateData(vs, t);
      && Normal(u) == CrossProd(Sub(V2(vs, t), V1(vs, t)), Sub(V3(vs, t), V1(vs, t)))
      && PlaneEquation(u, r) == DotProd(Normal(u), Sub(r, V3(vs, t)))
  {
    PlaneAsDotProd(UpdateData(vs, t), V1(vs, t), V2(vs, t), V3(vs, t), r);
  }

  lemma PlaneAsDotProd(u: Triangle, p: Point, q: Point, s: Point, r: Point)
    requires u.A == PlaneA(p, q, s) && u.B == PlaneB(p, q, s) && u.C == PlaneC(p, q, s) && u.D == PlaneD(p, q, s)
    ensures Normal(u) == CrossProd(Sub(q, p), Sub(s, p))
    ensures PlaneEquation(u, r) == DotProd(Normal(u), Sub(r, s))
  {
    DotFormIdentity(p.x, p.y, p.z, q.x, q.y, q.z, s.x, s.y, s.z, r.x, r.y, r.z);
  }

  lemma DotFormIdentity(x1: real, y1: real, z1: real, x2: real, y2: real, z2: real, x3: real, y3: real, z3: real,
                        x: real, y: real, z: real)
    ensures var a := y1 * (z2 - z3) + y2 * (z3 - z1) + y3 * (z1 - z2);
      var b := z1 * (x2 - x3) + z2 * (x3 - x1) + z3 * (x1 - x2);
      var c := x1 * (y2 - y3) + x2 * (y3 - y1) + x3 * (y1 - y2);
      var d := -x1 * (y2 * z3 - y3 * z2) - x2 * (y3 * z1 - y1 * z3) - x3 * (y1 * z2 - y2 * z1);
      && a == (y2 - y1) * (z3 - z1) - (z2 - z1) * (y3 - y1)
      && b == (z2 - z1) * (x3 - x1) - (x2 - x1) * (z3 - z1)
      && c == (x2 - x1) * (y3 - y1) - (y2 - y1) * (x3 - x1)
      && a * x + b * y + c * z + d == a * (x - x3) + b * (y - y3) + c * (z - z3)
  {
  }

  /** UpdateData depends only on the indices and the vertex coordinates, so
      recomputing twice is the same as once. */
  lemma UpdateDataIdempotent(vs: seq<Point>, t: Triangle)
    requires IndexedIn(t, |vs|)
    ensures UpdateData(vs, UpdateData(vs, t)) == UpdateData(vs, t)
  {
  }

  /** The Triangle constructor: a live triangle with fresh cached data. */
  function NewTriangle(vs: seq<Point>, i1: int, i2: int, i3: int): (r: Triangle)
    requires 0 <= i1 < |vs| && 0 <= i2 < |vs| && 0 <= i3 < |vs|
    ensures r.vi1 == i1 && r.vi2 == i2 && r.vi3 == i3 && !r.deleted
    ensures r == UpdateData(vs, r)
  {
    UpdateData(vs, Triangle(i1, i2, i3, 0.0, 0.0, 0.0, 0.0, Box(Origin, Origin), false))
  }

  /** Triangle::intersects(t, l): the segment is rejected only when both
      ends lie strictly on the same side of the plane. */
  predicate IntersectsLine(t: Triangle, l: Line) {
    !(PlaneEquation(t, l.start) * PlaneEquation(t, l.end) > 0.0)
  }

  lemma IntersectsLineSides(t: Triangle, l: Line)
    ensures IntersectsLine(t, l) <==>
      !((PlaneEquation(t, l.start) > 0.0 && PlaneEquation(t, l.end) > 0.0) ||
        (PlaneEquation(t, l.start) < 0.0 && PlaneEquation(t, l.end) < 0.0))
  {
    var a, b := PlaneEquation(t, l.start), PlaneEquation(t, l.end);
    if a > 0.0 && b < 0.0 { assert a * b < 0.0; }
    if a < 0.0 && b > 0.0 { assert a * b < 0.0; }
    if a > 0.0 && b > 0.0 { assert a * b > 0.0; }
    if a < 0.0 && b < 0.0 { assert a * b > 0.0; }
  }

  lemma IntersectsLineSymmetric(t: Triangle, a: Point, b: Point)
    ensures IntersectsLine(t, Line(a, b)) == IntersectsLine(t, Line(b, a))
  {
  }

  /** A segment with an end on the triangle's plane is never rejected. */
  lemma IntersectsLineOnPlane(t: Triangle, l: Line)
    requires PlaneEquation(t, l.start) == 0.0 || PlaneEquation(t, l.end) == 0.0
    ensures IntersectsLine(t, l)
  {
  }

  /** Triangle::intersects(t1, t2): a box broad phase, then the three edges
      of each triangle against the plane of the other. */
  predicate Intersects(vs1: seq<Point>, t1: Triangle, vs2: seq<Point>, t2: Triangle)
    requires IndexedIn(t1, |vs1|) && IndexedIn(t2, |vs2|)
  {
    if !Intersect(t1.box, t2.box) then false
    else IntersectsLine(t1, Line(V1(vs2, t2), V2(vs2, t2))) ||
         IntersectsLine(t1, Line(V2(vs2, t2), V3(vs2, t2))) ||
         IntersectsLine(t1, Line(V3(vs2, t2), V1(vs2, t2))) ||
         IntersectsLine(t2, Line(V1(vs1, t1), V2(vs1, t1))) ||
         IntersectsLine(t2, Line(V2(vs1, t1), V3(vs1, t1))) ||
         IntersectsLine(t2, Line(V3(vs1, t1), V1(vs1, t1)))
  }

  lemma IntersectsBroadPhase(vs1: seq<Point>, t1: Triangle, vs2: seq<Point>, t2: Triangle)
    requires IndexedIn(t1, |vs1|) && IndexedIn(t2, |vs2|)
    requires !Intersect(t1.box, t2.box)
    ensures !Intersects(vs1, t1, vs2, t2)
  {
  }

  lemma IntersectsSymmetric(vs1: seq<Point>, t1: Triangle, vs2: seq<Point>, t2: Triangle)
    requires IndexedIn(t1, |vs1|) && IndexedIn(t2, |vs2|)
    ensures Intersects(vs1, t1, vs2, t2) == Intersects(vs2, t2, vs1, t1)
  {
    IntersectSymmetric(t1.box, t2.box);
  }
}
