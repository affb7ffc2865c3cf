/** glvisuals.cpp: the user-interface state of the scene. The scene holds
    five levels of detail of two meshes and five intersection meshes; keys
    select one of the first mesh's levels and an axis, the mouse wheel and
    the arrows move the selected level (or the camera when none is
    selected) along an axis, and dragging rotates the camera by whole
    degrees that are kept in [0, 360]. */
module Visuals {
  import opened Geom
  import opened MeshCore
  import opened Meshes

  /** The number of levels of detail of each mesh. */
  const Levels: int := 5

  /** The angle qNormalizeAngle leaves: a multiple of 360 becomes 0 when it
      is not positive and 360 when it is. */
  function NormalAngle(a: int): int {
    if a <= 0 then a % 360 else (a - 1) % 360 + 1
  }

  /** The normalised angle is the representative of a modulo 360 in
      [0, 360], where the two candidates 0 and 360 of a multiple of 360 are
      told apart by the sign of a. */
  lemma NormalAngleSpec(a: int)
    ensures var r := NormalAngle(a);
      && 0 <= r <= 360
      && (r - a) % 360 == 0
      && (r == 0 <==> a <= 0 && a % 360 == 0)
      && (r == 360 <==> a > 0 && a % 360 == 0)
  {
  }

  /** Normalising twice is normalising once. */
  lemma NormalAngleIdempotent(a: int)
    ensures NormalAngle(NormalAngle(a)) == NormalAngle(a)
  {
    NormalAngleSpec(a);
  }

  /** qNormalizeAngle: add 360 while negative, then subtract 360 while
      above 360. */
  method QNormalizeAngle(angle: int) returns (r: int)
    ensures 0 <= r <= 360 && (r - angle) % 360 == 0
    ensures r == NormalAngle(angle)
  {
    r := angle;
    while r < 0
      invariant (r - angle) % 360 == 0
      invariant angle < 0 ==> r < 360
      invariant angle >= 0 ==> r == angle
      decreases -r
    {
      r := r + 360;
    }
    while r > 360
      invariant 0 <= r && (r - angle) % 360 == 0
      invariant angle > 0 ==> r > 0
      invariant angle <= 0 ==> r < 360
      decreases r
    {
      r := r - 360;
    }
    NormalAngleSpec(angle);
  }

  /** A rotation component the setters leave: a whole number of degrees in
      [0, 360]. */
  predicate IsAngle(d: real) {
    0.0 <= d <= 360.0 && d == d.Floor as real
  }

  /** The conversion of a float to an int argument, toward zero. */
  function Truncate(d: real): int {
    if d >= 0.0 then d.Floor else -((-d).Floor)
  }

  /** dir & 1 and dir & 2 on a two's complement int. */
  predicate Bit0(d: int) { d % 2 == 1 }
  predicate Bit1(d: int) { (d / 2) % 2 == 1 }

  /** ASCII tolower. */
  function ToLower(c: char): char {
    if 'A' <= c <= 'Z' then (c as int + 32) as char else c
  }

  /** The component of a point that an axis key names: 'x', 'y', and the
      z axis for every other key. */
  function AxisOf(selT: char): int {
    if selT == 'x' then 0 else if selT == 'y' then 1 else 2
  }

  /** p with d added to one component (0 = x, 1 = y, otherwise z). */
  function Shift(p: Point, axis: int, d: real): Point {
    if axis == 0 then p.(x := p.x + d) else if axis == 1 then p.(y := p.y + d) else p.(z := p.z + d)
  }

  /** No mesh occurs twice in ms. */
  predicate AllDifferent(ms: seq<Mesh>) {
    forall i, j :: 0 <= i < j < |ms| ==> ms[i] != ms[j]
  }

  /** A prefix of a sequence without repeats has none. */
  lemma AllDifferentPrefix(a: seq<Mesh>, b: seq<Mesh>)
    requires AllDifferent(a + b)
    ensures AllDifferent(a)
  {
    forall i, j | 0 <= i < j < |a| ensures a[i] != a[j] {
      assert (a + b)[i] == a[i] && (a + b)[j] == a[j];
    }
  }

  /** Two sequences without repeats and without a common mesh together
      have no repeat. */
  lemma AllDifferentAppend(a: seq<Mesh>, b: seq<Mesh>)
    requires AllDifferent(a) && AllDifferent(b)
    requires forall i, j :: 0 <= i < |a| && 0 <= j < |b| ==> a[i] != b[j]
    ensures AllDifferent(a + b)
  {
    forall i, j | 0 <= i < j < |a + b| ensures (a + b)[i] != (a + b)[j] {
      if j < |a| {
        assert (a + b)[i] == a[i] && (a + b)[j] == a[j];
      } else if i < |a| {
        assert (a + b)[i] == a[i] && (a + b)[j] == b[j - |a|];
      } else {
        assert (a + b)[i] == b[i - |a|] && (a + b)[j] == b[j - |a|];
      }
    }
  }

  class GlVisuals {
    var perspectiveProj: bool
    var globalRot: Point
    var globalTranslation: Point
    var mouseLastX: int
    var mouseLastY: int
    var selObj: int
    var selT: char
    var sceneSize: real
    var sceneDist: real
    var t: real
    var milli0: int
    var armadillo: seq<Mesh>
    var car: seq<Mesh>
    var intersection: seq<Mesh>

    /** Five meshes of each kind, all consistent and each a separate
        object; a selection that indexes them or is -1; rotations in whole
        degrees of [0, 360]. */
    ghost predicate Valid()
      reads this, armadillo, car, intersection
    {
      |armadillo| == Levels && |car| == Levels && |intersection| == Levels &&
      AllDifferent(armadillo + car + intersection) &&
      -1 <= selObj < Levels &&
      (forall i :: 0 <= i < Levels ==> armadillo[i].Valid()) &&
      (forall i :: 0 <= i < Levels ==> car[i].Valid()) &&
      (forall i :: 0 <= i < Levels ==> intersection[i].Valid()) &&
      IsAngle(globalRot.x) && IsAngle(globalRot.y) && IsAngle(globalRot.z)
    }

    /** GlVisuals() once its meshes are built: the initial parameters, then
        the viewing angle (0, 90, 60) and a zero translation. */
    constructor (armadillo: seq<Mesh>, car: seq<Mesh>, intersection: seq<Mesh>)
      requires |armadillo| == Levels && |car| == Levels && |intersection| == Levels
      requires forall i :: 0 <= i < Levels ==> armadillo[i].Valid() && car[i].Valid() && intersection[i].Valid()
      requires AllDifferent(armadillo + car + intersection)
      ensures Valid()
      ensures this.armadillo == armadillo && this.car == car && this.intersection == intersection
      ensures milli0 == -1 && t == 0.0 && perspectiveProj && sceneSize == 100.0 && sceneDist == 100.0
      ensures selObj == -1 && selT == 'z'
      ensures globalRot == Point(0.0, 90.0, 60.0) && globalTranslation == Origin
      ensures mouseLastX == 0 && mouseLastY == 0
    {
      this.armadillo, this.car, this.intersection := armadillo, car, intersection;
      milli0 := -1;
      t := 0.0;
      perspectiveProj := true;
      sceneSize := 100.0;
      sceneDist := sceneSize;
      selObj := -1;
      selT := 'z';
      globalRot, globalTranslation := Origin, Origin;
      mouseLastX, mouseLastY := 0, 0;  // left uninitialised by the source
      new;
      SetGlobalXRotation(0);
      SetGlobalYRotation(90);
      SetGlobalZRotation(60);
      SetGlobalXTranslation(0);
      SetGlobalYTranslation(0);
      SetGlobalZTranslation(0);
    }

    /** makeIntersections: with a level of the first mesh selected, replace
        the five intersection meshes by the "both" collisions of that level
        with each level of the second mesh. */
    method MakeIntersections()
      requires Valid()
      modifies this
      ensures Valid()
      ensures armadillo == old(armadillo) && car == old(car) && selObj == old(selObj) && selT == old(selT)
      ensures globalRot == old(globalRot) && globalTranslation == old(globalTranslation)
      ensures t == old(t) && milli0 == old(milli0) && sceneSize == old(sceneSize)
      ensures sceneDist == old(sceneDist) && perspectiveProj == old(perspectiveProj)
      ensures mouseLastX == old(mouseLastX) && mouseLastY == old(mouseLastY)
      ensures selObj < 0 ==> intersection == old(intersection)
      ensures selObj >= 0 ==> forall i :: 0 <= i < Levels ==>
        fresh(intersection[i]) && CollisionOf(intersection[i], armadillo[selObj], car[i])
    {
      if selObj >= 0 {
        var r := CollideLevels(armadillo[selObj], car);
        forall i, j | 0 <= i < 2 * Levels && 0 <= j < Levels ensures (armadillo + car)[i] != r[j] {
          assert fresh(r[j]);
        }
        AllDifferentPrefix(armadillo + car, intersection);
        AllDifferentAppend(armadillo + car, r);
        intersection := r;
      }
    }

    /** m is the "both" collision mesh of a and c: consistent, laid out from
        their emission, with the box of its vertices. */
    static ghost predicate CollisionOf(m: Mesh, a: Mesh, c: Mesh)
      reads m, a, c
    {
      m.Valid() && m.box == MeshBox(m.vertices) &&
      LaidOut(a.Data(), c.Data(),
              Emission(HitsOf(a.Data(), c.Data()), |a.triangles|, |c.triangles|, true),
              m.vertices, m.triangles)
    }

    /** The loop of makeIntersections: the "both" collision of a with each
        mesh of cars, each a new mesh of its own. */
    static method CollideLevels(a: Mesh, cars: seq<Mesh>) returns (r: seq<Mesh>)
      requires a.Valid() && forall i :: 0 <= i < |cars| ==> cars[i].Valid()
      ensures |r| == |cars| && AllDifferent(r)
      ensures forall i :: 0 <= i < |cars| ==> fresh(r[i]) && CollisionOf(r[i], a, cars[i])
    {
      r := [];
      var i := 0;
      while i < |cars|
        invariant 0 <= i <= |cars| && |r| == i && AllDifferent(r)
        invariant forall k :: 0 <= k < i ==> fresh(r[k]) && CollisionOf(r[k], a, cars[k])
      {
        var m := new Mesh.FromCollision(a, cars[i], true);
        r := r + [m];
        i := i + 1;
      }
    }

    /** setGlobalXRotation: the normalised angle, assigned when it differs. */
    method SetGlobalXRotation(angle: int)
      modifies this
      ensures globalRot == old(globalRot).(x := NormalAngle(angle) as real) && IsAngle(globalRot.x)
      ensures globalTranslation == old(globalTranslation) && selObj == old(selObj) && selT == old(selT)
      ensures armadillo == old(armadillo) && car == old(car) && intersection == old(intersection)
      ensures t == old(t) && milli0 == old(milli0) && sceneSize == old(sceneSize)
      ensures sceneDist == old(sceneDist) && perspectiveProj == old(perspectiveProj)
      ensures mouseLastX == old(mouseLastX) && mouseLastY == old(mouseLastY)
    {
      var a := QNormalizeAngle(angle);
      if a as real != globalRot.x {
        globalRot := globalRot.(x := a as real);
      }
    }

    /** setGlobalYRotation, as for the x axis. */
    method SetGlobalYRotation(angle: int)
      modifies this
      ensures globalRot == old(globalRot).(y := NormalAngle(angle) as real) && IsAngle(globalRot.y)
      ensures globalTranslation == old(globalTranslation) && selObj == old(selObj) && selT == old(selT)
      ensures armadillo == old(armadillo) && car == old(car) && intersection == old(intersection)
      ensures t == old(t) && milli0 == old(milli0) && sceneSize == old(sceneSize)
      ensures sceneDist == old(sceneDist) && perspectiveProj == old(perspectiveProj)
      ensures mouseLastX == old(mouseLastX) && mouseLastY == old(mouseLastY)
    {
      var a := QNormalizeAngle(angle);
      if a as real != globalRot.y {
        globalRot := globalRot.(y := a as real);
      }
    }

    /** setGlobalZRotation, as for the x axis. */
    method SetGlobalZRotation(angle: int)
      modifies this
      ensures globalRot == old(globalRot).(z := NormalAngle(angle) as real) && IsAngle(globalRot.z)
      ensures globalTranslation == old(globalTranslation) && selObj == old(selObj) && selT == old(selT)
      ensures armadillo == old(armadillo) && car == old(car) && intersection == old(intersection)
      ensures t == old(t) && milli0 == old(milli0) && sceneSize == old(sceneSize)
      ensures sceneDist == old(sceneDist) && perspectiveProj == old(perspectiveProj)
      ensures mouseLastX == old(mouseLastX) && mouseLastY == old(mouseLastY)
    {
      var a := QNormalizeAngle(angle);
      if a as real != globalRot.z {
        globalRot := globalRot.(z := a as real);
      }
    }

    /** setGlobalXTranslation: d percent of ten scene sizes. */
    method SetGlobalXTranslation(d: int)
      modifies this
      ensures globalTranslation == old(globalTranslation).(x := d as real / 100.0 * 10.0 * sceneSize)
      ensures globalRot == old(globalRot) && selObj == old(selObj) && selT == old(selT)
      ensures armadillo == old(armadillo) && car == old(car) && intersection == old(intersection)
      ensures t == old(t) && milli0 == old(milli0) && sceneSize == old(sceneSize)
      ensures sceneDist == old(sceneDist) && perspectiveProj == old(perspectiveProj)
      ensures mouseLastX == old(mouseLastX) && mouseLastY == old(mouseLastY)
    {
      globalTranslation := globalTranslation.(x := d as real / 100.0 * 10.0 * sceneSize);
    }

    /** setGlobalYTranslation: d percent of ten scene sizes. */
    method SetGlobalYTranslation(d: int)
      modifies this
      ensures globalTranslation == old(globalTranslation).(y := d as real / 100.0 * 10.0 * sceneSize)
      ensures globalRot == old(globalRot) && selObj == old(selObj) && selT == old(selT)
      ensures armadillo == old(armadillo) && car == old(car) && intersection == old(intersection)
      ensures t == old(t) && milli0 == old(milli0) && sceneSize == old(sceneSize)
      ensures sceneDist == old(sceneDist) && perspectiveProj == old(perspectiveProj)
      ensures mouseLastX == old(mouseLastX) && mouseLastY == old(mouseLastY)
    {
      globalTranslation := globalTranslation.(y := d as real / 100.0 * 10.0 * sceneSize);
    }

    /** setGlobalZTranslation: d percent of three scene sizes. */
    method SetGlobalZTranslation(d: int)
      modifies this
      ensures globalTranslation == old(globalTranslation).(z := d as real / 100.0 * 3.0 * sceneSize)
      ensures globalRot == old(globalRot) && selObj == old(selObj) && selT == old(selT)
      ensures armadillo == old(armadillo) && car == old(car) && intersection == old(intersection)
      ensures t == old(t) && milli0 == old(milli0) && sceneSize == old(sceneSize)
      ensures sceneDist == old(sceneDist) && perspectiveProj == old(perspectiveProj)
      ensures mouseLastX == old(mouseLastX) && mouseLastY == old(mouseLastY)
    {
      globalTranslation := globalTranslation.(z := d as real / 100.0 * 3.0 * sceneSize);
    }

    /** setEllapsedMillis: the first call (while milli0 is negative)
        calibrates the origin of time; later calls set t to the seconds
        elapsed since it, and the origin never moves again. */
    method SetEllapsedMillis(millis: int)
      modifies this
      ensures old(milli0) < 0 ==> milli0 == millis && t == old(t)
      ensures old(milli0) >= 0 ==> milli0 == old(milli0) && t == (millis - milli0) as real / 1000.0
      ensures globalRot == old(globalRot) && globalTranslation == old(globalTranslation)
      ensures selObj == old(selObj) && selT == old(selT) && sceneSize == old(sceneSize)
      ensures sceneDist == old(sceneDist) && perspectiveProj == old(perspectiveProj)
      ensures mouseLastX == old(mouseLastX) && mouseLastY == old(mouseLastY)
      ensures armadillo == old(armadillo) && car == old(car) && intersection == old(intersection)
    {
      if milli0 < 0 {
        milli0 := millis;
      } else {
        t := (millis - milli0) as real / 1000.0;
      }
    }

    /** mousePressed: remember where the drag starts. */
    method MousePressed(x: int, y: int)
      modifies this
      ensures mouseLastX == x && mouseLastY == y
      ensures globalRot == old(globalRot) && globalTranslation == old(globalTranslation)
      ensures selObj == old(selObj) && selT == old(selT) && sceneSize == old(sceneSize)
      ensures t == old(t) && milli0 == old(milli0)
      ensures sceneDist == old(sceneDist) && perspectiveProj == old(perspectiveProj)
      ensures armadillo == old(armadillo) && car == old(car) && intersection == old(intersection)
    {
      mouseLastX, mouseLastY := x, y;
    }

    /** mouseMoved: rotate about y by half the horizontal drag and, about z
        without a modifier or about x with one, by half the vertical drag. */
    method MouseMoved(x: int, y: int, modif: int)
      requires Valid()
      modifies this
      ensures Valid()
      ensures var dx, dy := x - old(mouseLastX), y - old(mouseLastY);
        var g := old(globalRot);
        globalRot ==
          if modif == 0 then Point(g.x, NormalAngle(Truncate(g.y + (dx / 2) as real)) as real,
                                   NormalAngle(Truncate(g.z + (dy / 2) as real)) as real)
          else Point(NormalAngle(Truncate(g.x + (dy / 2) as real)) as real,
                     NormalAngle(Truncate(g.y + (dx / 2) as real)) as real, g.z)
      ensures mouseLastX == x && mouseLastY == y
      ensures globalTranslation == old(globalTranslation) && selObj == old(selObj) && selT == old(selT)
      ensures t == old(t) && milli0 == old(milli0) && sceneSize == old(sceneSize)
      ensures sceneDist == old(sceneDist) && perspectiveProj == old(perspectiveProj)
      ensures armadillo == old(armadillo) && car == old(car) && intersection == old(intersection)
    {
      var dx := x - mouseLastX;
      var dy := y - mouseLastY;
      if modif == 0 {
        SetGlobalYRotation(Truncate(globalRot.y + (dx / 2) as real));
        SetGlobalZRotation(Truncate(globalRot.z + (dy / 2) as real));
      } else {
        SetGlobalYRotation(Truncate(globalRot.y + (dx / 2) as real));
        SetGlobalXRotation(Truncate(globalRot.x + (dy / 2) as real));
      }
      mouseLastX, mouseLastY := x, y;
    }

    /** mouseWheel: one twentieth of the scene size along the selected axis,
        backwards for a nonzero dir; the camera moves when no level is
        selected, otherwise the selected level of the first mesh does. */
    method MouseWheel(dir: int, modif: int)
      requires Valid()
      modifies this, if 0 <= selObj < |armadillo| then {armadillo[selObj]} else {}
      ensures Valid()
      ensures selObj == old(selObj) && selT == old(selT) && globalRot == old(globalRot)
      ensures armadillo == old(armadillo) && car == old(car) && intersection == old(intersection)
      ensures t == old(t) && milli0 == old(milli0) && sceneSize == old(sceneSize)
      ensures sceneDist == old(sceneDist) && perspectiveProj == old(perspectiveProj)
      ensures mouseLastX == old(mouseLastX) && mouseLastY == old(mouseLastY)
      ensures var d := if dir != 0 then -(sceneSize / 20.0) else sceneSize / 20.0;
        if selObj < 0 then globalTranslation == Shift(old(globalTranslation), AxisOf(selT), d)
        else (globalTranslation == old(globalTranslation) &&
              Moved(armadillo[selObj], old(armadillo[selObj].vertices), old(armadillo[selObj].triangles),
                    old(armadillo[selObj].vertexTriangles), old(armadillo[selObj].box), Shift(Origin, AxisOf(selT), d)))
    {
      var d := if dir != 0 then -(sceneSize / 20.0) else sceneSize / 20.0;
      if selObj < 0 {
        globalTranslation := Shift(globalTranslation, AxisOf(selT), d);
      } else {
        TranslateSelected(Shift(Origin, AxisOf(selT), d));
      }
    }

    /** arrowEvent: one twentieth of the scene size, backwards when bit 0 of
        dir is set; bit 1 chooses x over z for the camera and z over x for
        the selected level. */
    method ArrowEvent(dir: int, modif: int)
      requires Valid()
      modifies this, if 0 <= selObj < |armadillo| then {armadillo[selObj]} else {}
      ensures Valid()
      ensures selObj == old(selObj) && selT == old(selT) && globalRot == old(globalRot)
      ensures armadillo == old(armadillo) && car == old(car) && intersection == old(intersection)
      ensures t == old(t) && milli0 == old(milli0) && sceneSize == old(sceneSize)
      ensures sceneDist == old(sceneDist) && perspectiveProj == old(perspectiveProj)
      ensures mouseLastX == old(mouseLastX) && mouseLastY == old(mouseLastY)
      ensures var d := if Bit0(dir) then -(sceneSize / 20.0) else sceneSize / 20.0;
        if selObj < 0 then globalTranslation == Shift(old(globalTranslation), if Bit1(dir) then 0 else 2, d)
        else (globalTranslation == old(globalTranslation) &&
              Moved(armadillo[selObj], old(armadillo[selObj].vertices), old(armadillo[selObj].triangles),
                    old(armadillo[selObj].vertexTriangles), old(armadillo[selObj].box),
                    Shift(Origin, if Bit1(dir) then 2 else 0, d)))
    {
      var d := if Bit0(dir) then -(sceneSize / 20.0) else sceneSize / 20.0;
      if selObj < 0 {
        globalTranslation := Shift(globalTranslation, if Bit1(dir) then 0 else 2, d);
      } else {
        TranslateSelected(Shift(Origin, if Bit1(dir) then 2 else 0, d));
      }
    }

    /** m is the mesh with vertices vs, triangles tris, lists adj and box
        box translated by p: every vertex and the box moved by p, the
        triangles' cached data recomputed and the lists kept. */
    ghost predicate Moved(m: Mesh, vs: seq<Point>, tris: seq<Triangle>, adj: seq<set<int>>, box: Box, p: Point)
      reads m
    {
      |m.vertices| == |vs| && (forall k :: 0 <= k < |vs| ==> m.vertices[k] == Add(vs[k], p)) &&
      m.box == BoxAdd(box, p) &&
      |m.triangles| == |tris| && WellIndexed(tris, |m.vertices|) && (forall k :: 0 <= k < |tris| ==> m.triangles[k] == UpdateData(m.vertices, tris[k])) &&
      m.vertexTriangles == adj
    }

    /** armadillo[selObj]->translate(p), which keeps every mesh of the scene
        consistent and leaves the other fourteen as they were. */
    method TranslateSelected(p: Point)
      requires Valid() && selObj >= 0
      modifies armadillo[selObj]
      ensures Valid()
      ensures Moved(armadillo[selObj], old(armadillo[selObj].vertices), old(armadillo[selObj].triangles),
                    old(armadillo[selObj].vertexTriangles), old(armadillo[selObj].box), p)
      ensures forall i :: 0 <= i < 3 * Levels && (armadillo + car + intersection)[i] != armadillo[selObj] ==>
        unchanged((armadillo + car + intersection)[i])
    {
      var m := armadillo[selObj];
      m.Translate(p);
    }

    /** keyEvent, after tolower: a key release clears the selection; among
        presses, 'x' to 'z' choose the axis, '1' to '5' select a level of
        the first mesh, 'i' rebuilds the intersections and other keys change
        nothing. */
    method KeyEvent(key: char, x: int, y: int, up: bool)
      requires Valid()
      modifies this
      ensures Valid()
      ensures var k := ToLower(key);
        && selObj == (if up then -1 else if '1' <= k <= '5' then k as int - '1' as int else old(selObj))
        && selT == (if !up && 'x' <= k <= 'z' then k else old(selT))
      ensures armadillo == old(armadillo) && car == old(car)
      ensures globalRot == old(globalRot) && globalTranslation == old(globalTranslation)
      ensures t == old(t) && milli0 == old(milli0) && sceneSize == old(sceneSize)
      ensures sceneDist == old(sceneDist) && perspectiveProj == old(perspectiveProj)
      ensures mouseLastX == old(mouseLastX) && mouseLastY == old(mouseLastY)
      ensures !(!up && ToLower(key) == 'i' && old(selObj) >= 0) ==> intersection == old(intersection)
      ensures !up && ToLower(key) == 'i' && old(selObj) >= 0 ==> forall i :: 0 <= i < Levels ==>
        fresh(intersection[i]) && CollisionOf(intersection[i], armadillo[selObj], car[i])
    {
      var k := ToLower(key);
      if up {
        selObj := -1;
      } else if 'x' <= k <= 'z' {
        selT := k;
      } else if '1' <= k <= '5' {
        selObj := k as int - '0' as int - 1;
      } else if k == 'i' {
        MakeIntersections();
      }
    }
  }
}
