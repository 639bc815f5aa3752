/** The arithmetic of PlayerControllerComponent.SplitEnvironmentPolygon
    (Assets/PlayerControllerComponent.cs): a polygon is cut by a ray of a given
    radius into a left and a right fragment, each clipped against an offset
    copy of the ray, measured, given its share of the mass and kept or
    discarded. The engine objects it creates are not modelled; a kept fragment
    is returned as a value. The last lemmas relate the fan mesh of a fragment
    to its PolygonArea. */
module Split {
  import opened Results
  import opened Vectors
  import opened PolygonCut
  import opened MeshBuilder

  /** A Ray2D: an origin and a direction (the direction is taken as given). */
  datatype Ray = Ray(origin: Vector2, direction: Vector2)

  /** The ray offset to the left by `radius`, pointing the same way. */
  function LeftRay(ray: Ray, radius: real): Ray
  {
    Ray(Sub(ray.origin, Scale(Right(ray.direction), radius)), ray.direction)
  }

  /** The ray offset to the right by `radius`, pointing the other way. */
  function RightRay(ray: Ray, radius: real): Ray
  {
    Ray(Add(ray.origin, Scale(Right(ray.direction), radius)), Neg(ray.direction))
  }

  /** The left fragment keeps the points at least radius * |d|^2 to the left
      of the ray, the right fragment those at least as far to its right. */
  lemma OffsetRaySides(ray: Ray, radius: real, p: Vector2)
    ensures Inside(LeftRay(ray, radius).origin, LeftRay(ray, radius).direction, p)
            <==> Side(ray.origin, ray.direction, p) <= -radius * Dot(ray.direction, ray.direction)
    ensures Inside(RightRay(ray, radius).origin, RightRay(ray, radius).direction, p)
            <==> Side(ray.origin, ray.direction, p) >= radius * Dot(ray.direction, ray.direction)
  {
    LeftRaySide(ray, radius, p);
    RightRaySide(ray, radius, p);
  }

  /** The left clip's side function is the ray's, shifted by radius * |d|^2. */
  lemma LeftRaySide(ray: Ray, radius: real, p: Vector2)
    ensures Dot(Sub(p, LeftRay(ray, radius).origin), Vector2(ray.direction.y, -ray.direction.x))
            == Side(ray.origin, ray.direction, p) + radius * Dot(ray.direction, ray.direction)
  {
    var d := ray.direction;
    var q := Sub(p, ray.origin);
    assert Sub(p, LeftRay(ray, radius).origin) == Vector2(q.x + d.y * radius, q.y - d.x * radius);
    assert Side(ray.origin, d, p) == q.x * d.y - q.y * d.x;
  }

  /** The right clip's side function is the ray's, negated and shifted by radius * |d|^2. */
  lemma RightRaySide(ray: Ray, radius: real, p: Vector2)
    ensures Dot(Sub(p, RightRay(ray, radius).origin), Vector2(-ray.direction.y, ray.direction.x))
            == radius * Dot(ray.direction, ray.direction) - Side(ray.origin, ray.direction, p)
  {
    var d := ray.direction;
    var q := Sub(p, ray.origin);
    assert Sub(p, RightRay(ray, radius).origin) == Vector2(q.x - d.y * radius, q.y + d.x * radius);
    assert Side(ray.origin, d, p) == q.x * d.y - q.y * d.x;
  }

  /** With a positive radius and a non-zero direction the fragments are
      disjoint: no point, and in particular no point of the ray's own line,
      is kept by both clips. */
  lemma OffsetRaysSeparate(ray: Ray, radius: real, p: Vector2)
    requires radius > 0.0 && Dot(ray.direction, ray.direction) > 0.0
    ensures !(Inside(LeftRay(ray, radius).origin, LeftRay(ray, radius).direction, p)
              && Inside(RightRay(ray, radius).origin, RightRay(ray, radius).direction, p))
    ensures Side(ray.origin, ray.direction, p) == 0.0 ==>
              !Inside(LeftRay(ray, radius).origin, LeftRay(ray, radius).direction, p)
              && !Inside(RightRay(ray, radius).origin, RightRay(ray, radius).direction, p)
  {
    var n := Dot(ray.direction, ray.direction);
    assert radius * n > 0.0;
    OffsetRaySides(ray, radius, p);
  }

  /** With radius 0 the two clips together keep every point. */
  lemma ZeroRadiusCovers(ray: Ray, p: Vector2)
    ensures Inside(LeftRay(ray, 0.0).origin, LeftRay(ray, 0.0).direction, p)
            || Inside(RightRay(ray, 0.0).origin, RightRay(ray, 0.0).direction, p)
  {
    OffsetRaySides(ray, 0.0, p);
  }

  /** `originalMass`: the Rigidbody2D's mass, or 1 when there is none. */
  function OriginalMass(rbMass: Option<real>): (m: real)
    ensures rbMass.None? ==> m == 1.0
    ensures rbMass.Some? ==> m == rbMass.value
  {
    if rbMass.Some? then rbMass.value else 1.0
  }

  /** A fragment's share of the mass, originalMass * area / totalArea; the
      float division by a zero total has no real value. */
  function FragmentMass(originalMass: real, area: real, totalArea: real): (r: Result<real>)
    ensures r.Err? <==> totalArea == 0.0
    ensures r.Err? ==> r.error == NotFinite
    ensures r.Ok? ==> r.value * totalArea == originalMass * area
  {
    if totalArea == 0.0 then Err(NotFinite) else Ok(originalMass * area / totalArea)
  }

  /** The two shares add up to the original mass and are proportional to the areas. */
  lemma MassConserved(originalMass: real, leftArea: real, rightArea: real)
    requires leftArea + rightArea != 0.0
    ensures FragmentMass(originalMass, leftArea, leftArea + rightArea).value
            + FragmentMass(originalMass, rightArea, leftArea + rightArea).value == originalMass
    ensures FragmentMass(originalMass, leftArea, leftArea + rightArea).value * rightArea
            == FragmentMass(originalMass, rightArea, leftArea + rightArea).value * leftArea
  {
    var t := leftArea + rightArea;
    var lm := FragmentMass(originalMass, leftArea, t).value;
    var rm := FragmentMass(originalMass, rightArea, t).value;
    assert (lm + rm) * t == originalMass * t;
    CancelFactor(lm + rm, originalMass, t);
    assert lm * rightArea * t == rm * leftArea * t by {
      assert lm * rightArea * t == originalMass * leftArea * rightArea;
      assert rm * leftArea * t == originalMass * rightArea * leftArea;
    }
    CancelFactor(lm * rightArea, rm * leftArea, t);
  }

  /** The keep rule: more than two points and an area above the minimum. A
      kept fragment is a valid input of the mesh builder. */
  predicate Kept(points: seq<Vector2>, area: real, minPolygonArea: real)
  {
    |points| > 2 && area > minPolygonArea
  }

  /** A fragment the split keeps: its local points, its mesh and, when the
      original had a Rigidbody2D, its mass. */
  datatype Fragment = Fragment(points: seq<Vector2>, mesh: Mesh, mass: Option<Result<real>>)

  function MapPoints(f: Vector2 -> Vector2, points: seq<Vector2>): (r: seq<Vector2>)
    ensures |r| == |points|
    ensures forall i :: 0 <= i < |points| ==> r[i] == f(points[i])
  {
    seq(|points|, i requires 0 <= i < |points| => f(points[i]))
  }

  /** The local points of the fragment cut by `clipRay`. */
  function FragmentPoints(clipRay: Ray, points: seq<Vector2>, localToWorld: Vector2 -> Vector2,
                          worldToLocal: Vector2 -> Vector2): seq<Vector2>
  {
    MapPoints(worldToLocal, Clip(clipRay.origin, clipRay.direction, MapPoints(localToWorld, points)))
  }

  /** The mass a fragment carries: none without a Rigidbody2D, otherwise its
      share of the original mass. */
  function MassOf(rbMass: Option<real>, area: real, totalArea: real): Option<Result<real>>
  {
    if rbMass.Some? then Some(FragmentMass(OriginalMass(rbMass), area, totalArea)) else None
  }

  /** `fragment` is what the split yields for the local points `fp` when the
      other fragment's area is `otherArea`: present exactly when the keep rule
      holds, and then those points, their fan mesh and their mass. */
  predicate IsFragment(fragment: Option<Fragment>, fp: seq<Vector2>, otherArea: real,
                       rbMass: Option<real>, minPolygonArea: real)
  {
    && (fragment.Some? <==> Kept(fp, Area(fp), minPolygonArea))
    && (fragment.Some? ==>
          && fragment.value.points == fp
          && IsFanMeshOf(fragment.value.mesh, fp)
          && fragment.value.mass == MassOf(rbMass, Area(fp), Area(fp) + otherArea))
  }

  /** The in-place local<->world rewrite of a point array. */
  method TransformPoints(a: array<Vector2>, f: Vector2 -> Vector2)
    modifies a
    ensures a[..] == MapPoints(f, old(a[..]))
  {
    for j := 0 to a.Length
      invariant forall k :: 0 <= k < j ==> a[k] == f(old(a[k]))
      invariant forall k :: j <= k < a.Length ==> a[k] == old(a[k])
    {
      a[j] := f(a[j]);
    }
  }

  /** One side of the split: the world points clipped against `clipRay`,
      copied to an array, rewritten in place into local space and measured. */
  method ClipToLocal(clipRay: Ray, worldPoints: seq<Vector2>, worldToLocal: Vector2 -> Vector2)
    returns (localPoints: seq<Vector2>, area: real)
    requires |worldPoints| > 0
    ensures localPoints == MapPoints(worldToLocal, Clip(clipRay.origin, clipRay.direction, worldPoints))
    ensures area == Area(localPoints)
  {
    var clipped := ClipPolygon(clipRay.origin, clipRay.direction, worldPoints);
    var points := new Vector2[|clipped|](k requires 0 <= k < |clipped| => clipped[k]);
    assert points[..] == clipped;
    TransformPoints(points, worldToLocal);
    localPoints := points[..];
    area := PolygonArea(localPoints);
  }

  /** The keep rule applied to one side: a fragment with its fan mesh and, when
      the original had a Rigidbody2D, its share of the mass. */
  method KeepFragment(localPoints: seq<Vector2>, area: real, otherArea: real, rbMass: Option<real>,
                      originalMass: real, minPolygonArea: real)
    returns (fragment: Option<Fragment>)
    requires area == Area(localPoints)
    requires originalMass == OriginalMass(rbMass)
    ensures IsFragment(fragment, localPoints, otherArea, rbMass, minPolygonArea)
  {
    var totalArea := otherArea + area;
    var mass := FragmentMass(originalMass, area, totalArea);
    assert Area(localPoints) + otherArea == totalArea;
    fragment := None;
    if |localPoints| > 2 && area > minPolygonArea {
      var mesh := GenerateMeshForPolygon(localPoints);
      fragment := Some(Fragment(localPoints, mesh, if rbMass.Some? then Some(mass) else None));
    }
  }

  /** `SplitEnvironmentPolygon`, without the engine objects: the collider's
      points, its local->world and world->local transforms and the mass of its
      Rigidbody2D (None when it has none) are inputs; the two fragments it
      would create are outputs. The clip of an empty collider would read
      outside the array, so the collider must have points. */
  method SplitEnvironmentPolygon(ray: Ray, radius: real, points: seq<Vector2>,
                                 localToWorld: Vector2 -> Vector2, worldToLocal: Vector2 -> Vector2,
                                 rbMass: Option<real>, minPolygonArea: real)
    returns (left: Option<Fragment>, right: Option<Fragment>)
    requires |points| > 0
    ensures var lp := FragmentPoints(LeftRay(ray, radius), points, localToWorld, worldToLocal);
            var rp := FragmentPoints(RightRay(ray, radius), points, localToWorld, worldToLocal);
            && IsFragment(left, lp, Area(rp), rbMass, minPolygonArea)
            && IsFragment(right, rp, Area(lp), rbMass, minPolygonArea)
  {
    var rightVector := Right(ray.direction);
    var leftRay := Ray(Sub(ray.origin, Scale(rightVector, radius)), ray.direction);
    var rightRay := Ray(Add(ray.origin, Scale(rightVector, radius)), Neg(ray.direction));

    var worldPoints := new Vector2[|points|];
    for j := 0 to |points|
      invariant forall k :: 0 <= k < j ==> worldPoints[k] == localToWorld(points[k])
    {
      worldPoints[j] := localToWorld(points[j]);
    }
    assert worldPoints[..] == MapPoints(localToWorld, points);

    var originalMass := 1.0;
    if rbMass.Some? {
      originalMass := rbMass.value;
    }

    var leftPoints, leftArea := ClipToLocal(leftRay, worldPoints[..], worldToLocal);
    var rightPoints, rightArea := ClipToLocal(rightRay, worldPoints[..], worldToLocal);

    left := KeepFragment(leftPoints, leftArea, rightArea, rbMass, originalMass, minPolygonArea);
    right := KeepFragment(rightPoints, rightArea, leftArea, rbMass, originalMass, minPolygonArea);
  }

  /** The x, y part of a mesh vertex. */
  function Xy(v: Vector3): Vector2
  {
    Vector2(v.x, v.y)
  }

  /** The summed cross products of the first k triangles of a fan mesh, each
      taken in its index-buffer order (corner 0 to corner 1, corner 0 to
      corner 2). */
  function TrianglesArea(m: Mesh, k: int): real
    requires IsFan(m.triangles, |m.vertices|)
    requires 0 <= k <= |m.vertices| - 2
  {
    if k == 0 then 0.0
    else
      var (a, b, c) := TriangleAt(m.triangles, k - 1);
      TrianglesArea(m, k - 1)
      + Cross2D(Sub(Xy(m.vertices[b]), Xy(m.vertices[a])), Sub(Xy(m.vertices[c]), Xy(m.vertices[a])))
  }

  lemma {:induction false} TrianglesAreaIsNegatedFan(m: Mesh, polygon: seq<Vector2>, k: int)
    requires IsFanMeshOf(m, polygon)
    requires 0 <= k <= |polygon| - 2
    ensures TrianglesArea(m, k) == -FanSum(polygon, k + 2)
  {
    if k > 0 {
      TrianglesAreaIsNegatedFan(m, polygon, k - 1);
      assert TriangleAt(m.triangles, k - 1) == (0, k + 1, k);
      assert Xy(m.vertices[0]) == polygon[0];
      assert Xy(m.vertices[k]) == polygon[k];
      assert Xy(m.vertices[k + 1]) == polygon[k + 1];
      CrossProperties(Sub(polygon[k], polygon[0]), Sub(polygon[k + 1], polygon[0]));
    }
  }

  /** The fan mesh is wound against the polygon: its triangles, in the order
      the index buffer lists their corners, add up to minus PolygonArea. */
  lemma FanMeshWinding(m: Mesh, polygon: seq<Vector2>)
    requires IsFanMeshOf(m, polygon)
    requires |polygon| >= 3
    ensures TrianglesArea(m, |polygon| - 2) == -Area(polygon)
  {
    TrianglesAreaIsNegatedFan(m, polygon, |polygon| - 2);
  }

  /** A kept fragment has at least three points, an area above the minimum
      and a mesh of |points| - 2 triangles; when both fragments are kept with
      a mass and the total area is not 0, the two masses add up to the
      original one and are proportional to the areas. */
  lemma SplitFragments(left: Option<Fragment>, right: Option<Fragment>, lp: seq<Vector2>, rp: seq<Vector2>,
                       rbMass: Option<real>, minPolygonArea: real)
    requires IsFragment(left, lp, Area(rp), rbMass, minPolygonArea)
    requires IsFragment(right, rp, Area(lp), rbMass, minPolygonArea)
    ensures left.Some? ==> |left.value.points| >= 3 && Area(left.value.points) > minPolygonArea
                           && |left.value.mesh.triangles| == 3 * (|lp| - 2)
    ensures left.Some? && right.Some? && rbMass.Some? && Area(lp) + Area(rp) != 0.0 ==>
              && left.value.mass.value.value + right.value.mass.value.value == rbMass.value
              && left.value.mass.value.value * Area(rp) == right.value.mass.value.value * Area(lp)
  {
    if left.Some? && right.Some? && rbMass.Some? && Area(lp) + Area(rp) != 0.0 {
      MassConserved(rbMass.value, Area(lp), Area(rp));
      assert Area(rp) + Area(lp) == Area(lp) + Area(rp);
    }
  }
}
