/** The mesh builder of Assets/Utility.cs: a polygon becomes a Unity mesh
    whose index buffer is a triangle fan around the first vertex. */
module MeshBuilder {
  import opened Vectors

  /** The three buffers of a Unity Mesh that the builder fills. */
  datatype Mesh = Mesh(vertices: seq<Vector3>, uv: seq<Vector2>, triangles: seq<int>)

  /** The k-th triangle of an index buffer: entries 3k, 3k+1 and 3k+2. */
  function TriangleAt(t: seq<int>, k: int): (int, int, int)
    requires 0 <= k && 3 * k + 2 < |t|
  {
    (t[3 * k], t[3 * k + 1], t[3 * k + 2])
  }

  /** `t` is the fan index buffer of an n-gon: n - 2 triangles, the k-th
      being (0, k + 2, k + 1). */
  predicate IsFan(t: seq<int>, n: int)
  {
    n >= 2 && |t| == 3 * (n - 2) &&
    forall k :: 0 <= k < n - 2 ==> TriangleAt(t, k) == (0, k + 2, k + 1)
  }

  /** `m` is the mesh built for `polygon`: the vertices are the polygon's
      points lifted to z = 0, the uv coordinates are the points themselves
      and the triangles form the fan. */
  predicate IsFanMeshOf(m: Mesh, polygon: seq<Vector2>)
  {
    && |m.vertices| == |polygon|
    && (forall i :: 0 <= i < |polygon| ==> m.vertices[i] == Lift(polygon[i]))
    && m.uv == polygon
    && IsFan(m.triangles, |polygon|)
  }

  /** `GenerateMeshForPolygon`. The source allocates an index array of length
      (n - 2) * 3, so a polygon of fewer than 2 points makes the allocation fail. */
  method GenerateMeshForPolygon(polygon: seq<Vector2>) returns (output: Mesh)
    requires |polygon| >= 2
    ensures IsFanMeshOf(output, polygon)
    ensures |output.triangles| == 3 * (|polygon| - 2)
  {
    var vertices := new Vector3[|polygon|];
    for i := 0 to |polygon|
      invariant forall j :: 0 <= j < i ==> vertices[j] == Lift(polygon[j])
    {
      vertices[i] := Lift(polygon[i]);
    }

    var triangles := new int[(|polygon| - 2) * 3];
    var indexIndex := 0;
    for i := 0 to |polygon| - 2
      modifies triangles
      invariant indexIndex == 3 * i
      invariant forall k :: 0 <= k < i ==> TriangleAt(triangles[..], k) == (0, k + 2, k + 1)
    {
      ghost var before := triangles[..];
      triangles[indexIndex] := 0;
      indexIndex := indexIndex + 1;
      triangles[indexIndex] := i + 2;
      indexIndex := indexIndex + 1;
      triangles[indexIndex] := i + 1;
      indexIndex := indexIndex + 1;
      assert forall j :: 0 <= j < 3 * i ==> triangles[..][j] == before[j];
      assert forall k :: 0 <= k < i ==> TriangleAt(triangles[..], k) == TriangleAt(before, k);
    }

    output := Mesh(vertices[..], polygon, triangles[..]);
  }

  /** Every index of a fan buffer names a vertex of the polygon, and the three
      corners of each triangle are distinct vertices. */
  lemma FanIndicesValid(t: seq<int>, n: int)
    requires IsFan(t, n)
    ensures forall j :: 0 <= j < |t| ==> 0 <= t[j] < n
    ensures forall k :: 0 <= k < n - 2 ==>
              t[3 * k] != t[3 * k + 1] && t[3 * k + 1] != t[3 * k + 2] && t[3 * k] != t[3 * k + 2]
  {
    forall j | 0 <= j < |t|
      ensures 0 <= t[j] < n
    {
      var k := j / 3;
      assert 3 * k <= j < 3 * k + 3;
      assert TriangleAt(t, k) == (0, k + 2, k + 1);
    }
    forall k | 0 <= k < n - 2
      ensures t[3 * k] != t[3 * k + 1] && t[3 * k + 1] != t[3 * k + 2] && t[3 * k] != t[3 * k + 2]
    {
      assert TriangleAt(t, k) == (0, k + 2, k + 1);
    }
  }

  /** The fan buffer of an n-gon is unique. */
  lemma FanUnique(t: seq<int>, u: seq<int>, n: int)
    requires IsFan(t, n) && IsFan(u, n)
    ensures t == u
  {
    forall j | 0 <= j < |t|
      ensures t[j] == u[j]
    {
      var k := j / 3;
      assert 3 * k <= j < 3 * k + 3;
      assert TriangleAt(t, k) == TriangleAt(u, k);
    }
  }

  /** A triangle gives the single triangle (0, 2, 1); a segment gives none. */
  lemma SmallFans(t: seq<int>)
    ensures IsFan(t, 3) <==> t == [0, 2, 1]
    ensures IsFan(t, 2) <==> t == []
  {
    if IsFan(t, 3) {
      assert TriangleAt(t, 0) == (0, 2, 1);
    }
    if t == [0, 2, 1] {
      assert TriangleAt(t, 0) == (0, 2, 1);
    }
  }
}
