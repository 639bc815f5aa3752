# SpaceGameJam 2D geometry kit, in Dafny

This project models the geometry core of the SpaceGameJam Unity game:

- the mutable `Matrix2x2` class;
- three helpers from the static `Math2d` class (`RayRayIntersection`, `ConvertToRange`, `GeometricMean`);
- the polygon cutting of `PlayerControllerComponent`: `LineIntersectionPoint`, `Right`, `RightOf`, the half-plane clipper `ClipPolygon`, `Cross2D`, `PolygonArea` and the arithmetic of `SplitEnvironmentPolygon`;
- the triangle-fan mesh builder `Utility.GenerateMeshForPolygon`.

Modelling choices:

- `float` is `real`, so every `== 0` and `> 0` test is exact.
- Unity's `Vector2`/`Vector3` are datatypes (module `Vectors`).
- An exception becomes an `Err` value (module `Results`).
- A float division by zero, which yields an IEEE infinity or NaN in the source, becomes `Err(NotFinite)`.

Modules:

- `Matrices` (matrix2x2.dfy):
  - The abstract value `Mat` and its algebra.
  - The class `Matrix2x2`, whose `float[,]` buffer is an `array2<real>`. Its methods update the buffer in place or return fresh matrices, as the source does.
- `Math2d` (math2d.dfy):
  - `RayRayIntersection` drives a `Matrix2x2` column by column and is proved to compute Cramer's solution.
  - `GeometricMean` is a loop proved to compute the mean.
- `PolygonCut` (polygon_cut.dfy):
  - Line intersection in A·x + B·y = C form.
  - `ClipPolygon`, a loop over the subject, proved equal to a recursive specification `Clip`. The properties of the clip are proved about `Clip`.
  - `PolygonArea`, proved against the fan sum and the shoelace formula.
- `MeshBuilder` (mesh.dfy): the fan index buffer, filled through a running `indexIndex` counter.
- `Split` (split.dfy):
  - The offset rays, the mass split and the keep rule of `SplitEnvironmentPolygon`.
  - The method itself, with the collider's points, its two transforms and its Rigidbody2D mass as inputs. The fragments it would spawn are returned as values.
  - Its per-side steps are two helper methods, `ClipToLocal` and `KeepFragment`. In the source the same steps are written out twice, inline.

`RayRayIntersection` and `RayRayPoint` treat the rays as lines: as in the source, the sign of the parameters is not checked.

## Model

| member | source | states |
|---|---|---|
| Matrices.WithEntry | Assets/Matrix2x2.cs:151-158 | writing one entry sets it and leaves the other three unchanged |
| Matrices.IdentityDeterminant | Assets/Matrix2x2.cs:30-39 | `identity` has determinant 1 and is its own (as-written) inverse |
| Matrices.SingularConstants | Assets/Matrix2x2.cs:47-70 | `zero` and `one` have determinant 0 |
| Matrices.TransposedInvolution | Assets/Matrix2x2.cs:92-103 | transposing twice is the identity; the transpose swaps (i, j) with (j, i) and keeps the determinant |
| Matrices.DetInverseAsWritten | Assets/Matrix2x2.cs:108-120 | the inverse as written has determinant 1/det |
| Matrices.InverseAsWrittenInvolution | Assets/Matrix2x2.cs:191-201 | inverting twice restores the original matrix |
| Matrices.InverseAsWrittenIsTransposedInverse | Assets/Matrix2x2.cs:114-117 | the source's inverse is the transpose of the true inverse |
| Matrices.InverseAsWrittenOnlySymmetric | Assets/Matrix2x2.cs:108-120 | for det ≠ 0, M · inverse(M) is the identity if and only if M is symmetric |
| Matrices.InverseAsWrittenNotInverse | Assets/Matrix2x2.cs:114-118 | [[1, 1], [0, 1]] has determinant 1, yet M · inverse(M) is not the identity |
| Matrices.TrueInverse | Assets/Matrix2x2.cs:105-120 | adjugate / det is a two-sided inverse |
| Matrices.ColRowRoundTrip | Assets/Matrix2x2.cs:208-267 | after writing row/column i, reading it back gives the vector; the other row/column is unchanged; writing back what was read changes nothing |
| Matrices.SumNegatedIsDifference | Assets/Matrix2x2.cs:364-368 | mat1 + (-1)·mat2 is element-wise mat1 - mat2 |
| Matrices.InverseAsWrittenEntries | Assets/Matrix2x2.cs:191-201 | the inverse as written is, entry by entry, the swapped and negated cofactors divided by det, as `Invert()` writes them |
| Matrices.Matrix2x2.constructor | Assets/Matrix2x2.cs:169-172 | a fresh 2×2 buffer holding the zero matrix |
| Matrices.Matrix2x2.Identity | Assets/Matrix2x2.cs:30-39 | a fresh matrix equal to the identity |
| Matrices.Matrix2x2.Zero | Assets/Matrix2x2.cs:47-53 | a fresh zero matrix |
| Matrices.Matrix2x2.One | Assets/Matrix2x2.cs:59-70 | a fresh matrix of ones |
| Matrices.Matrix2x2.IsIdentity | Assets/Matrix2x2.cs:79-85 | true exactly when the value is the identity |
| Matrices.Matrix2x2.Determinant | Assets/Matrix2x2.cs:126-132 | m00·m11 − m10·m01; 0 exactly when the rows are proportional |
| Matrices.Matrix2x2.Get | Assets/Matrix2x2.cs:141-150 | IndexOutOfRange exactly when a key is outside {0, 1}; otherwise the entry |
| Matrices.Matrix2x2.Set | Assets/Matrix2x2.cs:151-158 | IndexOutOfRange (nothing changed) exactly when a key is outside {0, 1}; otherwise exactly that entry changes |
| Matrices.Matrix2x2.Transposed | Assets/Matrix2x2.cs:92-103 | a fresh matrix holding the transpose; the receiver is untouched |
| Matrices.Matrix2x2.Transpose | Assets/Matrix2x2.cs:181-186 | the buffer now holds the transpose of its old value |
| Matrices.Matrix2x2.Inverse | Assets/Matrix2x2.cs:108-120 | a fresh matrix holding the cofactor matrix / det |
| Matrices.Matrix2x2.Invert | Assets/Matrix2x2.cs:191-201 | the buffer now holds what `inverse` returns for its old value |
| Matrices.Matrix2x2.GetRow | Assets/Matrix2x2.cs:208-219 | IndexOutOfRange exactly for a row outside {0, 1}; otherwise that row |
| Matrices.Matrix2x2.GetCol | Assets/Matrix2x2.cs:226-237 | IndexOutOfRange exactly for a column outside {0, 1}; otherwise that column |
| Matrices.Matrix2x2.SetRow | Assets/Matrix2x2.cs:244-252 | IndexOutOfRange (nothing changed) for a bad row; otherwise that row replaced, the other kept |
| Matrices.Matrix2x2.SetCol | Assets/Matrix2x2.cs:259-267 | IndexOutOfRange (nothing changed) for a bad column; otherwise that column replaced, the other kept |
| Matrices.Matrix2x2.Scale | Assets/Matrix2x2.cs:325-336 | a fresh matrix, each entry multiplied by the scalar |
| Matrices.Matrix2x2.ScaleLeft | Assets/Matrix2x2.cs:313-316 | scalar · M equals M · scalar |
| Matrices.Matrix2x2.Plus | Assets/Matrix2x2.cs:344-355 | a fresh element-wise sum |
| Matrices.Matrix2x2.Minus | Assets/Matrix2x2.cs:364-368 | a fresh element-wise difference, equal to mat1 + (-1)·mat2; mat2 is not modified |
| Matrices.Matrix2x2.Equal | Assets/Matrix2x2.cs:377-390 | true exactly when all four entries agree |
| Matrices.Matrix2x2.NotEqual | Assets/Matrix2x2.cs:399-402 | the negation of `==` |
| Matrices.Matrix2x2.Equals | Assets/Matrix2x2.cs:294-300 | false for anything but a matrix; for a matrix, agrees with `==` |
| Math2d.CoefficientsSingular | Assets/Math2d.cs:96-107 | the coefficient matrix [d1 \| −d2] is singular exactly when d1.x·d2.y = d1.y·d2.x |
| Math2d.CramerSolves | Assets/Math2d.cs:109-116 | Cramer's (t1, t2) satisfies p1 + t1·d1 = p2 + t2·d2 |
| Math2d.CramerUnique | Assets/Math2d.cs:109-116 | any (t1, t2) satisfying the system is Cramer's solution |
| Math2d.RayRayIntersection | Assets/Math2d.cs:88-117 | false (out value (0, 0)) exactly for parallel directions; otherwise the out value is Cramer's (t1, t2) and satisfies the system; the coefficient matrix is restored after each column |
| Math2d.ColumnReplacedDeterminant | Assets/Math2d.cs:110-113 | one loop step: the determinant with column col replaced by the right-hand side, and the matrix value afterwards is what it was before |
| Math2d.RayRayReturnsParameters | Assets/Math2d.cs:113 | for rays from (2, 0) along (0, 1) and from (0, 3) along (1, 0), which meet at (2, 3), the out value is (3, 2) |
| Math2d.RayRayPoint | Assets/Math2d.cs:75-87 | None exactly for parallel rays; otherwise the one point both rays reach |
| Math2d.ConvertToRange | Assets/Math2d.cs:172-182 | ArgumentException exactly outside [range1Start, range1End]; NotFinite for a degenerate range; otherwise (r − range2Start)·range1 = index·range2 |
| Math2d.InvertedRangeAlwaysRejects | Assets/Math2d.cs:174-175 | with range1Start > range1End every index is rejected |
| Math2d.ConvertFromZeroMapsEnds | Assets/Math2d.cs:177-181 | with range1Start = 0, 0 maps to range2Start and range1End to range2End |
| Math2d.ConvertToRangeExamples | Assets/Math2d.cs:172-182 | (0, 10, 0, 1, 5) gives 0.5 and (0, 10, 0, 1, 11) is rejected |
| Math2d.ConvertToRangeIgnoresStart | Assets/Math2d.cs:180 | (5, 15, 0, 1, 15) gives 1.5, outside the second range |
| Math2d.ConvertToRangeAffine | Assets/Math2d.cs:162-171 | the affine map: same errors; (r − range2Start)·range1 = (index − range1Start)·range2; the result lies in the second range |
| Math2d.AffineMapsEnds | Assets/Math2d.cs:162-171 | the corrected map sends range1Start to range2Start and range1End to range2End |
| Math2d.AffineAgreesFromZero | Assets/Math2d.cs:177-181 | for range1Start = 0 the corrected map and the source agree on every input |
| Math2d.GeometricMean | Assets/Math2d.cs:125-136 | the mean of the positions, (0, 0) for none |
| Math2d.SumOfConstant | Assets/Math2d.cs:129-133 | the coordinate sums of n copies of c are n·c |
| Math2d.MeanOfConstant | Assets/Math2d.cs:125-136 | the mean of copies of one position is that position |
| PolygonCut.RightIsPerpendicular | Assets/PlayerControllerComponent.cs:126-129 | Right(v) is perpendicular to v, as long as v, and Right(Right(v)) = −v |
| PolygonCut.CrossProperties | Assets/PlayerControllerComponent.cs:173-176 | Cross2D is antisymmetric, zero on equal vectors, and equals Dot(a, Right(b)) |
| PolygonCut.RightOfIsPositiveSide | Assets/PlayerControllerComponent.cs:131-134 | RightOf is Dot(p − o, Right(d)) > 0; no point o + t·d of the line is RightOf |
| PolygonCut.LineThroughEnds | Assets/PlayerControllerComponent.cs:104-112 | the A, B, C line passes through both points it was built from |
| PolygonCut.LineIntersectionPoint | Assets/PlayerControllerComponent.cs:102-124 | "Lines are parallel" exactly when delta = 0; otherwise the point lies on both lines |
| PolygonCut.CramerOnBothLines | Assets/PlayerControllerComponent.cs:115-123 | the returned formula satisfies both line equations |
| PolygonCut.IntersectionUnique | Assets/PlayerControllerComponent.cs:102-124 | any point on both lines is the returned point |
| PolygonCut.CrossingNotParallel | Assets/PlayerControllerComponent.cs:147-160 | an edge with ends on different sides is never parallel to the clip line, so the clipper never raises |
| PolygonCut.Crossing | Assets/PlayerControllerComponent.cs:150 | the crossing point lies on the clip line and on the edge's line |
| PolygonCut.ClipLineInside | Assets/PlayerControllerComponent.cs:131-134 | a point of the clip line is not RightOf |
| PolygonCut.ClipPolygon | Assets/PlayerControllerComponent.cs:136-171 | output equals the specification `Clip`; at most 2·n points; none RightOf |
| PolygonCut.ClipLength | Assets/PlayerControllerComponent.cs:142-168 | each iteration adds at most two points |
| PolygonCut.ClipPointsOrigin | Assets/PlayerControllerComponent.cs:141-168 | every output point is a subject point that is not RightOf, or a point of the clip line |
| PolygonCut.ClipPointsInside | Assets/PlayerControllerComponent.cs:141-168 | no output point is RightOf the clip line |
| PolygonCut.ClipKeepsInside | Assets/PlayerControllerComponent.cs:142-168 | every subject point that is not RightOf appears in the output |
| PolygonCut.ClipAllInside | Assets/PlayerControllerComponent.cs:140-168 | with no point RightOf, the output is the subject in order |
| PolygonCut.ClipAllOutside | Assets/PlayerControllerComponent.cs:140-168 | with every point RightOf, the output is empty |
| PolygonCut.ClipIdempotent | Assets/PlayerControllerComponent.cs:136-171 | clipping a non-empty output again with the same line returns it unchanged |
| PolygonCut.PolygonArea | Assets/PlayerControllerComponent.cs:178-200 | 0 below three points; otherwise the fan sum of Cross2D from points[0]; for a triangle Cross2D(p1 − p0, p2 − p0) |
| PolygonCut.FanSumIsShoelace | Assets/PlayerControllerComponent.cs:185-199 | the partial fan sum equals the partial shoelace sum plus the closing term |
| PolygonCut.AreaIsShoelace | Assets/PlayerControllerComponent.cs:178-200 | PolygonArea equals the shoelace formula (twice the signed area) |
| PolygonCut.FanSumTranslated | Assets/PlayerControllerComponent.cs:187-197 | every partial fan sum is unchanged by a translation |
| PolygonCut.AreaTranslationInvariant | Assets/PlayerControllerComponent.cs:178-200 | translating every point leaves PolygonArea unchanged |
| MeshBuilder.GenerateMeshForPolygon | Assets/Utility.cs:10-35 | vertices are the points at z = 0; uv is the polygon; triangles has length 3(n − 2) and triangle k is (0, k + 2, k + 1) |
| MeshBuilder.FanIndicesValid | Assets/Utility.cs:23-28 | every index lies in [0, n) and each triangle's three corners are distinct |
| MeshBuilder.FanUnique | Assets/Utility.cs:21-28 | the fan index buffer of an n-gon is unique |
| MeshBuilder.SmallFans | Assets/Utility.cs:21-28 | n = 3 gives exactly (0, 2, 1); n = 2 gives no triangle |
| Split.OffsetRaySides | Assets/PlayerControllerComponent.cs:204-207 | the left clip keeps exactly the points at least radius·\|d\|² left of the ray; the right clip keeps those at least as far right |
| Split.OffsetRaysSeparate | Assets/PlayerControllerComponent.cs:204-207 | with radius > 0 and d ≠ 0 no point is kept by both sides, and the ray's own line by neither |
| Split.ZeroRadiusCovers | Assets/PlayerControllerComponent.cs:204-207 | with radius 0 every point is kept by at least one side |
| Split.OriginalMass | Assets/PlayerControllerComponent.cs:224-228 | 1 without a Rigidbody2D, its mass otherwise |
| Split.FragmentMass | Assets/PlayerControllerComponent.cs:245-248 | NotFinite exactly for a zero total area; otherwise mass·total = originalMass·area |
| Split.MassConserved | Assets/PlayerControllerComponent.cs:245-248 | for a non-zero total the two masses add up to originalMass and are proportional to the areas |
| Split.TransformPoints | Assets/PlayerControllerComponent.cs:233-236 | each array element is replaced by its image under the transform |
| Split.ClipToLocal | Assets/PlayerControllerComponent.cs:232-243 | one side's local points are the clip of the world points mapped back to local space; its area is their PolygonArea |
| Split.KeepFragment | Assets/PlayerControllerComponent.cs:250-265 | a fragment exactly when it has more than 2 points and area above the minimum, with its fan mesh and, with a Rigidbody2D, its mass |
| Split.SplitEnvironmentPolygon | Assets/PlayerControllerComponent.cs:202-283 | the left and right fragments are those of the clips against the offset rays, kept by the keep rule, with fan meshes and mass shares |
| Split.TrianglesAreaIsNegatedFan | Assets/Utility.cs:23-28 | the first k fan triangles, in index-buffer order, sum to minus the fan sum up to k + 2 |
| Split.FanMeshWinding | Assets/Utility.cs:23-28 | the mesh's triangles are wound against the polygon: their cross products add up to −PolygonArea |
| Split.SplitFragments | Assets/PlayerControllerComponent.cs:245-267 | a kept left fragment has at least 3 points, area above the minimum and 3(n − 2) indices; when both are kept with a Rigidbody2D and a non-zero total area, their masses add up to the original mass and are proportional to the areas |

## Left out

- IEEE float rounding: scalars are exact reals. A float division by zero, which gives an infinity or NaN, is `Err(NotFinite)` where the result is observable (`ConvertToRange`, the mass split).
- Matrices.Matrix2x2.Inverse: a zero determinant, which gives non-finite entries in the source, is excluded by a precondition instead of modelled.
- Matrices.Matrix2x2.Invert: a zero determinant, as for `Inverse`, is excluded by a precondition.
- The operators on a `null` matrix: they throw `NullReferenceException` in C#; Dafny references here are non-null.
- `Matrix2x2.ToString` and `GetHashCode`: formatting and hashing only.
- Unity's own `Vector2` indexer is modelled only as far as the matrix code uses it (`Vectors.Get`/`Vectors.With`).
- `Math2d.RotateVector` (both variants), `RandomUnitVector`, `ObjectInCone` and `CanSeePosition`: trigonometry, a global random generator, square roots and physics raycasts.
- `GeometricMean` takes positions: the `GameObject` → `transform.position` lookup is engine state.
- `PlayerControllerComponent.Update` and `CutThroughSpace`: input, animation, camera and physics queries.
- In `SplitEnvironmentPolygon`, the engine objects are not modelled: the component lookups, `DestroyImmediate`, the new GameObjects with their collider, layer, material, spawn position and rotation. The `Matrix4x4` transforms are opaque function parameters. A Rigidbody2D is present exactly when a mass is given.
- Unity's `Ray2D` normalises its direction; the model takes the direction as given. With a unit direction, the band `Split.OffsetRaySides` describes has half-width exactly `radius`.
- The Unity `Mesh` is reduced to its vertices, uv and triangles buffers.
- `GenerateMeshForPolygon` on fewer than 2 points allocates an index array of negative length and throws; the model requires at least 2 points.
- `ClipPolygon` and `SplitEnvironmentPolygon` on an empty point array read index −1 and throw; both require a non-empty input.
- Conservation of area across the two fragments is not claimed anywhere in the source and is not proved.
- WormControllerComponent, WorldComponent, ParallaxControllerComponent and MeshFromColliderComponent: engine glue outside this model.

## Findings

| source | as written | input that shows it | evidently intended | confidence | as-written member | corrected member |
|---|---|---|---|---|---|---|
| Assets/Matrix2x2.cs:114-117 | `inverse` and `Invert()` put −m[1,0] at [0,1] and −m[0,1] at [1,0]: the transpose of the inverse | M = [[1, 1], [0, 1]] (det 1): M · inverse(M) = [[0, 1], [−1, 1]] | the adjugate divided by det, a two-sided inverse | high, not executed | Matrices.InverseAsWrittenNotInverse | Matrices.TrueInverse |
| Assets/Math2d.cs:180 | `index * ratio + range2Start`, without subtracting range1Start | (5, 15, 0, 1, 15) returns 1.5, outside [0, 1] | `(index − range1Start) * ratio + range2Start`, mapping the ends onto the ends | high, not executed | Math2d.ConvertToRangeIgnoresStart | Math2d.ConvertToRangeAffine |
| Assets/Math2d.cs:113 | the `out` value is the parameter pair (t1, t2) | rays (2, 0) + t·(0, 1) and (0, 3) + t·(1, 0) meet at (2, 3); the out value is (3, 2) | the intersection point p1 + t1·d1 that the documentation describes | medium (callers may rely on the parameters), not executed | Math2d.RayRayReturnsParameters | Math2d.RayRayPoint |
