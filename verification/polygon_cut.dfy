/** The polygon geometry of PlayerControllerComponent
    (Assets/PlayerControllerComponent.cs): line/line intersection, the
    side-of-line test, one Sutherland-Hodgman clip pass against a half-plane
    and the fan-sum polygon area. */
module PolygonCut {
  import opened Results
  import opened Vectors

  /** `Right`: the vector turned a quarter turn clockwise. */
  function Right(v: Vector2): Vector2
  {
    Vector2(v.y, -v.x)
  }

  lemma RightIsPerpendicular(v: Vector2)
    ensures Dot(Right(v), v) == 0.0
    ensures Right(Right(v)) == Neg(v)
    ensures Dot(Right(v), Right(v)) == Dot(v, v)
  {
  }

  /** `Cross2D`: the z component of the cross product. */
  function Cross2D(a: Vector2, b: Vector2): real
  {
    a.x * b.y - a.y * b.x
  }

  lemma CrossProperties(a: Vector2, b: Vector2)
    ensures Cross2D(a, b) == -Cross2D(b, a)
    ensures Cross2D(a, a) == 0.0
    ensures Cross2D(a, b) == Dot(a, Right(b))
  {
  }

  /** `RightOf`: the point lies strictly to the right of the directed line
      through `rayOrigin` along `rayDirection`. */
  predicate RightOf(rayOrigin: Vector2, rayDirection: Vector2, point: Vector2)
  {
    Dot(Sub(point, rayOrigin), Vector2(rayDirection.y, -rayDirection.x)) > 0.0
  }

  /** The signed offset of `point` from the line, scaled by |direction|:
      positive on the right, negative on the left. */
  function Side(rayOrigin: Vector2, rayDirection: Vector2, point: Vector2): real
  {
    Cross2D(Sub(point, rayOrigin), rayDirection)
  }

  /** RightOf is the sign of the cross product with the direction, and no point
      of the line itself (origin + t * direction) is to its right. */
  lemma RightOfIsPositiveSide(rayOrigin: Vector2, rayDirection: Vector2, point: Vector2, t: real)
    ensures RightOf(rayOrigin, rayDirection, point) <==> Side(rayOrigin, rayDirection, point) > 0.0
    ensures RightOf(rayOrigin, rayDirection, point) <==> Dot(Sub(point, rayOrigin), Right(rayDirection)) > 0.0
    ensures Side(rayOrigin, rayDirection, Add(rayOrigin, Scale(rayDirection, t))) == 0.0
    ensures !RightOf(rayOrigin, rayDirection, Add(rayOrigin, Scale(rayDirection, t)))
  {
    var q := Add(rayOrigin, Scale(rayDirection, t));
    assert Sub(q, rayOrigin) == Scale(rayDirection, t);
  }

  /** A line in the form a * x + b * y == c. */
  datatype Line = Line(a: real, b: real, c: real)

  /** The A, B, C coefficients LineIntersectionPoint computes for the line
      through `ps` and `pe`. */
  function LineThrough(ps: Vector2, pe: Vector2): Line
  {
    var a := pe.y - ps.y;
    var b := ps.x - pe.x;
    Line(a, b, a * ps.x + b * ps.y)
  }

  predicate OnLine(l: Line, p: Vector2)
  {
    l.a * p.x + l.b * p.y == l.c
  }

  lemma LineThroughEnds(ps: Vector2, pe: Vector2)
    ensures OnLine(LineThrough(ps, pe), ps)
    ensures OnLine(LineThrough(ps, pe), pe)
  {
    var l := LineThrough(ps, pe);
    assert l.a * pe.x + l.b * pe.y - l.c == l.a * (pe.x - ps.x) + l.b * (pe.y - ps.y);
  }

  /** The determinant LineIntersectionPoint tests against 0. */
  function Delta(l1: Line, l2: Line): real
  {
    l1.a * l2.b - l2.a * l1.b
  }

  /** `LineIntersectionPoint`: the intersection of the line through ps1, pe1
      with the line through ps2, pe2; "Lines are parallel" when the
      determinant is 0. */
  function LineIntersectionPoint(ps1: Vector2, pe1: Vector2, ps2: Vector2, pe2: Vector2): (r: Result<Vector2>)
    ensures r.Err? <==> Delta(LineThrough(ps1, pe1), LineThrough(ps2, pe2)) == 0.0
    ensures r.Err? ==> r.error == LinesParallel
    ensures r.Ok? ==> OnLine(LineThrough(ps1, pe1), r.value) && OnLine(LineThrough(ps2, pe2), r.value)
  {
    var l1 := LineThrough(ps1, pe1);
    var l2 := LineThrough(ps2, pe2);
    var delta := Delta(l1, l2);
    if delta == 0.0 then Err(LinesParallel)
    else
      var p := Vector2((l2.b * l1.c - l1.b * l2.c) / delta, (l1.a * l2.c - l2.a * l1.c) / delta);
      CramerOnBothLines(l1, l2, p);
      Ok(p)
  }

  lemma CramerOnBothLines(l1: Line, l2: Line, p: Vector2)
    requires Delta(l1, l2) != 0.0
    requires p == Vector2((l2.b * l1.c - l1.b * l2.c) / Delta(l1, l2), (l1.a * l2.c - l2.a * l1.c) / Delta(l1, l2))
    ensures OnLine(l1, p) && OnLine(l2, p)
  {
    var d := Delta(l1, l2);
    var nx, ny := l2.b * l1.c - l1.b * l2.c, l1.a * l2.c - l2.a * l1.c;
    assert p.x * d == nx && p.y * d == ny;
    assert (l1.a * p.x + l1.b * p.y) * d == l1.c * d by {
      assert (l1.a * p.x + l1.b * p.y) * d == l1.a * nx + l1.b * ny;
    }
    assert (l2.a * p.x + l2.b * p.y) * d == l2.c * d by {
      assert (l2.a * p.x + l2.b * p.y) * d == l2.a * nx + l2.b * ny;
    }
    CancelFactor(l1.a * p.x + l1.b * p.y, l1.c, d);
    CancelFactor(l2.a * p.x + l2.b * p.y, l2.c, d);
  }

  lemma CancelFactor(u: real, v: real, d: real)
    requires d != 0.0 && u * d == v * d
    ensures u == v
  {
    assert (u - v) * d == 0.0;
  }

  /** Two non-parallel lines meet in one point only: the one returned. */
  lemma IntersectionUnique(ps1: Vector2, pe1: Vector2, ps2: Vector2, pe2: Vector2, q: Vector2)
    requires LineIntersectionPoint(ps1, pe1, ps2, pe2).Ok?
    requires OnLine(LineThrough(ps1, pe1), q) && OnLine(LineThrough(ps2, pe2), q)
    ensures q == LineIntersectionPoint(ps1, pe1, ps2, pe2).value
  {
    var l1, l2 := LineThrough(ps1, pe1), LineThrough(ps2, pe2);
    var p := LineIntersectionPoint(ps1, pe1, ps2, pe2).value;
    var u, w := q.x - p.x, q.y - p.y;
    assert l1.a * u + l1.b * w == 0.0;
    assert l2.a * u + l2.b * w == 0.0;
    var d := Delta(l1, l2);
    assert u * d == 0.0 by {
      assert u * d == l2.b * (l1.a * u + l1.b * w) - l1.b * (l2.a * u + l2.b * w);
    }
    assert w * d == 0.0 by {
      assert w * d == l1.a * (l2.a * u + l2.b * w) - l2.a * (l1.a * u + l1.b * w);
    }
  }

  // ---------------------------------------------------------------------
  // ClipPolygon

  /** A point the clipper keeps: not to the right of the clip line. */
  predicate Inside(clipOrigin: Vector2, clipDirection: Vector2, p: Vector2)
  {
    !RightOf(clipOrigin, clipDirection, p)
  }

  /** The clip line as the clipper passes it to LineIntersectionPoint. */
  function ClipLine(clipOrigin: Vector2, clipDirection: Vector2): Line
  {
    LineThrough(clipOrigin, Add(clipOrigin, clipDirection))
  }

  /** An edge whose ends lie on different sides of the clip line is never
      parallel to it, so "Lines are parallel" cannot be raised by the clipper. */
  lemma CrossingNotParallel(clipOrigin: Vector2, clipDirection: Vector2, prev: Vector2, curr: Vector2)
    requires Inside(clipOrigin, clipDirection, prev) != Inside(clipOrigin, clipDirection, curr)
    ensures LineIntersectionPoint(clipOrigin, Add(clipOrigin, clipDirection), prev, curr).Ok?
  {
    var l1 := ClipLine(clipOrigin, clipDirection);
    var l2 := LineThrough(prev, curr);
    var s1 := Dot(Sub(prev, clipOrigin), Vector2(clipDirection.y, -clipDirection.x));
    var s2 := Dot(Sub(curr, clipOrigin), Vector2(clipDirection.y, -clipDirection.x));
    assert Delta(l1, l2) == s1 - s2;
  }

  /** The point where the edge prev -> curr crosses the clip line. */
  function Crossing(clipOrigin: Vector2, clipDirection: Vector2, prev: Vector2, curr: Vector2): (p: Vector2)
    requires Inside(clipOrigin, clipDirection, prev) != Inside(clipOrigin, clipDirection, curr)
    ensures OnLine(ClipLine(clipOrigin, clipDirection), p)
    ensures OnLine(LineThrough(prev, curr), p)
  {
    CrossingNotParallel(clipOrigin, clipDirection, prev, curr);
    LineIntersectionPoint(clipOrigin, Add(clipOrigin, clipDirection), prev, curr).value
  }

  /** A point of the clip line is inside. */
  lemma ClipLineInside(clipOrigin: Vector2, clipDirection: Vector2, p: Vector2)
    requires OnLine(ClipLine(clipOrigin, clipDirection), p)
    ensures Inside(clipOrigin, clipDirection, p)
  {
    var l := ClipLine(clipOrigin, clipDirection);
    assert l.a == clipDirection.y && l.b == -clipDirection.x;
    assert Dot(Sub(p, clipOrigin), Vector2(clipDirection.y, -clipDirection.x))
        == l.a * p.x + l.b * p.y - (l.a * clipOrigin.x + l.b * clipOrigin.y);
  }

  /** What one iteration of the clip loop appends for the edge prev -> curr. */
  function EdgeOutput(clipOrigin: Vector2, clipDirection: Vector2, prev: Vector2, curr: Vector2): seq<Vector2>
  {
    var prevInside := Inside(clipOrigin, clipDirection, prev);
    var currInside := Inside(clipOrigin, clipDirection, curr);
    if !prevInside && currInside then [Crossing(clipOrigin, clipDirection, prev, curr), curr]
    else if prevInside && !currInside then [prev, Crossing(clipOrigin, clipDirection, prev, curr)]
    else if currInside then [curr]
    else []
  }

  /** The point before subject[i], cyclically. */
  function Prev(subject: seq<Vector2>, i: int): Vector2
    requires 0 <= i < |subject|
  {
    if i == 0 then subject[|subject| - 1] else subject[i - 1]
  }

  /** The clipper's output after the first `n` iterations. */
  function ClipUpTo(clipOrigin: Vector2, clipDirection: Vector2, subject: seq<Vector2>, n: int): seq<Vector2>
    requires 0 <= n <= |subject|
  {
    if n == 0 then []
    else ClipUpTo(clipOrigin, clipDirection, subject, n - 1)
         + EdgeOutput(clipOrigin, clipDirection, Prev(subject, n - 1), subject[n - 1])
  }

  /** The clipped polygon: every edge of the (closed) subject visited once. */
  function Clip(clipOrigin: Vector2, clipDirection: Vector2, subject: seq<Vector2>): seq<Vector2>
  {
    ClipUpTo(clipOrigin, clipDirection, subject, |subject|)
  }

  /** `ClipPolygon`. The source reads subject[Length - 1] before the loop, so
      the subject must not be empty. */
  method ClipPolygon(clipOrigin: Vector2, clipDirection: Vector2, subject: seq<Vector2>) returns (output: seq<Vector2>)
    requires |subject| > 0
    ensures output == Clip(clipOrigin, clipDirection, subject)
    ensures |output| <= 2 * |subject|
    ensures forall p :: p in output ==> !RightOf(clipOrigin, clipDirection, p)
  {
    output := [];
    var prevPoint := subject[|subject| - 1];
    var prevPointInside := !RightOf(clipOrigin, clipDirection, prevPoint);
    for i := 0 to |subject|
      invariant output == ClipUpTo(clipOrigin, clipDirection, subject, i)
      invariant i < |subject| ==> prevPoint == Prev(subject, i)
      invariant prevPointInside == Inside(clipOrigin, clipDirection, prevPoint)
    {
      var currPoint := subject[i];
      var currPointInside := !RightOf(clipOrigin, clipDirection, currPoint);
      if !prevPointInside && currPointInside {
        var r := LineIntersectionPoint(clipOrigin, Add(clipOrigin, clipDirection), prevPoint, currPoint);
        CrossingNotParallel(clipOrigin, clipDirection, prevPoint, currPoint);
        output := output + [r.value];
        output := output + [currPoint];
      } else if prevPointInside && !currPointInside {
        var r := LineIntersectionPoint(clipOrigin, Add(clipOrigin, clipDirection), prevPoint, currPoint);
        CrossingNotParallel(clipOrigin, clipDirection, prevPoint, currPoint);
        output := output + [prevPoint];
        output := output + [r.value];
      } else if currPointInside {
        output := output + [currPoint];
      }
      prevPoint := currPoint;
      prevPointInside := currPointInside;
    }
    ClipLength(clipOrigin, clipDirection, subject, |subject|);
    ClipPointsInside(clipOrigin, clipDirection, subject);
  }

  /** Each edge contributes at most two points. */
  lemma {:induction false} ClipLength(clipOrigin: Vector2, clipDirection: Vector2, subject: seq<Vector2>, n: int)
    requires 0 <= n <= |subject|
    ensures |ClipUpTo(clipOrigin, clipDirection, subject, n)| <= 2 * n
  {
    if n > 0 {
      ClipLength(clipOrigin, clipDirection, subject, n - 1);
    }
  }

  /** Every output point is an inside subject point or a point of the clip line. */
  lemma {:induction false} ClipPointsOrigin(clipOrigin: Vector2, clipDirection: Vector2, subject: seq<Vector2>, n: int)
    requires 0 <= n <= |subject|
    ensures forall p :: p in ClipUpTo(clipOrigin, clipDirection, subject, n) ==>
              (p in subject && Inside(clipOrigin, clipDirection, p)) || OnLine(ClipLine(clipOrigin, clipDirection), p)
  {
    if n > 0 {
      ClipPointsOrigin(clipOrigin, clipDirection, subject, n - 1);
      assert Prev(subject, n - 1) in subject;
    }
  }

  /** Hence no output point is to the right of the clip line. */
  lemma ClipPointsInside(clipOrigin: Vector2, clipDirection: Vector2, subject: seq<Vector2>)
    ensures forall p :: p in Clip(clipOrigin, clipDirection, subject) ==> Inside(clipOrigin, clipDirection, p)
  {
    ClipPointsOrigin(clipOrigin, clipDirection, subject, |subject|);
    forall p | p in Clip(clipOrigin, clipDirection, subject)
      ensures Inside(clipOrigin, clipDirection, p)
    {
      if OnLine(ClipLine(clipOrigin, clipDirection), p) {
        ClipLineInside(clipOrigin, clipDirection, p);
      }
    }
  }

  /** Conversely, every inside subject point is kept. */
  lemma {:induction false} ClipKeepsInside(clipOrigin: Vector2, clipDirection: Vector2, subject: seq<Vector2>, n: int)
    requires 0 <= n <= |subject|
    ensures forall j :: 0 <= j < n && Inside(clipOrigin, clipDirection, subject[j]) ==>
              subject[j] in ClipUpTo(clipOrigin, clipDirection, subject, n)
  {
    if n > 0 {
      ClipKeepsInside(clipOrigin, clipDirection, subject, n - 1);
    }
  }

  /** With no subject point to the right, the output is the subject itself. */
  lemma {:induction false} ClipAllInside(clipOrigin: Vector2, clipDirection: Vector2, subject: seq<Vector2>, n: int)
    requires 0 <= n <= |subject|
    requires forall j :: 0 <= j < |subject| ==> Inside(clipOrigin, clipDirection, subject[j])
    ensures ClipUpTo(clipOrigin, clipDirection, subject, n) == subject[..n]
  {
    if n > 0 {
      ClipAllInside(clipOrigin, clipDirection, subject, n - 1);
      assert subject[..n] == subject[..n - 1] + [subject[n - 1]];
    }
  }

  /** With every subject point to the right, the output is empty. */
  lemma {:induction false} ClipAllOutside(clipOrigin: Vector2, clipDirection: Vector2, subject: seq<Vector2>, n: int)
    requires 0 <= n <= |subject|
    requires forall j :: 0 <= j < |subject| ==> RightOf(clipOrigin, clipDirection, subject[j])
    ensures ClipUpTo(clipOrigin, clipDirection, subject, n) == []
  {
    if n > 0 {
      ClipAllOutside(clipOrigin, clipDirection, subject, n - 1);
    }
  }

  /** Clipping twice against the same line changes nothing (the second pass
      needs a non-empty polygon, as the first one does). */
  lemma ClipIdempotent(clipOrigin: Vector2, clipDirection: Vector2, subject: seq<Vector2>)
    requires |Clip(clipOrigin, clipDirection, subject)| > 0
    ensures Clip(clipOrigin, clipDirection, Clip(clipOrigin, clipDirection, subject)) == Clip(clipOrigin, clipDirection, subject)
  {
    var once := Clip(clipOrigin, clipDirection, subject);
    ClipPointsInside(clipOrigin, clipDirection, subject);
    ClipAllInside(clipOrigin, clipDirection, once, |once|);
    assert once[..|once|] == once;
  }

  // ---------------------------------------------------------------------
  // PolygonArea

  /** The fan term of vertex i: the cross product of the edge vectors from
      points[0] to points[i - 1] and to points[i]. */
  function FanTerm(points: seq<Vector2>, i: int): real
    requires 2 <= i < |points|
  {
    Cross2D(Sub(points[i - 1], points[0]), Sub(points[i], points[0]))
  }

  /** The sum of the fan terms of vertices 2 .. n - 1. */
  function FanSum(points: seq<Vector2>, n: int): real
    requires 2 <= n <= |points|
  {
    if n == 2 then 0.0 else FanSum(points, n - 1) + FanTerm(points, n - 1)
  }

  /** Twice the signed area, as PolygonArea computes it: 0 below three points. */
  function Area(points: seq<Vector2>): real
  {
    if |points| < 3 then 0.0 else FanSum(points, |points|)
  }

  /** `PolygonArea`. */
  method PolygonArea(points: seq<Vector2>) returns (output: real)
    ensures output == Area(points)
    ensures |points| == 3 ==> output == Cross2D(Sub(points[1], points[0]), Sub(points[2], points[0]))
  {
    if |points| < 3 {
      return 0.0;
    }
    output := 0.0;
    var a := points[0];
    var prevEdgeVector := Sub(points[1], a);
    for i := 2 to |points|
      invariant output == FanSum(points, i)
      invariant prevEdgeVector == Sub(points[i - 1], a)
    {
      var currEdgeVector := Sub(points[i], a);
      output := output + Cross2D(prevEdgeVector, currEdgeVector);
      prevEdgeVector := currEdgeVector;
    }
  }

  /** The shoelace sum of the open chain points[0] .. points[n - 1]. */
  function ShoelaceUpTo(points: seq<Vector2>, n: int): real
    requires 1 <= n <= |points|
  {
    if n == 1 then 0.0 else ShoelaceUpTo(points, n - 1) + Cross2D(points[n - 2], points[n - 1])
  }

  /** The shoelace formula: the cross products of consecutive vertices of the
      closed polygon, a reference definition of twice the signed area. */
  function Shoelace(points: seq<Vector2>): real
    requires |points| >= 1
  {
    ShoelaceUpTo(points, |points|) + Cross2D(points[|points| - 1], points[0])
  }

  lemma CrossOfDifferences(u: Vector2, v: Vector2, a: Vector2)
    ensures Cross2D(Sub(u, a), Sub(v, a)) == Cross2D(u, v) - Cross2D(u, a) - Cross2D(a, v)
  {
  }

  lemma {:induction false} FanSumIsShoelace(points: seq<Vector2>, n: int)
    requires 2 <= n <= |points|
    ensures FanSum(points, n) == ShoelaceUpTo(points, n) + Cross2D(points[n - 1], points[0])
  {
    if n > 2 {
      FanSumIsShoelace(points, n - 1);
      CrossOfDifferences(points[n - 2], points[n - 1], points[0]);
      CrossProperties(points[0], points[n - 1]);
    }
  }

  /** The fan sum agrees with the shoelace formula. */
  lemma AreaIsShoelace(points: seq<Vector2>)
    requires |points| >= 3
    ensures Area(points) == Shoelace(points)
  {
    FanSumIsShoelace(points, |points|);
  }

  function Translate(points: seq<Vector2>, offset: Vector2): (r: seq<Vector2>)
    ensures |r| == |points|
    ensures forall i :: 0 <= i < |points| ==> r[i] == Add(points[i], offset)
  {
    seq(|points|, i requires 0 <= i < |points| => Add(points[i], offset))
  }

  lemma {:induction false} FanSumTranslated(points: seq<Vector2>, offset: Vector2, n: int)
    requires 2 <= n <= |points|
    ensures FanSum(Translate(points, offset), n) == FanSum(points, n)
  {
    if n > 2 {
      FanSumTranslated(points, offset, n - 1);
      var moved := Translate(points, offset);
      assert Sub(moved[n - 2], moved[0]) == Sub(points[n - 2], points[0]);
      assert Sub(moved[n - 1], moved[0]) == Sub(points[n - 1], points[0]);
    }
  }

  /** Moving every point by the same offset leaves the area unchanged. */
  lemma AreaTranslationInvariant(points: seq<Vector2>, offset: Vector2)
    ensures Area(Translate(points, offset)) == Area(points)
  {
    if |points| >= 3 {
      FanSumTranslated(points, offset, |points|);
    }
  }
}
