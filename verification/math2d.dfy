/** The linear-algebra helpers of the static class Math2d (Assets/Math2d.cs):
    ray/ray intersection by Cramer's rule, range conversion and the mean of a
    set of positions. */
module Math2d {
  import opened Results
  import opened Vectors
  import opened Matrices

  /** The coefficient matrix [d1 | -d2] of the system p1 + t1*d1 == p2 + t2*d2. */
  function Coefficients(direction1: Vector2, direction2: Vector2): Mat
  {
    Mat(direction1.x, -direction2.x, direction1.y, -direction2.y)
  }

  /** Two rays are parallel (or a direction is zero) exactly when the cross
      product of their directions is 0. */
  predicate Parallel(direction1: Vector2, direction2: Vector2)
  {
    direction1.x * direction2.y == direction1.y * direction2.x
  }

  lemma CoefficientsSingular(direction1: Vector2, direction2: Vector2)
    ensures Det(Coefficients(direction1, direction2)) == 0.0 <==> Parallel(direction1, direction2)
  {
  }

  /** The point reached from `origin` after `t` steps of `direction`. */
  function PointAt(origin: Vector2, direction: Vector2, t: real): Vector2
  {
    Add(origin, Scale(direction, t))
  }

  /** The Cramer's-rule solution (t1, t2): column `c` of the coefficient matrix
      replaced by the right-hand side p2 - p1, determinant divided by det. */
  function CramerSolution(position1: Vector2, direction1: Vector2, position2: Vector2, direction2: Vector2): Vector2
    requires !Parallel(direction1, direction2)
  {
    var a := Coefficients(direction1, direction2);
    var b := Sub(position2, position1);
    CoefficientsSingular(direction1, direction2);
    Vector2(Det(WithCol(a, 0, b)) / Det(a), Det(WithCol(a, 1, b)) / Det(a))
  }

  /** The Cramer solution solves the system: both rays reach the same point. */
  lemma CramerSolves(position1: Vector2, direction1: Vector2, position2: Vector2, direction2: Vector2)
    requires !Parallel(direction1, direction2)
    ensures var t := CramerSolution(position1, direction1, position2, direction2);
            PointAt(position1, direction1, t.x) == PointAt(position2, direction2, t.y)
  {
    var t := CramerSolution(position1, direction1, position2, direction2);
    var a := Coefficients(direction1, direction2);
    var b := Sub(position2, position1);
    var d := Det(a);
    CoefficientsSingular(direction1, direction2);
    var n1 := Det(WithCol(a, 0, b));
    var n2 := Det(WithCol(a, 1, b));
    assert t.x * d == n1;
    assert t.y * d == n2;
    assert (direction1.x * t.x - direction2.x * t.y) * d == b.x * d by {
      assert (direction1.x * t.x - direction2.x * t.y) * d == direction1.x * n1 - direction2.x * n2;
    }
    assert (direction1.y * t.x - direction2.y * t.y) * d == b.y * d by {
      assert (direction1.y * t.x - direction2.y * t.y) * d == direction1.y * n1 - direction2.y * n2;
    }
    CancelNonZero(direction1.x * t.x - direction2.x * t.y, b.x, d);
    CancelNonZero(direction1.y * t.x - direction2.y * t.y, b.y, d);
  }

  lemma CancelNonZero(u: real, v: real, d: real)
    requires d != 0.0 && u * d == v * d
    ensures u == v
  {
    assert (u - v) * d == 0.0;
  }

  /** ... and it is the only solution. */
  lemma CramerUnique(position1: Vector2, direction1: Vector2, position2: Vector2, direction2: Vector2, t1: real, t2: real)
    requires !Parallel(direction1, direction2)
    requires PointAt(position1, direction1, t1) == PointAt(position2, direction2, t2)
    ensures Vector2(t1, t2) == CramerSolution(position1, direction1, position2, direction2)
  {
    var t := CramerSolution(position1, direction1, position2, direction2);
    CramerSolves(position1, direction1, position2, direction2);
    // (t1 - t.x) * d1 == (t2 - t.y) * d2, and the directions are independent.
    var u, w := t1 - t.x, t2 - t.y;
    assert direction1.x * u == direction2.x * w;
    assert direction1.y * u == direction2.y * w;
    var d := direction1.x * direction2.y - direction1.y * direction2.x;
    assert u * d == 0.0 by {
      assert u * d == (direction1.x * u) * direction2.y - (direction1.y * u) * direction2.x;
    }
    assert w * d == 0.0 by {
      assert w * d == direction1.x * (direction2.y * w) - direction1.y * (direction2.x * w);
    }
  }

  /** `RayRayIntersection`. Builds the coefficient matrix with the indexer,
      then for each column saves it, replaces it with p2 - p1, reads the
      determinant and restores it. The `out` value is the parameter pair
      (t1, t2), not the point of intersection. */
  method RayRayIntersection(position1: Vector2, direction1: Vector2, position2: Vector2, direction2: Vector2)
    returns (found: bool, intersection: Vector2)
    ensures found <==> !Parallel(direction1, direction2)
    ensures !found ==> intersection == Zero2
    ensures found ==> intersection == CramerSolution(position1, direction1, position2, direction2)
    ensures found ==> PointAt(position1, direction1, intersection.x) == PointAt(position2, direction2, intersection.y)
  {
    var coefficient := new Matrix2x2();
    var answers := Zero2;
    intersection := Zero2;

    var o: Outcome;
    o := coefficient.Set(0, 0, direction1.x);
    o := coefficient.Set(0, 1, -direction2.x);
    o := coefficient.Set(1, 0, direction1.y);
    o := coefficient.Set(1, 1, -direction2.y);

    answers := With(answers, 0, position2.x - position1.x);
    answers := With(answers, 1, position2.y - position1.y);

    var det := coefficient.Determinant();
    CoefficientsSingular(direction1, direction2);

    if det == 0.0 {
      return false, intersection;
    }

    ghost var a := coefficient.Value();
    assert a == Coefficients(direction1, direction2);
    assert answers == Sub(position2, position1);
    for col := 0 to 2
      invariant coefficient.Value() == a
      invariant forall c :: 0 <= c < col ==>
        Vectors.Get(intersection, c) == Ok(Det(WithCol(a, c, answers)) / det)
    {
      var numerator := ColumnReplacedDeterminant(coefficient, col, answers);
      intersection := With(intersection, col, numerator / det);
    }
    assert Vectors.Get(intersection, 0) == Ok(Det(WithCol(a, 0, answers)) / det);
    assert Vectors.Get(intersection, 1) == Ok(Det(WithCol(a, 1, answers)) / det);
    CramerSolves(position1, direction1, position2, direction2);
    found := true;
  }

  /** One step of RayRayIntersection's loop: save column `col`, overwrite it
      with the right-hand side, read the determinant, put the column back. */
  method ColumnReplacedDeterminant(coefficient: Matrix2x2, col: int, answers: Vector2) returns (numerator: real)
    requires coefficient.Valid() && InRange(col)
    modifies coefficient.matrix
    ensures coefficient.Value() == old(coefficient.Value())
    ensures numerator == Det(WithCol(old(coefficient.Value()), col, answers))
  {
    ghost var a := coefficient.Value();
    var originalColumn := coefficient.GetCol(col);
    var o := coefficient.SetCol(col, answers);
    numerator := coefficient.Determinant();
    o := coefficient.SetCol(col, originalColumn.value);
    ColRowRoundTrip(a, col, answers);
  }

  /** A concrete pair of rays for which the `out` value of RayRayIntersection
      (the parameters) differs from the intersection point its documentation
      promises: the rays meet at (2, 3), the parameters are (3, 2). */
  lemma RayRayReturnsParameters()
    ensures !Parallel(Vector2(0.0, 1.0), Vector2(1.0, 0.0))
    ensures PointAt(Vector2(2.0, 0.0), Vector2(0.0, 1.0), 3.0) == Vector2(2.0, 3.0)
    ensures PointAt(Vector2(0.0, 3.0), Vector2(1.0, 0.0), 2.0) == Vector2(2.0, 3.0)
    ensures CramerSolution(Vector2(2.0, 0.0), Vector2(0.0, 1.0), Vector2(0.0, 3.0), Vector2(1.0, 0.0)) == Vector2(3.0, 2.0)
  {
    var p1, d1, p2, d2 := Vector2(2.0, 0.0), Vector2(0.0, 1.0), Vector2(0.0, 3.0), Vector2(1.0, 0.0);
    assert PointAt(p1, d1, 3.0) == Vector2(2.0, 3.0);
    assert PointAt(p2, d2, 2.0) == Vector2(2.0, 3.0);
    assert !Parallel(d1, d2);
    CramerUnique(p1, d1, p2, d2, 3.0, 2.0);
  }

  /** The intersection point the documentation describes: `None` for parallel
      rays, otherwise the one point both rays reach. */
  function RayRayPoint(position1: Vector2, direction1: Vector2, position2: Vector2, direction2: Vector2): (r: Option<Vector2>)
    ensures r.None? <==> Parallel(direction1, direction2)
    ensures r.Some? ==> exists t1, t2 :: r.value == PointAt(position1, direction1, t1) == PointAt(position2, direction2, t2)
    ensures r.Some? ==> forall t1, t2 :: PointAt(position1, direction1, t1) == PointAt(position2, direction2, t2) ==>
                                         r.value == PointAt(position1, direction1, t1)
  {
    if Parallel(direction1, direction2) then None
    else
      var t := CramerSolution(position1, direction1, position2, direction2);
      CramerSolves(position1, direction1, position2, direction2);
      assert forall t1, t2 :: PointAt(position1, direction1, t1) == PointAt(position2, direction2, t2) ==> t1 == t.x by {
        forall t1, t2 | PointAt(position1, direction1, t1) == PointAt(position2, direction2, t2)
          ensures t1 == t.x
        {
          CramerUnique(position1, direction1, position2, direction2, t1, t2);
        }
      }
      Some(PointAt(position1, direction1, t.x))
  }

  /** `ConvertToRange`: throws ArgumentException when `index` is outside
      [range1Start, range1End]; otherwise index * (range2 / range1) + range2Start.
      A degenerate first range makes the float division non-finite. */
  function ConvertToRange(range1Start: real, range1End: real, range2Start: real, range2End: real, index: real): (r: Result<real>)
    ensures r == Err(BadArgument) <==> index < range1Start || index > range1End
    ensures r == Err(NotFinite) <==> range1Start == index == range1End
    ensures r.Ok? ==> (r.value - range2Start) * (range1End - range1Start) == index * (range2End - range2Start)
  {
    if index < range1Start || index > range1End then Err(BadArgument)
    else
      var range1 := range1End - range1Start;
      var range2 := range2End - range2Start;
      if range1 == 0.0 then Err(NotFinite)
      else
        var ratio := range2 / range1;
        var newValue := index * ratio;
        assert newValue * range1 == index * range2;
        Ok(newValue + range2Start)
  }

  /** An inverted first range rejects every index. */
  lemma InvertedRangeAlwaysRejects(range1Start: real, range1End: real, range2Start: real, range2End: real, index: real)
    requires range1Start > range1End
    ensures ConvertToRange(range1Start, range1End, range2Start, range2End, index) == Err(BadArgument)
  {
  }

  /** With a first range starting at 0, the end points map onto the end points. */
  lemma ConvertFromZeroMapsEnds(range1End: real, range2Start: real, range2End: real)
    requires range1End > 0.0
    ensures ConvertToRange(0.0, range1End, range2Start, range2End, 0.0) == Ok(range2Start)
    ensures ConvertToRange(0.0, range1End, range2Start, range2End, range1End) == Ok(range2End)
  {
    var ratio := (range2End - range2Start) / range1End;
    assert range1End * ratio == range2End - range2Start;
  }

  lemma ConvertToRangeExamples()
    ensures ConvertToRange(0.0, 10.0, 0.0, 1.0, 5.0) == Ok(0.5)
    ensures ConvertToRange(0.0, 10.0, 0.0, 1.0, 11.0) == Err(BadArgument)
  {
  }

  /** As written, a first range not starting at 0 maps its end outside the second range. */
  lemma ConvertToRangeIgnoresStart()
    ensures ConvertToRange(5.0, 15.0, 0.0, 1.0, 15.0) == Ok(1.5)
  {
  }

  /** The affine map the documentation describes: range1Start goes to
      range2Start and range1End to range2End. */
  function ConvertToRangeAffine(range1Start: real, range1End: real, range2Start: real, range2End: real, index: real): (r: Result<real>)
    ensures r == Err(BadArgument) <==> index < range1Start || index > range1End
    ensures r == Err(NotFinite) <==> range1Start == index == range1End
    ensures r.Ok? ==> (r.value - range2Start) * (range1End - range1Start) == (index - range1Start) * (range2End - range2Start)
    ensures r.Ok? && range2Start <= range2End ==> range2Start <= r.value <= range2End
    ensures r.Ok? && range2End <= range2Start ==> range2End <= r.value <= range2Start
  {
    if index < range1Start || index > range1End then Err(BadArgument)
    else
      var range1 := range1End - range1Start;
      var range2 := range2End - range2Start;
      if range1 == 0.0 then Err(NotFinite)
      else
        AffineValue(range1Start, range1End, range2Start, range2End, index);
        Ok((index - range1Start) / range1 * range2 + range2Start)
  }

  /** The product of two non-negative reals is non-negative. */
  lemma MulNonNegative(a: real, b: real)
    requires a >= 0.0 && b >= 0.0
    ensures a * b >= 0.0
  {
  }

  /** The affine image of an index inside a first range of positive length
      keeps its proportion and lies within the second range. */
  lemma AffineValue(range1Start: real, range1End: real, range2Start: real, range2End: real, index: real)
    requires range1Start <= index <= range1End && range1Start < range1End
    ensures var v := (index - range1Start) / (range1End - range1Start) * (range2End - range2Start) + range2Start;
            && (v - range2Start) * (range1End - range1Start) == (index - range1Start) * (range2End - range2Start)
            && (range2Start <= range2End ==> range2Start <= v <= range2End)
            && (range2End <= range2Start ==> range2End <= v <= range2Start)
  {
    var range1 := range1End - range1Start;
    var range2 := range2End - range2Start;
    var d := index - range1Start;
    AffineFraction(d, range1, range2);
    var v := d / range1 * range2 + range2Start;
    assert v - range2Start == d / range1 * range2;
  }

  /** The offset d into a first range of positive length range1, scaled to a
      second range of length range2, keeps the proportion d : range1 and lies
      between 0 and range2. */
  lemma AffineFraction(d: real, range1: real, range2: real)
    requires 0.0 <= d <= range1 && range1 > 0.0
    ensures d / range1 * range2 * range1 == d * range2
    ensures range2 >= 0.0 ==> 0.0 <= d / range1 * range2 <= range2
    ensures range2 <= 0.0 ==> range2 <= d / range1 * range2 <= 0.0
  {
    var k := 1.0 / range1;
    assert range1 * k == 1.0;
    DivIsMulReciprocal(d, range1);
    var f := d / range1;
    assert f == d * k;
    assert f * range1 == d by {
      assert d * k * range1 == d * (range1 * k);
    }
    if k <= 0.0 {
      MulNonNegative(-k, range1);
      assert false;
    }
    MulNonNegative(d, k);
    MulNonNegative(range1 - d, k);
    assert (range1 - d) * k == 1.0 - f;
    FractionBetween(f, range2);
    assert f * range2 * range1 == f * range1 * range2;
  }

  /** A fraction in [0, 1] of x lies between 0 and x. */
  lemma FractionBetween(f: real, x: real)
    requires 0.0 <= f <= 1.0
    ensures x >= 0.0 ==> 0.0 <= f * x <= x
    ensures x <= 0.0 ==> x <= f * x <= 0.0
  {
    if x >= 0.0 {
      MulNonNegative(f, x);
      MulNonNegative(1.0 - f, x);
      assert (1.0 - f) * x == x - f * x;
    } else {
      MulNonNegative(f, -x);
      MulNonNegative(1.0 - f, -x);
      assert (1.0 - f) * -x == f * x - x;
      assert f * -x == -(f * x);
    }
  }

  /** The corrected conversion maps end points to end points for any range. */
  lemma AffineMapsEnds(range1Start: real, range1End: real, range2Start: real, range2End: real)
    requires range1Start < range1End
    ensures ConvertToRangeAffine(range1Start, range1End, range2Start, range2End, range1Start) == Ok(range2Start)
    ensures ConvertToRangeAffine(range1Start, range1End, range2Start, range2End, range1End) == Ok(range2End)
  {
    var range1 := range1End - range1Start;
    assert (range1Start - range1Start) / range1 == 0.0;
    var k := 1.0 / range1;
    assert range1 * k == 1.0;
    DivIsMulReciprocal(range1, range1);
    assert (range1End - range1Start) / range1 == 1.0;
  }

  /** ... and agrees with the source whenever the first range starts at 0. */
  lemma AffineAgreesFromZero(range1End: real, range2Start: real, range2End: real, index: real)
    ensures ConvertToRangeAffine(0.0, range1End, range2Start, range2End, index)
            == ConvertToRange(0.0, range1End, range2Start, range2End, index)
  {
    if 0.0 <= index <= range1End && range1End != 0.0 {
      var range2 := range2End - range2Start;
      var k := 1.0 / range1End;
      assert (index - 0.0) / range1End == index * k;
      assert range2 / range1End == range2 * k;
      assert index * k * range2 == index * (range2 * k);
    }
  }

  function SumX(ps: seq<Vector2>): real
  {
    if ps == [] then 0.0 else SumX(ps[..|ps| - 1]) + ps[|ps| - 1].x
  }

  function SumY(ps: seq<Vector2>): real
  {
    if ps == [] then 0.0 else SumY(ps[..|ps| - 1]) + ps[|ps| - 1].y
  }

  /** The arithmetic mean of the positions; (0, 0) for none. */
  function Mean(ps: seq<Vector2>): Vector2
  {
    if ps == [] then Zero2 else Vector2(SumX(ps) / |ps| as real, SumY(ps) / |ps| as real)
  }

  /** `GeometricMean`, over the positions of the game objects: adds each
      coordinate divided by the count to a running vector. */
  method GeometricMean(positions: seq<Vector2>) returns (geometricMean: Vector2)
    ensures geometricMean == Mean(positions)
    ensures positions == [] ==> geometricMean == Zero2
  {
    geometricMean := Zero2;
    var count := |positions| as real;
    for i := 0 to |positions|
      invariant positions != [] ==>
        geometricMean == Vector2(SumX(positions[..i]) / count, SumY(positions[..i]) / count)
      invariant positions == [] ==> geometricMean == Zero2
    {
      var minion := positions[i];
      assert positions[..i + 1][..i] == positions[..i];
      geometricMean := geometricMean.(x := geometricMean.x + minion.x / count);
      geometricMean := geometricMean.(y := geometricMean.y + minion.y / count);
    }
    assert positions[..|positions|] == positions;
  }

  lemma {:induction false} SumOfConstant(ps: seq<Vector2>, c: Vector2)
    requires forall i :: 0 <= i < |ps| ==> ps[i] == c
    ensures SumX(ps) == |ps| as real * c.x && SumY(ps) == |ps| as real * c.y
  {
    if ps != [] {
      SumOfConstant(ps[..|ps| - 1], c);
    }
  }

  /** The mean of copies of one position is that position. */
  lemma MeanOfConstant(ps: seq<Vector2>, c: Vector2)
    requires ps != []
    requires forall i :: 0 <= i < |ps| ==> ps[i] == c
    ensures Mean(ps) == c
  {
    SumOfConstant(ps, c);
  }
}
