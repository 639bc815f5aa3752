/** The mutable 2x2 matrix of the Math2d kit (Assets/Matrix2x2.cs).

    `Mat` is the abstract value of a matrix (its four entries); the functions on
    `Mat` are the specification, and the class `Matrix2x2` is the object the
    source mutates, a `float[,]` buffer modelled as an `array2<real>`. */
module Matrices {
  import opened Results
  import opened Vectors

  /** The four entries of a 2x2 matrix; mRC is row R, column C. */
  datatype Mat = Mat(m00: real, m01: real, m10: real, m11: real)

  const ZeroMat := Mat(0.0, 0.0, 0.0, 0.0)
  const IdentityMat := Mat(1.0, 0.0, 0.0, 1.0)
  const OneMat := Mat(1.0, 1.0, 1.0, 1.0)

  predicate InRange(i: int) { 0 <= i < 2 }

  function Entry(a: Mat, row: int, col: int): real
    requires InRange(row) && InRange(col)
  {
    if row == 0 then (if col == 0 then a.m00 else a.m01)
    else (if col == 0 then a.m10 else a.m11)
  }

  /** `a` with the entry at (row, col) replaced by `v`. */
  function WithEntry(a: Mat, row: int, col: int, v: real): (r: Mat)
    requires InRange(row) && InRange(col)
    ensures Entry(r, row, col) == v
    ensures forall i, j :: InRange(i) && InRange(j) && (i, j) != (row, col) ==> Entry(r, i, j) == Entry(a, i, j)
  {
    if row == 0 then (if col == 0 then a.(m00 := v) else a.(m01 := v))
    else (if col == 0 then a.(m10 := v) else a.(m11 := v))
  }

  function Row(a: Mat, row: int): Vector2
    requires InRange(row)
  {
    Vector2(Entry(a, row, 0), Entry(a, row, 1))
  }

  function Col(a: Mat, col: int): Vector2
    requires InRange(col)
  {
    Vector2(Entry(a, 0, col), Entry(a, 1, col))
  }

  function WithRow(a: Mat, row: int, v: Vector2): Mat
    requires InRange(row)
  {
    if row == 0 then a.(m00 := v.x, m01 := v.y) else a.(m10 := v.x, m11 := v.y)
  }

  function WithCol(a: Mat, col: int, v: Vector2): Mat
    requires InRange(col)
  {
    if col == 0 then a.(m00 := v.x, m10 := v.y) else a.(m01 := v.x, m11 := v.y)
  }

  function Det(a: Mat): real { a.m00 * a.m11 - a.m10 * a.m01 }

  function TransposeOf(a: Mat): Mat { Mat(a.m00, a.m10, a.m01, a.m11) }

  function Scaled(a: Mat, s: real): Mat { Mat(a.m00 * s, a.m01 * s, a.m10 * s, a.m11 * s) }

  function Sum(a: Mat, b: Mat): Mat { Mat(a.m00 + b.m00, a.m01 + b.m01, a.m10 + b.m10, a.m11 + b.m11) }

  /** Element-wise difference, the reference that `Matrix2x2.Minus` is compared with. */
  function Difference(a: Mat, b: Mat): Mat { Mat(a.m00 - b.m00, a.m01 - b.m01, a.m10 - b.m10, a.m11 - b.m11) }

  /** The ordinary matrix product; the source has none, it states what an inverse is. */
  function Product(a: Mat, b: Mat): Mat
  {
    Mat(a.m00 * b.m00 + a.m01 * b.m10, a.m00 * b.m01 + a.m01 * b.m11,
        a.m10 * b.m00 + a.m11 * b.m10, a.m10 * b.m01 + a.m11 * b.m11)
  }

  /** What `inverse` and `Invert()` compute: the cofactor matrix (not the adjugate)
      scaled by 1/det, i.e. the transpose of the true inverse. */
  function InverseAsWritten(a: Mat): Mat
    requires Det(a) != 0.0
  {
    Scaled(Mat(a.m11, -a.m10, -a.m01, a.m00), 1.0 / Det(a))
  }

  /** Dividing by `d` is multiplying by its reciprocal. */
  lemma DivIsMulReciprocal(x: real, d: real)
    requires d != 0.0
    ensures x / d == x * (1.0 / d)
  {
  }

  /** The inverse the documentation promises ("the inverted matrix"): adjugate / det. */
  function TrueInverse(a: Mat): (r: Mat)
    requires Det(a) != 0.0
    ensures Product(a, r) == IdentityMat && Product(r, a) == IdentityMat
  {
    var d := Det(a);
    var k := 1.0 / d;
    var r := Mat(a.m11 * k, -a.m01 * k, -a.m10 * k, a.m00 * k);
    assert d * k == 1.0;
    assert Product(a, r) == Mat(d * k, 0.0, 0.0, d * k);
    assert Product(r, a) == Mat(d * k, 0.0, 0.0, d * k);
    r
  }

  /** `identity` has determinant 1; it is its own inverse. */
  lemma IdentityDeterminant()
    ensures Det(IdentityMat) == 1.0
    ensures InverseAsWritten(IdentityMat) == IdentityMat
  {
  }

  /** `zero` and `one` are singular. */
  lemma SingularConstants()
    ensures Det(ZeroMat) == 0.0 && Det(OneMat) == 0.0
  {
  }

  lemma TransposedInvolution(a: Mat)
    ensures TransposeOf(TransposeOf(a)) == a
    ensures Det(TransposeOf(a)) == Det(a)
    ensures forall i, j :: InRange(i) && InRange(j) ==> Entry(TransposeOf(a), i, j) == Entry(a, j, i)
  {
  }

  /** The inverse as written has determinant 1/det. */
  /** The entries of the inverse as written, each divided by the determinant. */
  lemma InverseAsWrittenEntries(a: Mat)
    requires Det(a) != 0.0
    ensures InverseAsWritten(a) == Mat(a.m11 / Det(a), -a.m10 / Det(a), -a.m01 / Det(a), a.m00 / Det(a))
  {
    DivIsMulReciprocal(a.m11, Det(a));
    DivIsMulReciprocal(-a.m10, Det(a));
    DivIsMulReciprocal(-a.m01, Det(a));
    DivIsMulReciprocal(a.m00, Det(a));
  }

  lemma DetInverseAsWritten(a: Mat)
    requires Det(a) != 0.0
    ensures Det(InverseAsWritten(a)) == 1.0 / Det(a)
  {
    var d := Det(a);
    var k := 1.0 / d;
    calc {
      Det(InverseAsWritten(a));
      (a.m11 * k) * (a.m00 * k) - (-a.m01 * k) * (-a.m10 * k);
      (a.m00 * a.m11 - a.m10 * a.m01) * (k * k);
      d * (k * k);
      (d * k) * k;
      { assert d * k == 1.0; }
      k;
    }
  }

  /** Inverting twice (as written) restores the original matrix. */
  lemma InverseAsWrittenInvolution(a: Mat)
    requires Det(a) != 0.0
    ensures Det(InverseAsWritten(a)) != 0.0
    ensures InverseAsWritten(InverseAsWritten(a)) == a
  {
    var d := Det(a);
    var k := 1.0 / d;
    DetInverseAsWritten(a);
    var b := InverseAsWritten(a);
    assert 1.0 / Det(b) == d;
    assert d * k == 1.0;
    assert b.m11 * d == a.m00 by { assert b.m11 * d == a.m00 * (k * d); }
    assert -b.m10 * d == a.m01 by { assert -b.m10 * d == a.m01 * (k * d); }
    assert -b.m01 * d == a.m10 by { assert -b.m01 * d == a.m10 * (k * d); }
    assert b.m00 * d == a.m11 by { assert b.m00 * d == a.m11 * (k * d); }
  }

  /** The source's inverse is the transpose of the true inverse. */
  lemma InverseAsWrittenIsTransposedInverse(a: Mat)
    requires Det(a) != 0.0
    ensures InverseAsWritten(a) == TransposeOf(TrueInverse(a))
  {
  }

  /** The as-written inverse is an inverse exactly for symmetric matrices. */
  lemma InverseAsWrittenOnlySymmetric(a: Mat)
    requires Det(a) != 0.0
    ensures Product(a, InverseAsWritten(a)) == IdentityMat <==> a.m01 == a.m10
  {
    var d := Det(a);
    var k := 1.0 / d;
    assert d * k == 1.0;
    var p := Product(a, InverseAsWritten(a));
    assert p.m00 == (a.m00 * a.m11 - a.m01 * a.m01) * k;
    assert p.m11 == (a.m00 * a.m11 - a.m10 * a.m10) * k;
    if p == IdentityMat {
      assert a.m00 * a.m11 - a.m01 * a.m01 == d by {
        CancelNonZeroFactor(a.m00 * a.m11 - a.m01 * a.m01, d, k);
      }
      assert a.m00 * a.m11 - a.m10 * a.m10 == d by {
        CancelNonZeroFactor(a.m00 * a.m11 - a.m10 * a.m10, d, k);
      }
      assert (a.m01 - a.m10) * (a.m01 - a.m10) == 0.0;
    } else {
      InverseAsWrittenIsTransposedInverse(a);
    }
  }

  lemma CancelNonZeroFactor(u: real, v: real, k: real)
    requires k != 0.0 && u * k == v * k
    ensures u == v
  {
    assert (u - v) * k == 0.0;
  }

  /** A concrete invertible matrix, [[1, 1], [0, 1]], for which the inverse
      as written is not an inverse. */
  lemma InverseAsWrittenNotInverse()
    ensures Det(Mat(1.0, 1.0, 0.0, 1.0)) == 1.0
    ensures Product(Mat(1.0, 1.0, 0.0, 1.0), InverseAsWritten(Mat(1.0, 1.0, 0.0, 1.0))) != IdentityMat
  {
    UnitShearInverseAsWritten();
    UnitShearProduct();
  }

  lemma UnitShearProduct()
    ensures Product(Mat(1.0, 1.0, 0.0, 1.0), Mat(1.0, 0.0, -1.0, 1.0)) == Mat(0.0, 1.0, -1.0, 1.0)
  {
  }

  lemma UnitShearInverseAsWritten()
    ensures Det(Mat(1.0, 1.0, 0.0, 1.0)) == 1.0
    ensures InverseAsWritten(Mat(1.0, 1.0, 0.0, 1.0)) == Mat(1.0, 0.0, -1.0, 1.0)
  {
    var a := Mat(1.0, 1.0, 0.0, 1.0);
    assert Det(a) == 1.0;
    assert 1.0 / Det(a) == 1.0;
  }

  /** Reading back a column or row just written; the other one is untouched. */
  lemma ColRowRoundTrip(a: Mat, i: int, v: Vector2)
    requires InRange(i)
    ensures Col(WithCol(a, i, v), i) == v && Col(WithCol(a, i, v), 1 - i) == Col(a, 1 - i)
    ensures Row(WithRow(a, i, v), i) == v && Row(WithRow(a, i, v), 1 - i) == Row(a, 1 - i)
    ensures WithCol(a, i, Col(a, i)) == a && WithRow(a, i, Row(a, i)) == a
  {
  }

  /** Subtraction as the source writes it (mat1 + (-1) * mat2) is element-wise difference. */
  lemma SumNegatedIsDifference(a: Mat, b: Mat)
    ensures Sum(a, Scaled(b, -1.0)) == Difference(a, b)
  {
  }

  /** A 2x2 matrix object over a `float[,]` buffer. */
  class Matrix2x2 {
    const matrix: array2<real>

    ghost predicate Valid()
    {
      matrix.Length0 == 2 && matrix.Length1 == 2
    }

    /** The abstract value held by the buffer. */
    ghost function Value(): Mat
      reads matrix
      requires Valid()
    {
      Mat(matrix[0, 0], matrix[0, 1], matrix[1, 0], matrix[1, 1])
    }

    /** The zero matrix. */
    constructor ()
      ensures Valid() && fresh(matrix)
      ensures Value() == ZeroMat
    {
      matrix := new real[2, 2]((_, _) => 0.0);
    }

    /** `identity`: a fresh zero matrix with 1 on the diagonal. */
    static method Identity() returns (r: Matrix2x2)
      ensures r.Valid() && fresh(r.matrix)
      ensures r.Value() == IdentityMat
    {
      r := new Matrix2x2();
      r.matrix[0, 0] := 1.0;
      r.matrix[1, 1] := 1.0;
    }

    /** `zero`: a fresh zero matrix. */
    static method Zero() returns (r: Matrix2x2)
      ensures r.Valid() && fresh(r.matrix)
      ensures r.Value() == ZeroMat
    {
      r := new Matrix2x2();
    }

    /** `one`: a fresh matrix whose four entries are 1. */
    static method One() returns (r: Matrix2x2)
      ensures r.Valid() && fresh(r.matrix)
      ensures r.Value() == OneMat
    {
      r := new Matrix2x2();
      r.matrix[0, 0] := 1.0;
      r.matrix[0, 1] := 1.0;
      r.matrix[1, 0] := 1.0;
      r.matrix[1, 1] := 1.0;
    }

    /** `isIdentity`. */
    function IsIdentity(): (b: bool)
      reads matrix
      requires Valid()
      ensures b <==> Value() == IdentityMat
    {
      matrix[0, 0] == 1.0 && matrix[0, 1] == 0.0 && matrix[1, 0] == 0.0 && matrix[1, 1] == 1.0
    }

    /** `determinant`. */
    function Determinant(): (d: real)
      reads matrix
      requires Valid()
      ensures d == Det(Value())
      ensures d == 0.0 <==> Row(Value(), 0).x * Row(Value(), 1).y == Row(Value(), 0).y * Row(Value(), 1).x
    {
      matrix[0, 0] * matrix[1, 1] - matrix[1, 0] * matrix[0, 1]
    }

    /** The indexer's getter: throws IndexOutOfRange unless both keys are 0 or 1. */
    function Get(key1: int, key2: int): (r: Result<real>)
      reads matrix
      requires Valid()
      ensures r.Ok? <==> InRange(key1) && InRange(key2)
      ensures r.Ok? ==> r.value == Entry(Value(), key1, key2)
      ensures r.Err? ==> r.error == IndexOutOfRange
    {
      if key1 >= 2 || key1 < 0 || key2 >= 2 || key2 < 0 then Err(IndexOutOfRange)
      else Ok(matrix[key1, key2])
    }

    /** The indexer's setter: throws IndexOutOfRange (and changes nothing) unless
        both keys are 0 or 1; otherwise changes exactly that one entry. */
    method Set(key1: int, key2: int, value: real) returns (o: Outcome)
      requires Valid()
      modifies matrix
      ensures o.Pass? <==> InRange(key1) && InRange(key2)
      ensures o.Fail? ==> o.error == IndexOutOfRange && Value() == old(Value())
      ensures o.Pass? ==> Value() == WithEntry(old(Value()), key1, key2, value)
    {
      if key1 >= 2 || key1 < 0 || key2 >= 2 || key2 < 0 {
        return Fail(IndexOutOfRange);
      }
      matrix[key1, key2] := value;
      o := Pass;
    }

    /** `transpose`: a fresh matrix; the receiver is left unchanged. */
    method Transposed() returns (t: Matrix2x2)
      requires Valid()
      ensures t.Valid() && fresh(t.matrix)
      ensures t.Value() == TransposeOf(Value())
    {
      t := new Matrix2x2();
      t.matrix[0, 0] := matrix[0, 0];
      t.matrix[0, 1] := matrix[1, 0];
      t.matrix[1, 0] := matrix[0, 1];
      t.matrix[1, 1] := matrix[1, 1];
    }

    /** `Transpose()`: swaps the off-diagonal entries in place. */
    method Transpose()
      requires Valid()
      modifies matrix
      ensures Value() == TransposeOf(old(Value()))
    {
      var tmp := matrix[0, 1];
      matrix[0, 1] := matrix[1, 0];
      matrix[1, 0] := tmp;
    }

    /** `inverse`: a fresh matrix; the receiver is left unchanged. The source
        divides by the determinant, so callers must not ask when it is 0. */
    method Inverse() returns (r: Matrix2x2)
      requires Valid() && Det(Value()) != 0.0
      ensures r.Valid() && fresh(r.matrix)
      ensures r.Value() == InverseAsWritten(Value())
    {
      var inverseMatrix := new Matrix2x2();
      var det := Determinant();
      inverseMatrix.matrix[0, 0] := matrix[1, 1];
      inverseMatrix.matrix[0, 1] := -matrix[1, 0];
      inverseMatrix.matrix[1, 0] := -matrix[0, 1];
      inverseMatrix.matrix[1, 1] := matrix[0, 0];
      r := Scale(inverseMatrix, 1.0 / det);
    }

    /** `Invert()`: the same value as `inverse`, computed in place. */
    method Invert()
      requires Valid() && Det(Value()) != 0.0
      modifies matrix
      ensures Value() == InverseAsWritten(old(Value()))
    {
      var det := Determinant();
      InverseAsWrittenEntries(Value());
      var tmp := matrix[0, 0];
      matrix[0, 0] := matrix[1, 1] / det;
      matrix[1, 1] := tmp / det;

      tmp := matrix[0, 1];
      matrix[0, 1] := -matrix[1, 0] / det;
      matrix[1, 0] := -tmp / det;
    }

    /** `GetRow`: throws IndexOutOfRange unless row is 0 or 1. */
    method GetRow(row: int) returns (res: Result<Vector2>)
      requires Valid()
      ensures res.Ok? <==> InRange(row)
      ensures res.Ok? ==> res.value == Row(Value(), row)
      ensures res.Err? ==> res.error == IndexOutOfRange
    {
      if row >= 2 || row < 0 {
        return Err(IndexOutOfRange);
      }
      var rowVec := Vector2(0.0, 0.0);
      for col := 0 to 2
        invariant forall c :: 0 <= c < col ==> Vectors.Get(rowVec, c) == Ok(matrix[row, c])
      {
        rowVec := With(rowVec, col, matrix[row, col]);
      }
      assert Vectors.Get(rowVec, 0) == Ok(matrix[row, 0]);
      assert Vectors.Get(rowVec, 1) == Ok(matrix[row, 1]);
      res := Ok(rowVec);
    }

    /** `GetCol`: throws IndexOutOfRange unless col is 0 or 1. */
    method GetCol(col: int) returns (res: Result<Vector2>)
      requires Valid()
      ensures res.Ok? <==> InRange(col)
      ensures res.Ok? ==> res.value == Col(Value(), col)
      ensures res.Err? ==> res.error == IndexOutOfRange
    {
      if col >= 2 || col < 0 {
        return Err(IndexOutOfRange);
      }
      var colVec := Vector2(0.0, 0.0);
      for row := 0 to 2
        invariant forall r :: 0 <= r < row ==> Vectors.Get(colVec, r) == Ok(matrix[r, col])
      {
        colVec := With(colVec, row, matrix[row, col]);
      }
      assert Vectors.Get(colVec, 0) == Ok(matrix[0, col]);
      assert Vectors.Get(colVec, 1) == Ok(matrix[1, col]);
      res := Ok(colVec);
    }

    /** `SetRow`: throws IndexOutOfRange (changing nothing) unless row is 0 or 1;
        otherwise overwrites that row and leaves the other one alone. */
    method SetRow(row: int, rowVec: Vector2) returns (o: Outcome)
      requires Valid()
      modifies matrix
      ensures o.Pass? <==> InRange(row)
      ensures o.Fail? ==> o.error == IndexOutOfRange && Value() == old(Value())
      ensures o.Pass? ==> Value() == WithRow(old(Value()), row, rowVec)
    {
      if row >= 2 || row < 0 {
        return Fail(IndexOutOfRange);
      }
      for col := 0 to 2
        invariant forall c :: 0 <= c < col ==> Vectors.Get(rowVec, c) == Ok(matrix[row, c])
        invariant forall c :: col <= c < 2 ==> matrix[row, c] == old(matrix[row, c])
        invariant matrix[1 - row, 0] == old(matrix[1 - row, 0]) && matrix[1 - row, 1] == old(matrix[1 - row, 1])
      {
        matrix[row, col] := Vectors.Get(rowVec, col).value;
      }
      assert Vectors.Get(rowVec, 0) == Ok(matrix[row, 0]);
      assert Vectors.Get(rowVec, 1) == Ok(matrix[row, 1]);
      o := Pass;
    }

    /** `SetCol`: throws IndexOutOfRange (changing nothing) unless col is 0 or 1;
        otherwise overwrites that column and leaves the other one alone. */
    method SetCol(col: int, colVec: Vector2) returns (o: Outcome)
      requires Valid()
      modifies matrix
      ensures o.Pass? <==> InRange(col)
      ensures o.Fail? ==> o.error == IndexOutOfRange && Value() == old(Value())
      ensures o.Pass? ==> Value() == WithCol(old(Value()), col, colVec)
    {
      if col >= 2 || col < 0 {
        return Fail(IndexOutOfRange);
      }
      for row := 0 to 2
        invariant forall r :: 0 <= r < row ==> Vectors.Get(colVec, r) == Ok(matrix[r, col])
        invariant forall r :: row <= r < 2 ==> matrix[r, col] == old(matrix[r, col])
        invariant matrix[0, 1 - col] == old(matrix[0, 1 - col]) && matrix[1, 1 - col] == old(matrix[1, 1 - col])
      {
        matrix[row, col] := Vectors.Get(colVec, row).value;
      }
      assert Vectors.Get(colVec, 0) == Ok(matrix[0, col]);
      assert Vectors.Get(colVec, 1) == Ok(matrix[1, col]);
      o := Pass;
    }

    /** `operator *(Matrix2x2, float)`: a fresh, element-wise scaled matrix. */
    static method Scale(mat: Matrix2x2, scalar: real) returns (scaled: Matrix2x2)
      requires mat.Valid()
      ensures scaled.Valid() && fresh(scaled.matrix)
      ensures scaled.Value() == Scaled(mat.Value(), scalar)
    {
      scaled := new Matrix2x2();
      ghost var target := Scaled(mat.Value(), scalar);
      for row := 0 to 2
        invariant forall i, j :: 0 <= i < row && 0 <= j < 2 ==> scaled.matrix[i, j] == Entry(target, i, j)
      {
        for col := 0 to 2
          invariant forall i, j :: 0 <= i < row && 0 <= j < 2 ==> scaled.matrix[i, j] == Entry(target, i, j)
          invariant forall j :: 0 <= j < col ==> scaled.matrix[row, j] == Entry(target, row, j)
        {
          scaled.matrix[row, col] := mat.matrix[row, col] * scalar;
        }
      }
      assert scaled.matrix[0, 0] == Entry(target, 0, 0) && scaled.matrix[0, 1] == Entry(target, 0, 1);
      assert scaled.matrix[1, 0] == Entry(target, 1, 0) && scaled.matrix[1, 1] == Entry(target, 1, 1);
    }

    /** `operator *(float, Matrix2x2)`: defined as `matrix * scalar`. */
    static method ScaleLeft(scalar: real, mat: Matrix2x2) returns (scaled: Matrix2x2)
      requires mat.Valid()
      ensures scaled.Valid() && fresh(scaled.matrix)
      ensures scaled.Value() == Scaled(mat.Value(), scalar)
    {
      scaled := Scale(mat, scalar);
    }

    /** `operator +`: a fresh, element-wise sum. */
    static method Plus(mat1: Matrix2x2, mat2: Matrix2x2) returns (sum: Matrix2x2)
      requires mat1.Valid() && mat2.Valid()
      ensures sum.Valid() && fresh(sum.matrix)
      ensures sum.Value() == Sum(mat1.Value(), mat2.Value())
    {
      sum := new Matrix2x2();
      for row := 0 to 2
        invariant forall i, j :: 0 <= i < row && 0 <= j < 2 ==> sum.matrix[i, j] == mat1.matrix[i, j] + mat2.matrix[i, j]
      {
        for col := 0 to 2
          invariant forall i, j :: 0 <= i < row && 0 <= j < 2 ==> sum.matrix[i, j] == mat1.matrix[i, j] + mat2.matrix[i, j]
          invariant forall j :: 0 <= j < col ==> sum.matrix[row, j] == mat1.matrix[row, j] + mat2.matrix[row, j]
        {
          sum.matrix[row, col] := mat1.matrix[row, col] + mat2.matrix[row, col];
        }
      }
    }

    /** `operator -`: `mat2 *= -1` rebinds the parameter to a fresh matrix, so
        the caller's `mat2` is not changed (this method modifies nothing). */
    static method Minus(mat1: Matrix2x2, mat2: Matrix2x2) returns (diff: Matrix2x2)
      requires mat1.Valid() && mat2.Valid()
      ensures diff.Valid() && fresh(diff.matrix)
      ensures diff.Value() == Sum(mat1.Value(), Scaled(mat2.Value(), -1.0))
      ensures diff.Value() == Difference(mat1.Value(), mat2.Value())
    {
      var negated := Scale(mat2, -1.0);
      diff := Plus(mat1, negated);
      SumNegatedIsDifference(mat1.Value(), mat2.Value());
    }

    /** `operator ==`: element-wise comparison, stopping at the first difference. */
    static method Equal(mat1: Matrix2x2, mat2: Matrix2x2) returns (same: bool)
      requires mat1.Valid() && mat2.Valid()
      ensures same <==> mat1.Value() == mat2.Value()
    {
      for row := 0 to 2
        invariant forall i, j :: 0 <= i < row && 0 <= j < 2 ==> mat1.matrix[i, j] == mat2.matrix[i, j]
      {
        for col := 0 to 2
          invariant forall i, j :: 0 <= i < row && 0 <= j < 2 ==> mat1.matrix[i, j] == mat2.matrix[i, j]
          invariant forall j :: 0 <= j < col ==> mat1.matrix[row, j] == mat2.matrix[row, j]
        {
          if mat1.matrix[row, col] != mat2.matrix[row, col] {
            return false;
          }
        }
      }
      return true;
    }

    /** `operator !=`: the negation of `==`. */
    static method NotEqual(mat1: Matrix2x2, mat2: Matrix2x2) returns (differ: bool)
      requires mat1.Valid() && mat2.Valid()
      ensures differ <==> mat1.Value() != mat2.Value()
    {
      var same := Equal(mat1, mat2);
      differ := !same;
    }

    /** `Equals(object)`: false for anything that is not a matrix (null included),
        otherwise `==`. */
    method Equals(obj: object?) returns (same: bool)
      requires Valid()
      requires obj is Matrix2x2 ==> (obj as Matrix2x2).Valid()
      ensures same <==> obj is Matrix2x2 && (obj as Matrix2x2).Value() == Value()
    {
      if !(obj is Matrix2x2) {
        return false;
      }
      var mat := obj as Matrix2x2;
      same := Equal(mat, this);
    }
  }
}
