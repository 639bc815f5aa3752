/** Error outcomes of the geometry kit. The source throws .NET exceptions; here
    each throwing operation returns one of these values instead. */
module Results {

  datatype Error =
    | IndexOutOfRange      // a matrix or vector index outside {0, 1}
    | BadArgument          // ConvertToRange's ArgumentException: the value lies outside the first range
    | LinesParallel        // LineIntersectionPoint on two parallel lines
    | NotFinite            // a float division by zero whose IEEE result (an infinity or NaN) has no real value

  datatype Result<+T> = Ok(value: T) | Err(error: Error)

  /** The outcome of an operation that returns nothing (a `void` method that may throw). */
  datatype Outcome = Pass | Fail(error: Error)

  datatype Option<+T> = None | Some(value: T)
}

/** The Vector2 and Vector3 value types of the engine, with `float` as `real`. */
module Vectors {
  import opened Results

  datatype Vector2 = Vector2(x: real, y: real)

  datatype Vector3 = Vector3(x: real, y: real, z: real)

  const Zero2 := Vector2(0.0, 0.0)

  function Add(a: Vector2, b: Vector2): Vector2 { Vector2(a.x + b.x, a.y + b.y) }

  function Sub(a: Vector2, b: Vector2): Vector2 { Vector2(a.x - b.x, a.y - b.y) }

  function Neg(a: Vector2): Vector2 { Vector2(-a.x, -a.y) }

  function Scale(a: Vector2, s: real): Vector2 { Vector2(a.x * s, a.y * s) }

  function Dot(a: Vector2, b: Vector2): real { a.x * b.x + a.y * b.y }

  /** The implicit Vector2 -> Vector3 conversion: z becomes 0. */
  function Lift(a: Vector2): Vector3 { Vector3(a.x, a.y, 0.0) }

  /** Vector2's indexer getter: index 0 is x, 1 is y, anything else throws. */
  function Get(v: Vector2, i: int): (r: Result<real>)
    ensures r.Ok? <==> i == 0 || i == 1
    ensures i == 0 ==> r == Ok(v.x)
    ensures i == 1 ==> r == Ok(v.y)
  {
    if i == 0 then Ok(v.x) else if i == 1 then Ok(v.y) else Err(IndexOutOfRange)
  }

  /** Vector2's indexer setter, for an index already known to be 0 or 1. */
  function With(v: Vector2, i: int, value: real): (r: Vector2)
    requires i == 0 || i == 1
    ensures Get(r, i) == Ok(value)
    ensures Get(r, 1 - i) == Get(v, 1 - i)
  {
    if i == 0 then v.(x := value) else v.(y := value)
  }
}
