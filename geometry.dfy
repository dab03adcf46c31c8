/** Two-dimensional vectors over the reals, standing for the simulation's
    single-precision `Vector2`, and the distance function the simulation
    measures lengths with. */
module Geometry {

  datatype Vec = Vec(x: real, y: real)

  function Add(a: Vec, b: Vec): Vec {
    Vec(a.x + b.x, a.y + b.y)
  }

  function Sub(a: Vec, b: Vec): Vec {
    Vec(a.x - b.x, a.y - b.y)
  }

  function Scale(v: Vec, k: real): Vec {
    Vec(v.x * k, v.y * k)
  }

  function Abs(k: real): real {
    if k < 0.0 then -k else k
  }

  /** The Euclidean length of a vector (a square root) is not computed here:
      callers supply it. */
  type Norm = Vec -> real

  /** What the model relies on about the length function: it is never
      negative, and scaling a vector by `k` scales its length by `|k|`
      (both hold of the Euclidean norm). */
  ghost predicate IsNorm(norm: Norm) {
    && (forall v :: norm(v) >= 0.0)
    && (forall v, k :: norm(Scale(v, k)) == Abs(k) * norm(v))
  }

  /** `Vector2.Distance(a, b)`. */
  function Distance(a: Vec, b: Vec, norm: Norm): real {
    norm(Sub(a, b))
  }
}
