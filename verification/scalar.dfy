/** Scalars of the engine. The source's `DataType` is `f64`; here it is `real`.
    The transcendental functions and the value of a quotient by zero (an IEEE
    infinity or NaN, which `real` cannot hold) are not defined by the engine
    itself, so they are supplied by the caller as a `MathLib`. */
module Scalar {

  /** The floating-point library the engine calls into. */
  datatype MathLib = MathLib(
    tanh: real -> real,
    exp: real -> real,
    powf: (real, real) -> real,
    overZero: real -> real   // stands for `x / 0.0`, whatever the IEEE result is
  )

  /** Floating-point division `x / y`; exact whenever the divisor is non-zero. */
  function Quot(m: MathLib, x: real, y: real): (q: real)
    ensures y != 0.0 ==> q * y == x
    ensures y == 0.0 ==> q == m.overZero(x)
  {
    if y == 0.0 then m.overZero(x) else x / y
  }

  /** `max(0, x)`, the forward value of a ReLU node. */
  function Relu(x: real): (r: real)
    ensures r >= 0.0 && r >= x
    ensures r == x || r == 0.0
  {
    if x > 0.0 then x else 0.0
  }

  // ---- real-field steps used by the slope lemmas ----

  lemma ProductZero(p: real, q: real)
    requires p * q == 0.0 && q != 0.0
    ensures p == 0.0
  {
  }

  lemma ProductNonZero(p: real, q: real)
    requires p != 0.0 && q != 0.0
    ensures p * q != 0.0
  {
  }

  lemma DivMul(x: real, y: real)
    requires y != 0.0
    ensures (x / y) * y == x
  {
  }

  lemma DivSquare(x: real, y: real)
    requires y != 0.0
    ensures y * y != 0.0 && (x / (y * y)) * (y * y) == x
  {
    ProductNonZero(y, y);
  }

  /** With `a = x / (y + t)`, `b = x / y`, `s = x / y^2`, `u = y / (y + t)`:
      `a - b = -t * s * u`, argued without division. */
  lemma DivisorAlgebra(x: real, y: real, t: real, a: real, b: real, s: real, u: real)
    requires y != 0.0 && y + t != 0.0
    requires a * (y + t) == x && b * y == x && s * (y * y) == x && u * (y + t) == y
    ensures a - b == t * -s * u
  {
    var w := y + t;
    assert (a - b) * (w * y) == (a * w) * y - (b * y) * w;
    assert (t * -s * u) * (w * y) == -(t * s * y) * (u * w);
    assert -(t * s * y) * y == -t * (s * (y * y));
    assert (a - b) * (w * y) == -(t * x);
    assert (t * -s * u) * (w * y) == -(t * x);
    ProductNonZero(w, y);
    ProductZero((a - b) - t * -s * u, w * y);
  }
}
