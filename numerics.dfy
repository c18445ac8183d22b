/** The floating-point library the reconstruction calls, kept abstract: the model makes
    no claim about what these functions compute beyond the facts stated on their types. */
module Numerics {
  import FilterKernel

  /** An in-place transform of an interleaved complex buffer in the given direction
      (1 forward, -1 inverse); working in place, it keeps the buffer's length. */
  type Fft = f: (seq<real>, int) -> seq<real> | forall s: seq<real>, d: int :: |f(s, d)| == |s|
    witness (s: seq<real>, d: int) => s

  /** A square root, positive on positive arguments. */
  type Sqrt = f: real -> real | forall x: real :: x > 0.0 ==> f(x) > 0.0
    witness (x: real) => if x > 0.0 then x else 0.0

  /** The fact a `Sqrt` carries, at one argument. */
  lemma SqrtPositive(sqrt: Sqrt, x: real)
    requires x > 0.0
    ensures sqrt(x) > 0.0
  {
  }

  /** `logRatio(b, r)` is `log(b / r)` for a blank sample `b` and a raw sample `r`. */
  datatype MathLib = MathLib(logRatio: (real, real) -> real,
                             sin: real -> real,
                             cos: real -> real,
                             sqrt: Sqrt,
                             window: FilterKernel.Window,
                             fft: Fft)
}
