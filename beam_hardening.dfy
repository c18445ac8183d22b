/** The empirical beam-hardening correction: a cubic in the log attenuation whose
    coefficients are fixed per tube voltage; other voltages are left uncorrected. */
module BeamHardening {
  import opened CMath

  /** q(P) = a*P + b*P^2 + c*P^3 */
  datatype Cubic = Cubic(a: real, b: real, c: real)

  /** The published coefficient sets, keyed by tube voltage in kVp. */
  function CoefficientsFor(kVp: int): (k: Cubic)
    ensures kVp == 45 ==> k == Cubic(0.8346, 0.1656, 0.0069)
    ensures kVp == 55 ==> k == Cubic(0.8260, 0.2111, -0.0042)
    ensures kVp == 65 ==> k == Cubic(0.8159, 0.2636, -0.0195)
    ensures kVp != 45 && kVp != 55 && kVp != 65 ==> k == Cubic(1.0, 0.0, 0.0)
  {
    match kVp
    case 45 => Cubic(0.8346, 0.1656, 0.0069)
    case 55 => Cubic(0.8260, 0.2111, -0.0042)
    case 65 => Cubic(0.8159, 0.2636, -0.0195)
    case _ => Cubic(1.0, 0.0, 0.0)
  }

  function Eval(k: Cubic, p: real): real {
    k.a * p + k.b * p * p + k.c * p * p * p
  }

  /** Corrected attenuation for one sample; the identity for an unlisted voltage. */
  function Correct(kVp: int, p: real): (q: real)
    ensures kVp != 45 && kVp != 55 && kVp != 65 ==> q == p
    ensures p == 0.0 ==> q == 0.0
  {
    Eval(CoefficientsFor(kVp), p)
  }

  /** The cubic in nested (Horner) form. */
  lemma EvalNested(k: Cubic, p: real)
    ensures Eval(k, p) == p * (k.a + p * (k.b + k.c * p))
  {
  }

  /** For every attenuation a 16-bit sample can produce (ln 65535 < 12) the correction of
      a positive attenuation is positive: no calibrated voltage turns absorption into
      emission. */
  lemma CorrectionPositive(kVp: int, p: real)
    requires 0.0 < p <= 12.0
    ensures Correct(kVp, p) > 0.0
  {
    var k := CoefficientsFor(kVp);
    EvalNested(k, p);
    var inner := k.b + k.c * p;
    if k.c < 0.0 {
      MulMonotone(p, 12.0, -k.c);
      assert inner >= k.b + 12.0 * k.c;
    } else {
      MulNonNegative(k.c, p);
    }
    assert inner >= 0.0;
    MulNonNegative(p, inner);
    var outer := k.a + p * inner;
    assert outer > 0.0;
    MulPositive(p, outer);
    assert Eval(k, p) == p * outer;
  }
}
