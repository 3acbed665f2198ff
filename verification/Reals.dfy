// Real-number stand-ins for f32 arithmetic. Rounding is not modelled.
module Reals {

  // An f32 as the safety code classifies it.
  datatype Float = NaN | PosInf | NegInf | Fin(r: real)

  function Abs(x: real): real {
    if x < 0.0 then -x else x
  }

  function Clamp(x: real, lo: real, hi: real): (y: real)
    requires lo <= hi
    ensures lo <= y <= hi
    ensures lo <= x <= hi ==> y == x
  {
    if x < lo then lo else if x > hi then hi else x
  }

  // Any square root: non-negative, and squares back to its argument.
  ghost predicate IsSqrt(sqrt: real -> real) {
    forall x :: x >= 0.0 ==> sqrt(x) >= 0.0 && sqrt(x) * sqrt(x) == x
  }

  // Clamping never moves two numbers apart.
  lemma ClampNonExpansive(x: real, y: real, lo: real, hi: real)
    requires lo <= hi
    ensures Abs(Clamp(x, lo, hi) - Clamp(y, lo, hi)) <= Abs(x - y)
  {
  }

  // Products over positive factors.
  lemma MulMono(a: real, b: real, c: real)
    requires a <= b && c >= 0.0
    ensures a * c <= b * c
  {
  }

  lemma MulStrict(a: real, b: real, c: real)
    requires a < b && c > 0.0
    ensures a * c < b * c
  {
  }

  // Equal products with a positive factor.
  lemma SameFactor(a: real, b: real, d: real)
    requires a * d == b * d && d > 0.0
    ensures a == b
  {
    if a < b {
      MulStrict(a, b, d);
    } else if b < a {
      MulStrict(b, a, d);
    }
  }

  lemma MulCancel(a: real, b: real, c: real)
    requires a * c <= b * c && c > 0.0
    ensures a <= b
  {
    if b < a {
      MulStrict(b, a, c);
    }
  }

  lemma MulSwap(a: real, b: real, c: real)
    ensures a * (b * c) == (a * c) * b
  {
  }

  lemma DivMul(a: real, b: real)
    requires b != 0.0
    ensures a / b * b == a
  {
  }
}
