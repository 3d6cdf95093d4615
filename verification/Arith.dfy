/** Order facts about products and quotients that the fixed-point proofs cite by name. */
module Arith {

  lemma MulMono(a: int, b: int, c: int)
    requires a <= b && 0 <= c
    ensures a * c <= b * c
  {
  }

  lemma MulStrict(a: int, b: int, c: int)
    requires a < b && 0 < c
    ensures a * c < b * c
  {
  }

  /** Cancelling a positive factor. */
  lemma MulCancel(a: int, b: int, c: int)
    requires a * c <= b * c && 0 < c
    ensures a <= b
  {
    if b < a {
      MulStrict(b, a, c);
    }
  }

  lemma MulMono2(a: int, b: int, c: int, d: int)
    requires 0 <= a <= b && 0 <= c <= d
    ensures a * c <= b * d
  {
    MulMono(a, b, c);
    MulMono(c, d, b);
  }

  lemma DivBounds(a: int, b: int)
    requires 0 < b
    ensures b * (a / b) <= a < b * (a / b) + b
  {
  }

  /** A floor quotient is the largest q with q * b <= a. */
  lemma DivGreatest(a: int, b: int, q: int)
    requires 0 < b
    ensures q * b <= a <==> q <= a / b
  {
    DivBounds(a, b);
    if q <= a / b {
      MulMono(q, a / b, b);
    } else {
      MulMono(a / b + 1, q, b);
    }
  }

  lemma DivMono(a: int, c: int, b: int)
    requires 0 < b && a <= c
    ensures a / b <= c / b
  {
    DivBounds(a, b);
    DivGreatest(c, b, a / b);
  }

  lemma DivUnique(a: int, b: int, q: int)
    requires 0 < b && q * b <= a < q * b + b
    ensures a / b == q
  {
    DivGreatest(a, b, q);
    DivGreatest(a, b, q + 1);
  }

  /** Scaling both sides leaves a floor quotient unchanged. */
  lemma DivScale(a: int, b: int, c: int)
    requires 0 < b && 0 < c
    ensures 0 < b * c
    ensures (a * c) / (b * c) == a / b
  {
    DivBounds(a, b);
    var q := a / b;
    MulMono(q * b, a, c);
    MulStrict(a, q * b + b, c);
    assert q * (b * c) == (q * b) * c;
    assert (q * b + b) * c == q * (b * c) + b * c;
    DivUnique(a * c, b * c, q);
  }
}
