/** _general_integrate: what a payment that moves a reserve from v2 up to v1 is worth
    while the pool returns to its target v0. */
module Integral {
  import opened Checked
  import opened Arith
  import opened FixedPoint
  import TargetSolver

  function GeneralIntegrate(v0: nat, v1: nat, v2: nat, i: nat, k: nat): Checked<nat> {
    if v0 == 0 then Failure(TargetIsZero)
    else
      var moved :- Sub(v1, v2);
      var fairAmount := i * moved;
      if k == 0 then Success(Quotient(fairAmount, ONE))
      else
        var inner :- Div(v0 * v0, v1);
        var v0v0v1v2 :- TryDivFloor(inner, v2);
        var slack :- Sub(ONE, k);
        Success(PenalisedAmount(slack, MulFloor(k, v0v0v1v2), fairAmount))
  }

  function PenalisedAmount(slack: nat, penalty: nat, fairAmount: nat): nat {
    Quotient((slack + penalty) * fairAmount, ONE2)
  }

  lemma GeneralIntegrateTraps(v0: nat, v1: nat, v2: nat, i: nat, k: nat)
    ensures GeneralIntegrate(v0, v1, v2, i, k).Failure? <==>
            v0 == 0 || v1 < v2 || (k > 0 && (v2 == 0 || k > ONE))
    ensures v2 <= v1 && k <= ONE && GeneralIntegrate(v0, v1, v2, i, k).Failure? ==>
            GeneralIntegrate(v0, v1, v2, i, k).error != Underflow
  {
  }

  /** The doubly floored penalty rate k v0^2 / (v1 v2). */
  function Penalty(v0: nat, v1: nat, v2: nat, k: nat): nat
    requires 0 < v1 && 0 < v2
  {
    MulFloor(k, DivFloor(v0 * v0 / v1, v2))
  }

  /** The k = 0 short cut is the main formula: one closed form for every slope. */
  lemma IntegrateForm(v0: nat, v1: nat, v2: nat, i: nat, k: nat)
    requires 0 < v0 && 0 < v2 <= v1 && k <= ONE
    ensures GeneralIntegrate(v0, v1, v2, i, k)
         == Success((ONE - k + Penalty(v0, v1, v2, k)) * (i * (v1 - v2)) / ONE2)
  {
    if k == 0 {
      DivUnique(0, ONE, 0);
      DivScale(i * (v1 - v2), ONE, ONE);
    }
  }

  lemma PenaltyBounds(v0: nat, v1: nat, v2: nat, k: nat)
    requires 0 < v1 && 0 < v2 && k <= ONE
    ensures Penalty(v0, v1, v2, k) * (v1 * v2) <= k * (v0 * v0)
    ensures k * (v0 * v0) <= (Penalty(v0, v1, v2, k) + 2) * (v1 * v2) + k * v1
  {
    var inner: nat := v0 * v0 / v1;
    var ratio := DivFloor(inner, v2);
    DivBounds(v0 * v0, v1);
    DivBounds(inner * ONE, v2);
    DivBounds(k * ratio, ONE);
    PenaltyUpper(ONE, v0 * v0, v1, v2, k, inner, ratio, Penalty(v0, v1, v2, k));
    PenaltyLower(ONE, v0 * v0, v1, v2, k, inner, ratio, Penalty(v0, v1, v2, k));
  }

  lemma PenaltyUpper(s: nat, n: nat, v1: nat, v2: nat, k: nat, inner: nat, ratio: nat, pen: nat)
    requires 0 < s && v1 * inner <= n && v2 * ratio <= inner * s && s * pen <= k * ratio
    ensures pen * (v1 * v2) <= k * n
  {
    MulMono(s * pen, k * ratio, v1 * v2);
    MulMono(v2 * ratio, inner * s, k * v1);
    MulMono(v1 * inner, n, k * s);
    PenaltyTerms(s, n, v1, v2, k, inner, ratio, pen);
    MulCancel(pen * (v1 * v2), k * n, s);
  }

  lemma PenaltyTerms(s: nat, n: nat, v1: nat, v2: nat, k: nat, inner: nat, ratio: nat, pen: nat)
    ensures (s * pen) * (v1 * v2) == (pen * (v1 * v2)) * s
    ensures (k * ratio) * (v1 * v2) == (v2 * ratio) * (k * v1)
    ensures (inner * s) * (k * v1) == (v1 * inner) * (k * s)
    ensures n * (k * s) == (k * n) * s
  {
  }

  lemma PenaltyLower(s: nat, n: nat, v1: nat, v2: nat, k: nat, inner: nat, ratio: nat, pen: nat)
    requires 0 < s && k <= s
    requires n <= v1 * (inner + 1) && inner * s <= v2 * (ratio + 1) && k * ratio <= s * (pen + 1)
    ensures k * n <= (pen + 2) * (v1 * v2) + k * v1
  {
    MulMono(n, v1 * (inner + 1), k * s);
    MulMono(inner * s, v2 * (ratio + 1), k * v1);
    MulMono(k * ratio, s * (pen + 1), v1 * v2);
    MulMono(k, s, v1 * v2);
    PenaltyTerms(s, n, v1, v2, k, inner + 1, ratio + 1, pen + 1);
    SplitTerms(s, v1, v2, k, inner, ratio, pen);
    MulCancel(k * n, (pen + 2) * (v1 * v2) + k * v1, s);
  }

  lemma SplitTerms(s: nat, v1: nat, v2: nat, k: nat, inner: nat, ratio: nat, pen: nat)
    ensures ((inner + 1) * s) * (k * v1) == (inner * s) * (k * v1) + (k * v1) * s
    ensures (k * (ratio + 1)) * (v1 * v2) == (k * ratio) * (v1 * v2) + k * (v1 * v2)
    ensures ((pen + 2) * (v1 * v2) + k * v1) * s
         == ((pen + 1) * (v1 * v2)) * s + s * (v1 * v2) + (k * v1) * s
  {
  }

  /** The integral bracket: the result never exceeds the unrounded integral
      i (v1 - v2)(1 - k + k v0^2 / v1 v2), and misses it by an explicit allowance. */
  lemma IntegralBracket(v0: nat, v1: nat, v2: nat, i: nat, k: nat)
    requires 0 < v0 && 0 < v2 <= v1 && k <= ONE
    ensures GeneralIntegrate(v0, v1, v2, i, k).Success?
    ensures var r, fair := GeneralIntegrate(v0, v1, v2, i, k).value, i * (v1 - v2);
      && r * ONE2 * (v1 * v2) <= ((ONE - k) * (v1 * v2) + k * (v0 * v0)) * fair
      && ((ONE - k) * (v1 * v2) + k * (v0 * v0) - k * v1 - 2 * (v1 * v2)) * fair < (r + 1) * ONE2 * (v1 * v2)
  {
    IntegrateForm(v0, v1, v2, i, k);
    PenaltyBounds(v0, v1, v2, k);
    var pen, fair := Penalty(v0, v1, v2, k), i * (v1 - v2);
    DivBounds((ONE - k + pen) * fair, ONE2);
    MulStrict(0, v2, v1);
    BracketFromPenalty(ONE2, ONE - k, k * (v0 * v0), pen, v1 * v2, k * v1, fair,
                       (ONE - k + pen) * fair / ONE2);
  }

  lemma BracketFromPenalty(s2: nat, a: nat, kn: nat, pen: nat, d: nat, kv: nat, fair: nat, r: nat)
    requires 0 < d && pen * d <= kn <= (pen + 2) * d + kv
    requires s2 * r <= (a + pen) * fair < s2 * r + s2
    ensures r * s2 * d <= (a * d + kn) * fair
    ensures (a * d + kn - kv - 2 * d) * fair < (r + 1) * s2 * d
  {
    MulMono(s2 * r, (a + pen) * fair, d);
    MulMono(pen * d, kn, fair);
    MulStrict((a + pen) * fair, s2 * r + s2, d);
    MulMono(kn - kv - 2 * d, pen * d, fair);
    assert ((a + pen) * fair) * d == (a * d) * fair + (pen * d) * fair;
    assert (s2 * r) * d == r * s2 * d && (s2 * r + s2) * d == (r + 1) * s2 * d;
    assert (a * d + kn) * fair == (a * d) * fair + kn * fair;
    assert (a * d + kn - kv - 2 * d) * fair == (a * d) * fair + (kn - kv - 2 * d) * fair;
  }

  /** Below target the integral pays at least the guide price. */
  lemma IntegralPriceBound(v0: nat, v1: nat, v2: nat, i: nat, k: nat)
    requires 0 < v2 <= v1 <= v0 && k <= ONE
    ensures GeneralIntegrate(v0, v1, v2, i, k).Success?
    ensures MulFloor(i, v1 - v2) <= GeneralIntegrate(v0, v1, v2, i, k).value
  {
    IntegrateForm(v0, v1, v2, i, k);
    var fair := i * (v1 - v2);
    PenaltyAtLeastSlope(v0, v1, v2, k);
    MulMono(ONE, ONE - k + Penalty(v0, v1, v2, k), fair);
    DivScale(fair, ONE, ONE);
    DivMono(fair * ONE, (ONE - k + Penalty(v0, v1, v2, k)) * fair, ONE2);
  }

  lemma PenaltyAtLeastSlope(v0: nat, v1: nat, v2: nat, k: nat)
    requires 0 < v2 <= v0 && 0 < v1 <= v0
    ensures k <= Penalty(v0, v1, v2, k)
  {
    MulMono(v1, v0, v0);
    DivGreatest(v0 * v0, v1, v0);
    var inner: nat := v0 * v0 / v1;
    MulMono(v2, inner, ONE);
    DivGreatest(inner * ONE, v2, ONE);
    MulMono(ONE, DivFloor(inner, v2), k);
    DivGreatest(k * DivFloor(inner, v2), ONE, k);
  }

  /** A partial sale back towards the target set by SolveTarget never earns more than the
      surplus that target was computed from, as long as the two prices multiply to at
      most one: the unrounded integral grows with p and meets the surplus at p = v0 - v1. */
  lemma PartialSaleWithinSurplus(v1: nat, delta: nat, x: nat, y: nat, k: nat, p: nat)
    requires 0 < v1 && k <= ONE && x * y <= ONE2
    requires TargetSolver.SolveTarget(v1, delta, x, k).Success?
    requires v1 + p <= TargetSolver.SolveTarget(v1, delta, x, k).value
    ensures var v0 := TargetSolver.SolveTarget(v1, delta, x, k).value;
      && GeneralIntegrate(v0, v1 + p, v1, y, k).Success?
      && GeneralIntegrate(v0, v1 + p, v1, y, k).value <= delta
  {
    var v0 := TargetSolver.SolveTarget(v1, delta, x, k).value;
    TargetSolver.TargetBracket(v1, delta, x, k);
    IntegrateForm(v0, v1 + p, v1, y, k);
    PenaltyBounds(v0, v1 + p, v1, k);
    var pen := Penalty(v0, v1 + p, v1, k);
    var rate := ONE - k + pen;
    RateWithinSurplus(ONE - k, k, v0, v1, v1 + p, p, pen, x * delta);
    SurplusPrice(rate, p, x, y, delta, ONE2);
    DivMono(rate * (y * p), delta * ONE2, ONE2);
    DivUnique(delta * ONE2, ONE2, delta);
  }

  lemma SurplusPrice(rate: nat, p: nat, x: nat, y: nat, delta: nat, s2: nat)
    requires rate * p <= x * delta && x * y <= s2
    ensures rate * (y * p) <= delta * s2
  {
    MulMono(rate * p, x * delta, y);
    MulMono(x * y, s2, delta);
    assert rate * (y * p) == (rate * p) * y;
    assert (x * delta) * y == (x * y) * delta;
  }

  /** p (a + pen) <= x, from pen w v1 <= k v0^2 and (v0 - v1)(a v1 + k v0) <= x v1, w = v1 + p. */
  lemma RateWithinSurplus(a: nat, k: nat, v0: nat, v1: nat, w: nat, p: nat, pen: nat, x: nat)
    requires 0 < v1 && w == v1 + p <= v0
    requires pen * (w * v1) <= k * (v0 * v0)
    requires (v0 - v1) * (a * v1 + k * v0) <= x * v1
    ensures (a + pen) * p <= x
  {
    var g := v0 - v1;
    MovedShare(v0, v1, p);
    MulMono(pen * (w * v1), k * (v0 * v0), p);
    MulMono(p * v0, w * g, k * v0);
    MulMono(p, g, a * (w * v1));
    MulMono(g * (a * v1 + k * v0), x * v1, w);
    RateTerms(a, k, v0, v1, w, p, pen, x, g);
    MulStrict(0, v1, w);
    MulCancel((a + pen) * p, x, w * v1);
  }

  /** p / (v1 + p) grows with p, up to (v0 - v1) / v0. */
  lemma MovedShare(v0: nat, v1: nat, p: nat)
    requires v1 + p <= v0
    ensures p * v0 <= (v1 + p) * (v0 - v1)
  {
    assert (v1 + p) * (v0 - v1) - p * v0 == v1 * (v0 - v1 - p);
  }

  lemma RateTerms(a: nat, k: nat, v0: nat, v1: nat, w: nat, p: nat, pen: nat, x: nat, g: nat)
    ensures (k * (v0 * v0)) * p == (p * v0) * (k * v0)
    ensures g * (a * (w * v1)) + (w * g) * (k * v0) == (g * (a * v1 + k * v0)) * w
    ensures ((a + pen) * p) * (w * v1) == p * (a * (w * v1)) + (pen * (w * v1)) * p
    ensures (x * v1) * w == x * (w * v1)
  {
  }
}
