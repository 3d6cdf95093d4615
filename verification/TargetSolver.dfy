/** _solve_quadratic_function_for_target: the target V0 at which the pool's surplus
    would be exactly paid back. It never overshoots the pricing curve. */
module TargetSolver {
  import opened Checked
  import opened Arith
  import opened FixedPoint

  /** sqrt(1 + 4 k i delta / v1) in 18 decimals, with the source's overflow fallback. */
  function TargetRoot(v1: nat, delta: nat, ki: nat): Checked<nat> {
    if ki == 0 then Success(ONE)
    else
      if ki * delta / ki == delta then
        var ratio :- Div(ki * delta, v1);
        Success(Isqrt(ratio + ONE2))
      else
        var ratio :- Div(ki, v1);
        Success(Isqrt(ratio * delta + ONE2))
  }

  /** (sqrt - 1) / 2k in 18 decimals. */
  function PremiumGain(u: nat, k: nat): nat
    requires 0 < k
  {
    DivFloor(u, k * 2)
  }

  function SolveTarget(v1: nat, delta: nat, i: nat, k: nat): Checked<nat> {
    if k == 0 then Success(v1 + MulFloor(i, delta))
    else
      var root :- TargetRoot(v1, delta, 4 * k * i);
      TargetFromRoot(v1, root, k)
  }

  function TargetFromRoot(v1: nat, root: nat, k: nat): Checked<nat>
    requires 0 < k
  {
    var gain :- Sub(root, ONE);
    Success(MulFloor(v1, PremiumGain(gain, k) + ONE))
  }

  /** The overflow fallback is dead code over unbounded Nat, and the `ki == 0` short cut
      agrees with the main formula: one closed form covers every branch. */
  lemma RootClosedForm(v1: nat, delta: nat, ki: nat)
    ensures 0 < v1 ==> TargetRoot(v1, delta, ki) == Success(Isqrt(ki * delta / v1 + ONE2))
    ensures v1 == 0 < ki ==> TargetRoot(v1, delta, ki) == Failure(DivisionByZero)
  {
    if ki == 0 {
      IsqrtExact(ONE);
      if 0 < v1 {
        DivUnique(0, v1, 0);
      }
    } else {
      DivUnique(ki * delta, ki, delta);
    }
  }

  lemma RootAtLeastOne(n: nat)
    ensures ONE <= Isqrt(n + ONE2)
  {
    IsqrtExact(ONE);
    IsqrtMono(ONE2, n + ONE2);
  }

  /** 4 k i delta, what the square root is taken of, before dividing by v1. */
  function RootInput(delta: nat, i: nat, k: nat): nat {
    4 * k * i * delta
  }

  /** u = sqrt - 1. */
  function RootGain(v1: nat, input: nat): nat
    requires 0 < v1
  {
    RootAtLeastOne(Quotient(input, v1));
    Isqrt(Quotient(input, v1) + ONE2) - ONE
  }

  lemma SolveTargetForm(v1: nat, delta: nat, i: nat, k: nat)
    requires 0 < v1 && 0 < k
    ensures SolveTarget(v1, delta, i, k)
         == Success(MulFloor(v1, PremiumGain(RootGain(v1, RootInput(delta, i, k)), k) + ONE))
  {
    var n := Quotient(RootInput(delta, i, k), v1);
    RootClosedForm(v1, delta, 4 * k * i);
    RootAtLeastOne(n);
    SolveTargetFromRoot(v1, delta, i, k, Isqrt(n + ONE2));
  }

  lemma SolveTargetFromRoot(v1: nat, delta: nat, i: nat, k: nat, root: nat)
    requires 0 < k && ONE <= root && TargetRoot(v1, delta, 4 * k * i) == Success(root)
    ensures SolveTarget(v1, delta, i, k) == Success(MulFloor(v1, PremiumGain(root - ONE, k) + ONE))
  {
  }

  /** The solver traps on one input family only, an emptied reserve on a sloped curve,
      and then by dividing by it: it never underflows. */
  lemma SolveTargetTraps(v1: nat, delta: nat, i: nat, k: nat)
    ensures SolveTarget(v1, delta, i, k).Failure? <==> v1 == 0 < k && 0 < i
    ensures SolveTarget(v1, delta, i, k).Failure? ==> SolveTarget(v1, delta, i, k).error == DivisionByZero
    ensures v1 == 0 < k && i == 0 ==> SolveTarget(v1, delta, i, k) == Success(0)
  {
    if k > 0 {
      if v1 > 0 {
        SolveTargetForm(v1, delta, i, k);
      } else if i > 0 {
        MulStrict(0, i, 4 * k);
        RootClosedForm(v1, delta, 4 * k * i);
      }
    }
  }

  /** What the floor square root says about u = sqrt - 1, with x = i * delta. */
  lemma RootGainBounds(v1: nat, kx: nat, s: nat, u: nat)
    requires 0 < v1
    requires IsFloorRoot(s + u, kx / v1 + s * s)
    ensures v1 * (u * (u + 2 * s)) <= kx < v1 * ((u + 1) * (u + 1 + 2 * s))
  {
    var n := kx / v1;
    DivBounds(kx, v1);
    assert (s + u) * (s + u) == s * s + u * (u + 2 * s);
    assert (s + u + 1) * (s + u + 1) == s * s + (u + 1) * (u + 1 + 2 * s);
    MulMono(u * (u + 2 * s), n, v1);
    MulMono(n + 1, (u + 1) * (u + 1 + 2 * s), v1);
  }

  /** From premium and result roundings: 2 k g <= v1 u. */
  lemma GainBelowRoot(s: nat, k: nat, v1: nat, u: nat, t: nat, g: nat)
    requires 0 < s
    requires 2 * k * t <= u * s
    requires s * g <= v1 * t
    ensures 2 * k * g <= v1 * u
  {
    MulMono(s * g, v1 * t, 2 * k);
    MulMono(2 * k * t, u * s, v1);
    Swap4(s, g, 2 * k, v1, t, u);
    MulCancel(2 * k * g, v1 * u, s);
  }

  lemma Swap4(s: nat, g: nat, m: nat, v1: nat, t: nat, u: nat)
    ensures (s * g) * m == (m * g) * s
    ensures (v1 * t) * m == (m * t) * v1
    ensures (u * s) * v1 == (v1 * u) * s
  {
  }

  lemma QuadraticMono(z: nat, w: nat, c: nat)
    requires z <= w
    ensures z * (z + c) <= w * (w + c)
  {
    MulMono2(z, w, z + c, w + c);
  }

  lemma ExpandGain(s: nat, k: nat, v1: nat, g: nat)
    ensures (2 * k * g) * (2 * k * g + 2 * s * v1) == (g * (s * v1 + k * g)) * (4 * k)
  {
  }

  lemma ExpandRoot(s: nat, v1: nat, u: nat)
    ensures (v1 * u) * (v1 * u + 2 * s * v1) == (v1 * (u * (u + 2 * s))) * v1
  {
  }

  lemma SwapInput(k: nat, x: nat, v1: nat)
    ensures (4 * k * x) * v1 == (x * v1) * (4 * k)
  {
  }

  /** Rounding down at every step keeps g = V0 - V1 under the exact root. */
  lemma GainUpper(s: nat, k: nat, v1: nat, x: nat, u: nat, t: nat, g: nat)
    requires 0 < s && 0 < k
    requires v1 * (u * (u + 2 * s)) <= 4 * k * x
    requires 2 * k * t <= u * s
    requires s * g <= v1 * t
    ensures g * (s * v1 + k * g) <= x * v1
  {
    GainBelowRoot(s, k, v1, u, t, g);
    QuadraticMono(2 * k * g, v1 * u, 2 * s * v1);
    ExpandGain(s, k, v1, g);
    ExpandRoot(s, v1, u);
    MulMono(v1 * (u * (u + 2 * s)), 4 * k * x, v1);
    SwapInput(k, x, v1);
    MulCancel(g * (s * v1 + k * g), x * v1, 4 * k);
  }

  /** The roundings of premium and result lose at most the allowance of TargetBracket. */
  lemma GainAboveRoot(s: nat, k: nat, v1: nat, u: nat, t: nat, g: nat)
    requires u * s < 2 * k * (t + 1)
    requires v1 * t < s * (g + 1)
    ensures s * (v1 * (u + 1)) <= 2 * k * s * g + (2 * k * s + 2 * k * v1 + s * v1)
  {
    MulMono(u * s, 2 * k * (t + 1), v1);
    MulMono(v1 * t, s * (g + 1), 2 * k);
    ExpandAllowance(s, k, v1, u, t, g);
  }

  lemma ExpandAllowance(s: nat, k: nat, v1: nat, u: nat, t: nat, g: nat)
    ensures (u * s) * v1 == s * (v1 * (u + 1)) - s * v1
    ensures (2 * k * (t + 1)) * v1 == (v1 * t) * (2 * k) + 2 * k * v1
    ensures (s * (g + 1)) * (2 * k) == 2 * k * s * g + 2 * k * s
  {
  }

  lemma ExpandScaledRoot(s: nat, v1: nat, u: nat)
    ensures (v1 * ((u + 1) * (u + 1 + 2 * s))) * (v1 * s * s)
         == (s * (v1 * (u + 1))) * (s * (v1 * (u + 1)) + 2 * s * s * v1)
  {
  }

  lemma SwapScaledInput(s: nat, k: nat, x: nat, v1: nat)
    ensures (4 * k * x) * (v1 * s * s) == 4 * k * s * s * (x * v1)
  {
  }

  lemma GainLower(s: nat, k: nat, v1: nat, x: nat, u: nat, t: nat, g: nat, z: nat)
    requires 0 < s && 0 < v1
    requires 4 * k * x < v1 * ((u + 1) * (u + 1 + 2 * s))
    requires u * s < 2 * k * (t + 1)
    requires v1 * t < s * (g + 1)
    requires z == 2 * k * s * g + (2 * k * s + 2 * k * v1 + s * v1)
    ensures 4 * k * s * s * (x * v1) < z * (z + 2 * s * s * v1)
  {
    GainAboveRoot(s, k, v1, u, t, g);
    QuadraticMono(s * (v1 * (u + 1)), z, 2 * s * s * v1);
    ScaleStrict(s, v1, 4 * k * x, v1 * ((u + 1) * (u + 1 + 2 * s)));
    ExpandScaledRoot(s, v1, u);
    SwapScaledInput(s, k, x, v1);
  }

  lemma ScaleStrict(s: nat, v1: nat, m: nat, n: nat)
    requires 0 < s && 0 < v1 && m < n
    ensures m * (v1 * s * s) < n * (v1 * s * s)
  {
    MulStrict(0, v1, s);
    MulStrict(0, v1 * s, s);
    MulStrict(m, n, v1 * s * s);
  }

  /** The result's floor: V0 = v1 + g with s g <= v1 t < s (g + 1). */
  lemma ResultFloor(s: nat, v1: nat, t: nat, v0: nat)
    requires 0 < s && v0 == v1 * (t + s) / s
    ensures v1 <= v0
    ensures s * (v0 - v1) <= v1 * t < s * (v0 - v1 + 1)
  {
    DivBounds(v1 * (t + s), s);
    assert v1 * (t + s) == v1 * t + v1 * s;
    DivGreatest(v1 * (t + s), s, v1);
  }

  /** The exact quadratic at V0 = v1 + g, written as the source's comment has it. */
  lemma CurveForm(s: nat, k: nat, v1: nat, g: nat)
    ensures g * ((s - k) * v1 + k * (v1 + g)) == g * (s * v1 + k * g)
  {
    assert (s - k) * v1 + k * (v1 + g) == s * v1 + k * g;
  }

  ghost predicate UnderCurve(v0: nat, v1: nat, delta: nat, i: nat, k: nat) {
    v1 <= v0 && (v0 - v1) * ((ONE - k) * v1 + k * v0) <= i * delta * v1
  }

  ghost predicate NearCurve(v0: nat, v1: nat, delta: nat, i: nat, k: nat) {
    var z := 2 * k * ONE * (v0 - v1) + (2 * k * ONE + 2 * k * v1 + ONE * v1);
    4 * k * ONE * ONE * (i * delta * v1) < z * (z + 2 * ONE * ONE * v1)
  }

  lemma TargetBracketSloped(v1: nat, delta: nat, i: nat, k: nat, u: nat, t: nat, v0: nat)
    requires 0 < v1 && 0 < k
    requires u == RootGain(v1, RootInput(delta, i, k)) && t == PremiumGain(u, k) && v0 == MulFloor(v1, t + ONE)
    ensures v1 <= v0
    ensures UnderCurve(v0, v1, delta, i, k) && NearCurve(v0, v1, delta, i, k)
  {
    RootBounds(v1, delta, i, k, u);
    PremiumFloor(u, k);
    ResultFloor(ONE, v1, t, v0);
    GainUpper(ONE, k, v1, i * delta, u, t, v0 - v1);
    CurveForm(ONE, k, v1, v0 - v1);
    NearFromGain(v1, delta, i, k, u, t, v0);
  }

  lemma PremiumFloor(u: nat, k: nat)
    requires 0 < k
    ensures 2 * k * PremiumGain(u, k) <= u * ONE < 2 * k * (PremiumGain(u, k) + 1)
  {
    var t := PremiumGain(u, k);
    DivBounds(u * ONE, k * 2);
    assert (k * 2) * t == 2 * k * t && 2 * k * (t + 1) == 2 * k * t + 2 * k;
  }

  lemma NearFromGain(v1: nat, delta: nat, i: nat, k: nat, u: nat, t: nat, v0: nat)
    requires 0 < v1 <= v0
    requires 4 * k * (i * delta) < v1 * ((u + 1) * (u + 1 + 2 * ONE))
    requires u * ONE < 2 * k * (t + 1)
    requires v1 * t < ONE * (v0 - v1 + 1)
    ensures NearCurve(v0, v1, delta, i, k)
  {
    GainLower(ONE, k, v1, i * delta, u, t, v0 - v1,
              2 * k * ONE * (v0 - v1) + (2 * k * ONE + 2 * k * v1 + ONE * v1));
  }

  lemma RootBounds(v1: nat, delta: nat, i: nat, k: nat, u: nat)
    requires 0 < v1 && u == RootGain(v1, RootInput(delta, i, k))
    ensures v1 * (u * (u + 2 * ONE)) <= 4 * k * (i * delta) < v1 * ((u + 1) * (u + 1 + 2 * ONE))
  {
    RootAtLeastOne(Quotient(RootInput(delta, i, k), v1));
    assert RootInput(delta, i, k) == 4 * k * (i * delta);
    RootGainBounds(v1, 4 * k * (i * delta), ONE, u);
  }

  /** The target bracket: V0 never overshoots the exact quadratic
      (V0 - V1)((1 - k) V1 + k V0) <= i delta V1, and on a sloped curve it does
      overshoot once V0 - V1 grows by the explicit rounding allowance. */
  lemma TargetBracket(v1: nat, delta: nat, i: nat, k: nat)
    requires 0 < v1
    ensures SolveTarget(v1, delta, i, k).Success?
    ensures var v0 := SolveTarget(v1, delta, i, k).value;
      && v1 <= v0
      && UnderCurve(v0, v1, delta, i, k)
      && (if k == 0 then i * delta < (v0 - v1 + 1) * ONE else NearCurve(v0, v1, delta, i, k))
  {
    if k == 0 {
      var g := MulFloor(i, delta);
      DivBounds(i * delta, ONE);
      MulMono(ONE * g, i * delta, v1);
      CurveForm(ONE, 0, v1, g);
      assert g * (ONE * v1) == (ONE * g) * v1;
    } else {
      SolveTargetForm(v1, delta, i, k);
      var u := RootGain(v1, RootInput(delta, i, k));
      var t := PremiumGain(u, k);
      TargetBracketSloped(v1, delta, i, k, u, t, MulFloor(v1, t + ONE));
    }
  }

  /** For every slope the target stays within the no-slippage line V1 + i delta. */
  lemma TargetWithinLine(v1: nat, delta: nat, i: nat, k: nat)
    requires 0 < v1
    ensures SolveTarget(v1, delta, i, k).Success?
    ensures SolveTarget(v1, delta, i, k).value <= v1 + MulFloor(i, delta)
  {
    TargetBracket(v1, delta, i, k);
    var g := SolveTarget(v1, delta, i, k).value - v1;
    CurveForm(ONE, k, v1, g);
    LineFromCurve(ONE, k, v1, i * delta, g);
    DivGreatest(i * delta, ONE, g);
  }

  lemma LineFromCurve(s: nat, k: nat, v1: nat, x: nat, g: nat)
    requires 0 < v1 && g * (s * v1 + k * g) <= x * v1
    ensures g * s <= x
  {
    assert g * (s * v1 + k * g) == (g * s) * v1 + k * (g * g);
    assert 0 <= k * (g * g);
    MulCancel(g * s, x, v1);
  }

  lemma TargetMonotone(v1: nat, delta: nat, delta': nat, i: nat, k: nat)
    requires 0 < v1 && delta <= delta'
    ensures SolveTarget(v1, delta, i, k).Success? && SolveTarget(v1, delta', i, k).Success?
    ensures SolveTarget(v1, delta, i, k).value <= SolveTarget(v1, delta', i, k).value
  {
    if k == 0 {
      MulFloorMono(i, delta, delta');
    } else {
      SolveTargetForm(v1, delta, i, k);
      SolveTargetForm(v1, delta', i, k);
      var c := 4 * k * i;
      MulMono(delta, delta', c);
      DivMono(c * delta, c * delta', v1);
      IsqrtMono(c * delta / v1 + ONE2, c * delta' / v1 + ONE2);
      var u, u' := RootGain(v1, RootInput(delta, i, k)), RootGain(v1, RootInput(delta', i, k));
      DivMono(u * ONE, u' * ONE, k * 2);
      MulFloorMono(v1, PremiumGain(u, k) + ONE, PremiumGain(u', k) + ONE);
    }
  }
}
