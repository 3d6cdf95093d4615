/** _solve_quadratic_function_for_trade: how much of reserve v1 a payment of delta buys
    on the curve with target v0, price i and slope k. */
module TradeSolver {
  import opened Checked
  import Arith
  import opened FixedPoint

  function SolveTrade(v0: nat, v1: nat, delta: nat, i: nat, k: nat): Checked<nat> {
    if v0 == 0 then Failure(TargetIsZero)
    else if delta == 0 then Success(0)
    else if k == 0 then
      var t := MulFloor(i, delta);
      Success(if t > v1 then v1 else t)
    else if k == ONE then
      Success(SteepPayout(v1, SteepRatio(v0, v1, delta, i)))
    else SolveSlopedTrade(v0, v1, delta, i, k)
  }

  /** The k = 1 branch: i delta v1 / v0^2, with the source's overflow fallback. */
  function SteepRatio(v0: nat, v1: nat, delta: nat, i: nat): nat
    requires 0 < v0
  {
    var iDelta := i * delta;
    if iDelta == 0 then 0
    else if iDelta * v1 / iDelta == v1 then Quotient(iDelta * v1, v0 * v0)
    else Quotient(Quotient(delta * v1, v0) * i, v0)
  }

  function SteepPayout(v1: nat, temp: nat): nat {
    Quotient(v1 * temp, temp + ONE)
  }

  /** The 0 < k < 1 branch, as the quadratic formula on rounded coefficients. */
  function SolveSlopedTrade(v0: nat, v1: nat, delta: nat, i: nat, k: nat): Checked<nat> {
    if v1 == 0 then Failure(DivisionByZero)
    else
      var part2 := Part2(v0, v1, delta, i, k);
      var slack :- Sub(ONE, k);
      SlopedPayout(v1, slack, part2, slack * v1, MulFloor(slack * 4, MulFloor(k, v0) * v0))
  }

  function Part2(v0: nat, v1: nat, delta: nat, i: nat, k: nat): nat
    requires 0 < v1
  {
    Quotient(k * v0, v1) * v0 + i * delta
  }

  function SlopedPayout(v1: nat, slack: nat, part2: nat, own: nat, s: nat): Checked<nat> {
    var bSig := own < part2;
    var bAbs := Quotient(if bSig then part2 - own else own - part2, ONE);
    PayoutFromRoot(v1, slack * 2, bSig, bAbs, Isqrt(bAbs * bAbs + s))
  }

  function PayoutFromRoot(v1: nat, denominator: nat, bSig: bool, bAbs: nat, root: nat): Checked<nat> {
    var numerator :- if bSig then Sub(root, bAbs) else Success(bAbs + root);
    if denominator == 0 then Failure(DivisionByZero)
    else Success(PayoutFromNumerator(v1, denominator, numerator))
  }

  function PayoutFromNumerator(v1: nat, denominator: nat, numerator: nat): (payout: nat)
    requires 0 < denominator
    ensures payout <= v1
  {
    var v2 := DivCeil(numerator, denominator);
    if v2 > v1 then 0 else v1 - v2
  }

  // ----- the sloped branch in closed form

  function TruncDiv(n: int, d: nat): int
    requires 0 < d
  {
    if n < 0 then -(-n / d) else n / d
  }

  /** The rounded, signed coefficient b / 2 of the quadratic. */
  function SignedB(v0: nat, v1: nat, delta: nat, i: nat, k: nat): int
    requires 0 < v1
  {
    TruncDiv(Part2(v0, v1, delta, i, k) - (ONE - k) * v1, ONE)
  }

  /** The rounded 4 (1 - k) k v0^2. */
  function Discriminant(v0: nat, k: nat): nat
    requires k <= ONE
  {
    MulFloor((ONE - k) * 4, MulFloor(k, v0) * v0)
  }

  lemma RootAboveB(b: int, s: nat)
    ensures b <= Isqrt(b * b + s) && -b <= Isqrt(b * b + s)
  {
    var c := if b < 0 then -b else b;
    assert c * c == b * b;
    IsqrtExact(c);
    IsqrtMono(c * c, b * b + s);
  }

  /** The numerator x = sqrt(b^2 + s) - b, which never underflows. */
  function Numerator(b: int, s: nat): nat {
    RootAboveB(b, s);
    Isqrt(b * b + s) - b
  }

  /** Sign and magnitude, as the source keeps them, are the signed coefficient. */
  lemma SignAndMagnitude(v1: nat, slack: nat, part2: nat, own: nat, s: nat)
    requires 0 < slack
    ensures SlopedPayout(v1, slack, part2, own, s)
         == Success(PayoutFromNumerator(v1, slack * 2, Numerator(TruncDiv(part2 - own, ONE), s)))
  {
    var b := TruncDiv(part2 - own, ONE);
    var bAbs := Quotient(if own < part2 then part2 - own else own - part2, ONE);
    RootAboveB(b, s);
    if own < part2 {
      assert b == bAbs;
    } else {
      assert b + bAbs == 0;
      assert b * b == bAbs * bAbs;
    }
  }

  lemma SlopedForm(v0: nat, v1: nat, delta: nat, i: nat, k: nat)
    requires 0 < v1 && 0 < k < ONE
    ensures SolveSlopedTrade(v0, v1, delta, i, k)
         == Success(PayoutFromNumerator(v1, (ONE - k) * 2,
                      Numerator(SignedB(v0, v1, delta, i, k), Discriminant(v0, k))))
  {
    var slack: nat, part2 := ONE - k, Part2(v0, v1, delta, i, k);
    assert Sub(ONE, k) == Success(slack);
    assert SolveSlopedTrade(v0, v1, delta, i, k) == SlopedPayout(v1, slack, part2, slack * v1, Discriminant(v0, k));
    SignAndMagnitude(v1, slack, part2, slack * v1, Discriminant(v0, k));
  }

  /** No target, or something to trade against an empty reserve or beyond slope one. */
  predicate TradeTraps(v0: nat, v1: nat, delta: nat, k: nat) {
    v0 == 0 || (delta > 0 && (k > ONE || (0 < k < ONE && v1 == 0)))
  }

  /** Exactly when the solver traps, and why; otherwise it pays at most the reserve. */
  lemma SolveTradeTraps(v0: nat, v1: nat, delta: nat, i: nat, k: nat)
    ensures SolveTrade(v0, v1, delta, i, k).Failure? <==> TradeTraps(v0, v1, delta, k)
    ensures k <= ONE && SolveTrade(v0, v1, delta, i, k).Failure? ==>
            SolveTrade(v0, v1, delta, i, k).error != Underflow
    ensures SolveTrade(v0, v1, delta, i, k).Success? ==> SolveTrade(v0, v1, delta, i, k).value <= v1
  {
    if 0 < v1 && 0 < k < ONE {
      SlopedForm(v0, v1, delta, i, k);
    }
    if v0 > 0 && k == ONE {
      SteepPayoutBounds(v1, SteepRatio(v0, v1, delta, i));
    }
  }

  lemma SteepPayoutBounds(v1: nat, temp: nat)
    ensures SteepPayout(v1, temp) * ONE <= v1 * temp
    ensures SteepPayout(v1, temp) <= v1
    ensures 0 < v1 ==> SteepPayout(v1, temp) < v1
  {
    var p := SteepPayout(v1, temp);
    Arith.DivBounds(v1 * temp, temp + ONE);
    assert (temp + ONE) * p == p * temp + p * ONE;
    Arith.MulMono(0, p, temp);
    if v1 <= p && 0 < p {
      Arith.MulMono(v1, p, temp);
    }
  }

  /** The overflow fallback of the k = 1 branch is dead over unbounded Nat. */
  lemma SteepRatioForm(v0: nat, v1: nat, delta: nat, i: nat)
    requires 0 < v0
    ensures SteepRatio(v0, v1, delta, i) == i * delta * v1 / (v0 * v0)
  {
    if i * delta == 0 {
      Arith.DivUnique(0, v0 * v0, 0);
    } else {
      Arith.DivUnique(i * delta * v1, i * delta, v1);
    }
  }
}
