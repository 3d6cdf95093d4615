/** Exact round trips at fixed targets: sales in any number of parts, paid back in any
    number of parts, return exactly what was paid in. */
module RoundTrip {
  import opened Checked
  import Arith
  import opened FixedPoint
  import TradeSolver
  import opened Pmm
  import opened PmmRuns

  function Sum(pays: seq<nat>): nat {
    if pays == [] then 0 else pays[0] + Sum(pays[1..])
  }

  /** One sale without re-adjusting the targets. */
  function FixedStep(s: PMMState, op: Op): Checked<PMMState> {
    var sale :- SellV1(s, op);
    Settle(s, op, sale)
  }

  function SellBases(s: PMMState, pays: seq<nat>): Checked<PMMState>
    decreases |pays|
  {
    if pays == [] then Success(s)
    else
      var t :- FixedStep(s, SellBase(pays[0]));
      SellBases(t, pays[1..])
  }

  function SellQuotes(s: PMMState, pays: seq<nat>): Checked<PMMState>
    decreases |pays|
  {
    if pays == [] then Success(s)
    else
      var t :- FixedStep(s, SellQuote(pays[0]));
      SellQuotes(t, pays[1..])
  }

  predicate AtTarget(s: PMMState) {
    s.b == s.b0 && s.q == s.q0
  }

  predicate SameTargets(s: PMMState, t: PMMState) {
    SameCurve(s, t) && s.b0 == t.b0 && s.q0 == t.q0
  }

  /** Quote is short of its target, base in surplus. */
  predicate Below(s: PMMState) {
    s.r == BelowOne && s.b0 <= s.b && s.q <= s.q0
  }

  predicate Above(s: PMMState) {
    s.r == AboveOne && s.q0 <= s.q && s.b <= s.b0
  }

  // ----- out: sales away from the target

  lemma TradeAtMost(v0: nat, v1: nat, delta: nat, i: nat, k: nat)
    ensures var r := TradeSolver.SolveTrade(v0, v1, delta, i, k); r.Success? ==> r.value <= v1
    ensures var r := TradeSolver.SolveTrade(v0, v1, 0, i, k); r.Success? ==> r.value == 0
  {
    TradeSolver.SolveTradeTraps(v0, v1, delta, i, k);
  }

  lemma {:induction false} BasesGoBelow(s: PMMState, pays: seq<nat>)
    requires Below(s) || (s.r == One && AtTarget(s))
    requires SellBases(s, pays).Success?
    ensures var t := SellBases(s, pays).value;
      && SameTargets(s, t) && t.b == s.b + Sum(pays)
      && (if pays == [] then t == s else Below(t))
    decreases |pays|
  {
    if pays != [] {
      TradeAtMost(s.q0, if s.r == One then s.q0 else s.q, pays[0], s.i, s.k);
      BasesGoBelow(FixedStep(s, SellBase(pays[0])).value, pays[1..]);
    }
  }

  lemma {:induction false} QuotesGoAbove(s: PMMState, pays: seq<nat>)
    requires Above(s) || (s.r == One && AtTarget(s))
    requires SellQuotes(s, pays).Success?
    ensures var t := SellQuotes(s, pays).value;
      && SameTargets(s, t) && t.q == s.q + Sum(pays)
      && (if pays == [] then t == s else Above(t))
    decreases |pays|
  {
    if pays != [] {
      TradeAtMost(s.b0, if s.r == One then s.b0 else s.b, pays[0], ReciprocalFloor(s.i).value, s.k);
      QuotesGoAbove(FixedStep(s, SellQuote(pays[0])).value, pays[1..]);
    }
  }

  // ----- back: sales towards the target

  /** One quote sale from below: short of the target it stays below; reaching the
      target exactly, it takes exactly the base surplus. */
  lemma QuoteStepBack(s: PMMState, pay: nat)
    requires Below(s) && s.q + pay <= s.q0
    ensures FixedStep(s, SellQuote(pay)).Success? ==>
      var t := FixedStep(s, SellQuote(pay)).value;
      && SameTargets(s, t) && t.q == s.q + pay
      && (if t.q < t.q0 then Below(t) else AtTarget(t))
  {
    if s.i > 0 {
      TradeAtMost(s.b0, s.b0, 0, ReciprocalFloor(s.i).value, s.k);
    }
  }

  lemma BaseStepBack(s: PMMState, pay: nat)
    requires Above(s) && s.b + pay <= s.b0
    ensures FixedStep(s, SellBase(pay)).Success? ==>
      var t := FixedStep(s, SellBase(pay)).value;
      && SameTargets(s, t) && t.b == s.b + pay
      && (if t.b < t.b0 then Above(t) else AtTarget(t))
  {
  }

  /** A zero payment leaves a pool at its targets where it is. */
  lemma ZeroSaleAtTarget(s: PMMState, op: Op)
    requires AtTarget(s) && op.pay == 0 && FixedStep(s, op).Success?
    ensures AtTarget(FixedStep(s, op).value) && SameTargets(s, FixedStep(s, op).value)
  {
    TradeAtMost(s.q0, s.q0, 0, s.i, s.k);
    if s.i > 0 {
      TradeAtMost(s.b0, s.b0, 0, ReciprocalFloor(s.i).value, s.k);
    }
  }

  lemma {:induction false} QuotesReturn(s: PMMState, pays: seq<nat>)
    requires (Below(s) && pays != []) || AtTarget(s)
    requires s.q + Sum(pays) == s.q0 && SellQuotes(s, pays).Success?
    ensures AtTarget(SellQuotes(s, pays).value) && SameTargets(s, SellQuotes(s, pays).value)
    decreases |pays|
  {
    if pays != [] {
      if Below(s) {
        QuoteStepBack(s, pays[0]);
      } else {
        ZeroSaleAtTarget(s, SellQuote(pays[0]));
      }
      QuotesReturn(FixedStep(s, SellQuote(pays[0])).value, pays[1..]);
    }
  }

  lemma {:induction false} BasesReturn(s: PMMState, pays: seq<nat>)
    requires (Above(s) && pays != []) || AtTarget(s)
    requires s.b + Sum(pays) == s.b0 && SellBases(s, pays).Success?
    ensures AtTarget(SellBases(s, pays).value) && SameTargets(s, SellBases(s, pays).value)
    decreases |pays|
  {
    if pays != [] {
      if Above(s) {
        BaseStepBack(s, pays[0]);
      } else {
        ZeroSaleAtTarget(s, SellBase(pays[0]));
      }
      BasesReturn(FixedStep(s, SellBase(pays[0])).value, pays[1..]);
    }
  }

  /** Base out and quote back: from a pool in state One at its targets, any base sales
      followed by any non-empty quote sales that pay back exactly the quote taken end at
      the targets again, so exactly the base paid in is returned. */
  lemma BaseRoundTrip(s: PMMState, bases: seq<nat>, quotes: seq<nat>)
    requires s.r == One && AtTarget(s) && quotes != []
    requires SellBases(s, bases).Success?
    requires var m := SellBases(s, bases).value;
      m.q + Sum(quotes) == s.q && SellQuotes(m, quotes).Success?
    ensures var m := SellBases(s, bases).value; var e := SellQuotes(m, quotes).value;
      e.b == s.b && e.q == s.q && m.b - e.b == Sum(bases)
  {
    BasesGoBelow(s, bases);
    QuotesReturn(SellBases(s, bases).value, quotes);
  }

  lemma QuoteRoundTrip(s: PMMState, quotes: seq<nat>, bases: seq<nat>)
    requires s.r == One && AtTarget(s) && bases != []
    requires SellQuotes(s, quotes).Success?
    requires var m := SellQuotes(s, quotes).value;
      m.b + Sum(bases) == s.b && SellBases(m, bases).Success?
    ensures var m := SellQuotes(s, quotes).value; var e := SellBases(m, bases).value;
      e.b == s.b && e.q == s.q && m.q - e.q == Sum(quotes)
  {
    QuotesGoAbove(s, quotes);
    BasesReturn(SellQuotes(s, quotes).value, bases);
  }

  // ----- crossing the target, and what state One means

  /** Selling base past the target is the same trade as stopping at the target and going on. */
  lemma BaseCrossingSplits(s: PMMState, excess: nat)
    requires Above(s) && 0 < excess
    ensures var stop := FixedStep(s, SellBase(s.b0 - s.b));
      && stop.Success? && stop.value.r == One && AtTarget(stop.value)
      && FixedStep(s, SellBase(s.b0 - s.b + excess)) == FixedStep(stop.value, SellBase(excess))
  {
    TradeAtMost(s.q0, s.q0, excess, s.i, s.k);
  }

  /** For quote the same holds exactly when the payment differs from the base surplus:
      the source tests pay_quote_amount against back_to_one_receive_base, so a payment
      that happens to equal it is taken for one that stops at the target. */
  lemma QuoteCrossingSplitsIff(s: PMMState, excess: nat)
    requires Below(s) && 0 < excess && 0 < s.i && 0 < s.b0 && s.k <= ONE
    ensures var stop := FixedStep(s, SellQuote(s.q0 - s.q));
      && stop.Success? && AtTarget(stop.value)
      && (FixedStep(s, SellQuote(s.q0 - s.q + excess)) == FixedStep(stop.value, SellQuote(excess))
          <==> s.q0 - s.q + excess != s.b - s.b0)
  {
    var j := ReciprocalFloor(s.i).value;
    TradeSolver.SolveTradeTraps(s.b0, s.b0, 0, j, s.k);
    TradeSolver.SolveTradeTraps(s.b0, s.b0, excess, j, s.k);
  }

  /** A quote sale that ends in state One has met the targets only if the two surpluses agree. */
  lemma OneMeansTargetIff(s: PMMState, pay: nat)
    requires Below(s) && FixedStep(s, SellQuote(pay)).Success?
    requires FixedStep(s, SellQuote(pay)).value.r == One
    ensures AtTarget(FixedStep(s, SellQuote(pay)).value) <==> s.q0 - s.q == s.b - s.b0
  {
  }

  /** A pool of half a quote per base and no slope, in state One at its targets. */
  const LEVEL: PMMState := PMMState(ONE / 2, 0, 1, 10, 1, 10, One, 8, 8)

  /** Two ordinary trades, targets adjusted before each, bring it back to state One with
      quote above its target: selling 2 base takes 1 quote, and paying 2 quote equals the
      base surplus of 2 instead of the quote deficit of 1. */
  lemma OneAwayFromTarget()
    ensures LEVEL.r == One && AtTarget(LEVEL)
    ensures var e := RunV1(LEVEL, [SellBase(2), SellQuote(2)]);
      e == Success(LEVEL.(q := 11)) && e.value.r == One && !AtTarget(e.value)
  {
    Arith.DivUnique(ONE / 2 * 2, ONE, 1);
    var below := LEVEL.(b := 3, q := 9, r := BelowOne);
    assert StepV1(LEVEL, SellBase(2)) == Success(below);
    assert AdjustedTargetV1(below) == Success(below);
    assert StepV1(below, SellQuote(2)) == Success(LEVEL.(q := 11));
    assert [SellBase(2), SellQuote(2)][1..] == [SellQuote(2)];
    assert RunV1(LEVEL.(q := 11), []) == Success(LEVEL.(q := 11));
    assert RunV1(below, [SellQuote(2)]) == RunV1(LEVEL.(q := 11), []);
  }
}
