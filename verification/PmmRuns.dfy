/** Unbounded runs of trades. The router that applies a sale is not part of the
    repository; its loop is closed here: adjust the target, sell, move the reserves. */
module PmmRuns {
  import opened Checked
  import FixedPoint
  import TargetSolver
  import TradeSolver
  import Integral
  import opened Pmm

  datatype Op = SellBase(pay: nat) | SellQuote(pay: nat)

  /** Move the reserves by the paid and received amounts. */
  function Settle(s: PMMState, op: Op, sale: Sale): Checked<PMMState> {
    match op
    case SellBase(pay) =>
      var q :- Sub(s.q, sale.receive);
      Success(s.(b := s.b + pay, q := q, r := sale.r))
    case SellQuote(pay) =>
      var b :- Sub(s.b, sale.receive);
      Success(s.(q := s.q + pay, b := b, r := sale.r))
  }

  function Sell(s: PMMState, op: Op): Checked<Sale> {
    match op
    case SellBase(pay) => SellBaseToken(s, pay)
    case SellQuote(pay) => SellQuoteToken(s, pay)
  }

  function SellV1(s: PMMState, op: Op): Checked<Sale> {
    match op
    case SellBase(pay) => SellBaseTokenV1(s, pay)
    case SellQuote(pay) => SellQuoteTokenV1(s, pay)
  }

  function Step(s: PMMState, op: Op): Checked<PMMState> {
    var t :- AdjustedTarget(s);
    var sale :- Sell(t, op);
    Settle(t, op, sale)
  }

  function StepV1(s: PMMState, op: Op): Checked<PMMState> {
    var t :- AdjustedTargetV1(s);
    var sale :- SellV1(t, op);
    Settle(t, op, sale)
  }

  function Run(s: PMMState, ops: seq<Op>): Checked<PMMState>
    decreases |ops|
  {
    if ops == [] then Success(s)
    else
      var t :- Step(s, ops[0]);
      Run(t, ops[1..])
  }

  function RunV1(s: PMMState, ops: seq<Op>): Checked<PMMState>
    decreases |ops|
  {
    if ops == [] then Success(s)
    else
      var t :- StepV1(s, ops[0]);
      RunV1(t, ops[1..])
  }

  // ----- the invariant

  /** What every state of a run satisfies. One does not mean that the reserves
      equal their targets: the source's test for it compares unlike amounts. */
  predicate Balanced(s: PMMState) {
    && s.k <= FixedPoint.ONE
    && (s.r != AboveOne ==> s.b0 <= s.b)
    && (s.r != BelowOne ==> s.q0 <= s.q)
  }

  /** An adjusted state: the short reserve is at most its target. */
  predicate Adjusted(s: PMMState) {
    && Balanced(s)
    && (s.r == BelowOne ==> s.q <= s.q0)
    && (s.r == AboveOne ==> s.b <= s.b0)
  }

  predicate SameCurve(s: PMMState, t: PMMState) {
    && s.i == t.i && s.k == t.k
    && s.baseDecimal == t.baseDecimal && s.quoteDecimal == t.quoteDecimal
  }

  lemma TargetAtLeastReserve(v1: nat, delta: nat, i: nat, k: nat)
    ensures var r := TargetSolver.SolveTarget(v1, delta, i, k);
      if r.Success? then v1 <= r.value else r.error != Underflow
  {
    TargetSolver.SolveTargetTraps(v1, delta, i, k);
    if 0 < v1 {
      TargetSolver.TargetBracket(v1, delta, i, k);
    }
  }

  lemma AdjustKeeps(s: PMMState)
    requires Balanced(s)
    ensures AdjustedTarget(s).Failure? ==> AdjustedTarget(s).error != Underflow
    ensures AdjustedTarget(s).Success? ==>
            var t := AdjustedTarget(s).value;
            Adjusted(t) && SameCurve(s, t) && t.b == s.b && t.q == s.q && t.r == s.r
  {
    if s.r == BelowOne {
      var d := AdjustDecimal(s.baseDecimal, s.quoteDecimal, s.b - s.b0);
      if d.Success? {
        TargetAtLeastReserve(s.q, d.value, s.i, s.k);
      }
    } else if s.r == AboveOne && s.i > 0 {
      var d := AdjustDecimal(s.quoteDecimal, s.baseDecimal, s.q - s.q0);
      if d.Success? {
        TargetAtLeastReserve(s.b, d.value, FixedPoint.ReciprocalFloor(s.i).value, s.k);
      }
    }
  }

  lemma PartialSaleTraps(before: u8, after: u8, v0: nat, v: nat, pay: nat, i: nat, k: nat)
    requires k <= FixedPoint.ONE
    ensures PartialSale(before, after, v0, v, pay, i, k).Failure? ==>
            PartialSale(before, after, v0, v, pay, i, k).error != Underflow
  {
    var a, c := AdjustDecimal(before, after, v0), AdjustDecimal(before, after, v);
    var p := AdjustDecimal(before, after, pay);
    if a.Success? && c.Success? && p.Success? {
      Integral.GeneralIntegrateTraps(a.value, c.value + p.value, c.value, i, k);
    }
  }

  lemma SaleBeyondTargetTraps(before: u8, after: u8, v0: nat, pay: nat, backPay: nat, i: nat, k: nat)
    requires k <= FixedPoint.ONE && backPay <= pay
    ensures var r := SaleBeyondTarget(before, after, v0, pay, backPay, i, k);
      if r.Failure? then r.error != Underflow else r.value <= v0
  {
    AdjustDecimalMono(before, after, backPay, pay);
    var p, c := AdjustDecimal(before, after, pay), AdjustDecimal(before, after, backPay);
    if p.Success? && c.Success? {
      TradeSolver.SolveTradeTraps(v0, v0, p.value - c.value, i, k);
    }
  }

  lemma TradeNeverUnderflows(v0: nat, v1: nat, delta: Checked<nat>, i: nat, k: nat)
    requires k <= FixedPoint.ONE && delta.Success?
    ensures var r := TradeSolver.SolveTrade(v0, v1, delta.value, i, k);
      if r.Failure? then r.error != Underflow else r.value <= v1
  {
    TradeSolver.SolveTradeTraps(v0, v1, delta.value, i, k);
  }

  /** Selling base into an adjusted state: the payout fits the quote reserve and
      the invariant survives the move. */
  lemma SellBaseKeeps(s: PMMState, pay: nat)
    requires Adjusted(s)
    ensures var r := SellBaseToken(s, pay);
      if r.Failure? then r.error != Underflow
      else r.value.receive <= s.q && Settle(s, SellBase(pay), r.value).Success?
           && Balanced(Settle(s, SellBase(pay), r.value).value)
  {
    var delta := AdjustDecimal(s.baseDecimal, s.quoteDecimal, pay);
    if s.r == AboveOne {
      if pay < s.b0 - s.b {
        PartialSaleTraps(s.baseDecimal, s.quoteDecimal, s.b0, s.b, pay, s.i, s.k);
      } else {
        SaleBeyondTargetTraps(s.baseDecimal, s.quoteDecimal, s.q0, pay, s.b0 - s.b, s.i, s.k);
      }
    } else if delta.Success? {
      TradeNeverUnderflows(s.q0, if s.r == One then s.q0 else s.q, delta, s.i, s.k);
    }
  }

  lemma SellQuoteKeeps(s: PMMState, pay: nat)
    requires Adjusted(s)
    ensures var r := SellQuoteToken(s, pay);
      if r.Failure? then r.error != Underflow
      else r.value.receive <= s.b && Settle(s, SellQuote(pay), r.value).Success?
           && Balanced(Settle(s, SellQuote(pay), r.value).value)
  {
    var delta := AdjustDecimal(s.quoteDecimal, s.baseDecimal, pay);
    if s.i > 0 {
      var j := FixedPoint.ReciprocalFloor(s.i).value;
      if s.r == BelowOne {
        if pay < s.q0 - s.q {
          PartialSaleTraps(s.quoteDecimal, s.baseDecimal, s.q0, s.q, pay, j, s.k);
        } else {
          SaleBeyondTargetTraps(s.quoteDecimal, s.baseDecimal, s.b0, pay, s.q0 - s.q, j, s.k);
        }
      } else if delta.Success? {
        TradeNeverUnderflows(s.b0, if s.r == One then s.b0 else s.b, delta, j, s.k);
      }
    }
  }

  /** One trade: no subtraction underflows, payouts included, and the invariant is kept. */
  lemma StepKeeps(s: PMMState, op: Op)
    requires Balanced(s)
    ensures Step(s, op).Failure? ==> Step(s, op).error != Underflow
    ensures Step(s, op).Success? ==> Balanced(Step(s, op).value) && SameCurve(s, Step(s, op).value)
  {
    AdjustKeeps(s);
    if AdjustedTarget(s).Success? {
      var t := AdjustedTarget(s).value;
      match op
      case SellBase(pay) => SellBaseKeeps(t, pay);
      case SellQuote(pay) => SellQuoteKeeps(t, pay);
    }
  }

  /** Run safety, for any decimals: over every run from a balanced state no subtraction
      ever underflows, and every state reached is balanced again. */
  lemma {:induction false} RunSafety(s: PMMState, ops: seq<Op>)
    requires Balanced(s)
    ensures Run(s, ops).Failure? ==> Run(s, ops).error != Underflow
    ensures Run(s, ops).Success? ==> Balanced(Run(s, ops).value) && SameCurve(s, Run(s, ops).value)
    decreases |ops|
  {
    if ops != [] {
      StepKeeps(s, ops[0]);
      if Step(s, ops[0]).Success? {
        RunSafety(Step(s, ops[0]).value, ops[1..]);
      }
    }
  }
}
