/** The pool state of the proactive market maker and its operations. */
module Pmm {
  import opened Checked
  import Arith
  import opened FixedPoint
  import Power
  import TargetSolver
  import opened TradeSolver
  import Integral

  type u8 = n: nat | n < 256

  datatype RState = One | AboveOne | BelowOne

  datatype PMMState = PMMState(
    i: nat, k: nat, b: nat, q: nat, b0: nat, q0: nat, r: RState,
    baseDecimal: u8, quoteDecimal: u8)

  /** What a sale returns: the amount received and the new price state. */
  datatype Sale = Sale(receive: nat, r: RState)

  // ----- decimals

  /** 10u64.pow(n), which wraps in the release builds that are deployed. */
  function Pow10U64(n: u8): nat {
    Power.Exp(10, n) % 0x1_0000_0000_0000_0000
  }

  function AdjustDecimal(before: u8, after: u8, amount: nat): Checked<nat> {
    if after >= before then Success(amount * Pow10U64(after - before))
    else Div(amount, Pow10U64(before - after))
  }

  // ----- the decimal-aware operations

  function AdjustedTarget(s: PMMState): Checked<PMMState> {
    match s.r
    case BelowOne =>
      var surplus :- Sub(s.b, s.b0);
      var delta :- AdjustDecimal(s.baseDecimal, s.quoteDecimal, surplus);
      var q0 :- TargetSolver.SolveTarget(s.q, delta, s.i, s.k);
      Success(s.(q0 := q0))
    case AboveOne =>
      var surplus :- Sub(s.q, s.q0);
      var delta :- AdjustDecimal(s.quoteDecimal, s.baseDecimal, surplus);
      var j :- ReciprocalFloor(s.i);
      var b0 :- TargetSolver.SolveTarget(s.b, delta, j, s.k);
      Success(s.(b0 := b0))
    case One => Success(s)
  }

  function SellBaseToken(s: PMMState, pay: nat): Checked<Sale> {
    match s.r
    case One =>
      var delta :- AdjustDecimal(s.baseDecimal, s.quoteDecimal, pay);
      var receive :- SolveTrade(s.q0, s.q0, delta, s.i, s.k);
      Success(Sale(receive, BelowOne))
    case AboveOne =>
      var backPay :- Sub(s.b0, s.b);
      var backReceive :- Sub(s.q, s.q0);
      if pay < backPay then
        var receive :- PartialSale(s.baseDecimal, s.quoteDecimal, s.b0, s.b, pay, s.i, s.k);
        Success(Sale(if receive > backReceive then backReceive else receive, AboveOne))
      else if pay == backPay then
        Success(Sale(backReceive, One))
      else
        var receive :- SaleBeyondTarget(s.baseDecimal, s.quoteDecimal, s.q0, pay, backPay, s.i, s.k);
        Success(Sale(backReceive + receive, BelowOne))
    case BelowOne =>
      var delta :- AdjustDecimal(s.baseDecimal, s.quoteDecimal, pay);
      var receive :- SolveTrade(s.q0, s.q, delta, s.i, s.k);
      Success(Sale(receive, BelowOne))
  }

  /** The second test compares the payment with the base to receive back, as the source does. */
  function SellQuoteToken(s: PMMState, pay: nat): Checked<Sale> {
    match s.r
    case One =>
      var delta :- AdjustDecimal(s.quoteDecimal, s.baseDecimal, pay);
      var j :- ReciprocalFloor(s.i);
      var receive :- SolveTrade(s.b0, s.b0, delta, j, s.k);
      Success(Sale(receive, AboveOne))
    case AboveOne =>
      var delta :- AdjustDecimal(s.quoteDecimal, s.baseDecimal, pay);
      var j :- ReciprocalFloor(s.i);
      var receive :- SolveTrade(s.b0, s.b, delta, j, s.k);
      Success(Sale(receive, AboveOne))
    case BelowOne =>
      var backPay :- Sub(s.q0, s.q);
      var backReceive :- Sub(s.b, s.b0);
      if pay < backPay then
        var j :- ReciprocalFloor(s.i);
        var receive :- PartialSale(s.quoteDecimal, s.baseDecimal, s.q0, s.q, pay, j, s.k);
        Success(Sale(if receive > backReceive then backReceive else receive, BelowOne))
      else if pay == backReceive then
        Success(Sale(backReceive, One))
      else
        var j :- ReciprocalFloor(s.i);
        var receive :- SaleBeyondTarget(s.quoteDecimal, s.baseDecimal, s.b0, pay, backPay, j, s.k);
        Success(Sale(backReceive + receive, AboveOne))
  }

  /** Part of the way back to target: the integral over the adjusted reserve. */
  function PartialSale(before: u8, after: u8, v0: nat, v: nat, pay: nat, i: nat, k: nat): Checked<nat> {
    var adjustedV0 :- AdjustDecimal(before, after, v0);
    var adjustedV :- AdjustDecimal(before, after, v);
    var adjustedPay :- AdjustDecimal(before, after, pay);
    Integral.GeneralIntegrate(adjustedV0, adjustedV + adjustedPay, adjustedV, i, k)
  }

  /** Past the target: the payment left over trades from the other target. */
  function SaleBeyondTarget(before: u8, after: u8, v0: nat, pay: nat, backPay: nat, i: nat, k: nat): Checked<nat> {
    var adjustedPay :- AdjustDecimal(before, after, pay);
    var adjustedBack :- AdjustDecimal(before, after, backPay);
    TradeExcess(v0, adjustedPay, adjustedBack, i, k)
  }

  function TradeExcess(v0: nat, pay: nat, backPay: nat, i: nat, k: nat): Checked<nat> {
    var excess :- Sub(pay, backPay);
    SolveTrade(v0, v0, excess, i, k)
  }

  // ----- the _v1 operations

  function AdjustedTargetV1(s: PMMState): Checked<PMMState> {
    match s.r
    case BelowOne =>
      var surplus :- Sub(s.b, s.b0);
      var q0 :- TargetSolver.SolveTarget(s.q, surplus, s.i, s.k);
      Success(s.(q0 := q0))
    case AboveOne =>
      var surplus :- Sub(s.q, s.q0);
      var j :- ReciprocalFloor(s.i);
      var b0 :- TargetSolver.SolveTarget(s.b, surplus, j, s.k);
      Success(s.(b0 := b0))
    case One => Success(s)
  }

  function SellBaseTokenV1(s: PMMState, pay: nat): Checked<Sale> {
    match s.r
    case One =>
      var receive :- SolveTrade(s.q0, s.q0, pay, s.i, s.k);
      Success(Sale(receive, BelowOne))
    case AboveOne =>
      var backPay :- Sub(s.b0, s.b);
      var backReceive :- Sub(s.q, s.q0);
      if pay < backPay then
        var receive :- Integral.GeneralIntegrate(s.b0, s.b + pay, s.b, s.i, s.k);
        Success(Sale(if receive > backReceive then backReceive else receive, AboveOne))
      else if pay == backPay then
        Success(Sale(backReceive, One))
      else
        var receive :- SolveTrade(s.q0, s.q0, pay - backPay, s.i, s.k);
        Success(Sale(backReceive + receive, BelowOne))
    case BelowOne =>
      var receive :- SolveTrade(s.q0, s.q, pay, s.i, s.k);
      Success(Sale(receive, BelowOne))
  }

  function SellQuoteTokenV1(s: PMMState, pay: nat): Checked<Sale> {
    match s.r
    case One =>
      var j :- ReciprocalFloor(s.i);
      var receive :- SolveTrade(s.b0, s.b0, pay, j, s.k);
      Success(Sale(receive, AboveOne))
    case AboveOne =>
      var j :- ReciprocalFloor(s.i);
      var receive :- SolveTrade(s.b0, s.b, pay, j, s.k);
      Success(Sale(receive, AboveOne))
    case BelowOne =>
      var backPay :- Sub(s.q0, s.q);
      var backReceive :- Sub(s.b, s.b0);
      if pay < backPay then
        var j :- ReciprocalFloor(s.i);
        var receive :- Integral.GeneralIntegrate(s.q0, s.q + pay, s.q, j, s.k);
        Success(Sale(if receive > backReceive then backReceive else receive, BelowOne))
      else if pay == backReceive then
        Success(Sale(backReceive, One))
      else
        var j :- ReciprocalFloor(s.i);
        var receive :- SolveTrade(s.b0, s.b0, pay - backPay, j, s.k);
        Success(Sale(backReceive + receive, AboveOne))
  }

  // ----- the mid price

  /** 10u128.pow of a u8 sum, both wrapping in release builds. */
  function PriceScale(baseDecimal: u8, decimals: u8): nat {
    Power.Exp(10, (baseDecimal + decimals) % 256) % 0x1_0000_0000_0000_0000_0000_0000_0000_0000
  }

  /** 1 - k + k v0^2 / v^2. */
  function PriceFactor(v0: nat, v: nat, k: nat): Checked<nat>
    requires 0 < v
  {
    var slack :- Sub(ONE, k);
    Success(slack + MulFloor(k, DivFloor(Quotient(v0 * v0, v), v)))
  }

  function GetMidPriceV1(s: PMMState, decimals: u8): Checked<nat> {
    var scaled := PriceScale(s.baseDecimal, decimals) * s.i;
    if s.r == BelowOne then
      if s.q == 0 then Success(0)
      else
        var factor :- PriceFactor(s.q0, s.q, s.k);
        var price :- TryDivFloor(scaled, factor);
        Success(Quotient(price, ONE))
    else
      if s.b == 0 then Success(0)
      else
        var factor :- PriceFactor(s.b0, s.b, s.k);
        Success(Quotient(MulFloor(scaled, factor), ONE))
  }

  // ----- branch refinement

  lemma AdjustIdentity(d: u8, amount: nat)
    ensures AdjustDecimal(d, d, amount) == Success(amount)
  {
    assert Power.Exp(10, 0) == 1;
  }

  /** With equal decimals the decimal-aware operations are the _v1 operations, traps included. */
  lemma EqualDecimalsTarget(s: PMMState)
    requires s.baseDecimal == s.quoteDecimal
    ensures AdjustedTarget(s) == AdjustedTargetV1(s)
  {
    if s.b0 <= s.b {
      AdjustIdentity(s.baseDecimal, s.b - s.b0);
    }
    if s.q0 <= s.q {
      AdjustIdentity(s.baseDecimal, s.q - s.q0);
    }
  }

  lemma EqualDecimalsParts(d: u8, v0: nat, v: nat, pay: nat, backPay: nat, i: nat, k: nat)
    ensures PartialSale(d, d, v0, v, pay, i, k) == Integral.GeneralIntegrate(v0, v + pay, v, i, k)
    ensures backPay <= pay ==> SaleBeyondTarget(d, d, v0, pay, backPay, i, k) == SolveTrade(v0, v0, pay - backPay, i, k)
  {
    AdjustIdentity(d, v0);
    AdjustIdentity(d, v);
    AdjustIdentity(d, pay);
    AdjustIdentity(d, backPay);
  }

  lemma EqualDecimalsSellBase(s: PMMState, pay: nat)
    requires s.baseDecimal == s.quoteDecimal
    ensures SellBaseToken(s, pay) == SellBaseTokenV1(s, pay)
  {
    AdjustIdentity(s.baseDecimal, pay);
    if s.r == AboveOne && s.b <= s.b0 {
      EqualDecimalsParts(s.baseDecimal, s.b0, s.b, pay, 0, s.i, s.k);
      EqualDecimalsParts(s.baseDecimal, s.q0, 0, pay, s.b0 - s.b, s.i, s.k);
    }
  }

  lemma EqualDecimalsSellQuote(s: PMMState, pay: nat)
    requires s.baseDecimal == s.quoteDecimal
    ensures SellQuoteToken(s, pay) == SellQuoteTokenV1(s, pay)
  {
    AdjustIdentity(s.baseDecimal, pay);
    if s.r == BelowOne && s.q <= s.q0 && s.i > 0 {
      var j := ReciprocalFloor(s.i).value;
      EqualDecimalsParts(s.baseDecimal, s.q0, s.q, pay, 0, j, s.k);
      EqualDecimalsParts(s.baseDecimal, s.b0, 0, pay, s.q0 - s.q, j, s.k);
    }
  }

  lemma AdjustDecimalMono(before: u8, after: u8, a: nat, c: nat)
    requires a <= c
    ensures AdjustDecimal(before, after, a).Failure? <==> AdjustDecimal(before, after, c).Failure?
    ensures AdjustDecimal(before, after, a).Failure? ==> AdjustDecimal(before, after, a).error == DivisionByZero
    ensures AdjustDecimal(before, after, a).Success? ==>
            AdjustDecimal(before, after, a).value <= AdjustDecimal(before, after, c).value
  {
    if after >= before {
      Arith.MulMono(a, c, Pow10U64(after - before));
    } else if Pow10U64(before - after) != 0 {
      Arith.DivMono(a, c, Pow10U64(before - after));
    }
  }
}
