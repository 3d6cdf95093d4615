/** The _v1 operations over runs: exact trap conditions, a pool with slope one that never
    traps, clamps that never fire, and the mid price on adjusted states. */
module PmmV1 {
  import opened Checked
  import opened Arith
  import opened FixedPoint
  import opened TargetSolver
  import opened TradeSolver
  import opened Integral
  import opened TradePrice
  import TradeTheorems
  import opened Pmm
  import opened PmmRuns
  import Power

  // ----- the _v1 step refines the decimal-aware one

  function EqualDecimals(s: PMMState): PMMState {
    s.(quoteDecimal := s.baseDecimal)
  }

  /** The _v1 operations never read the decimals. */
  lemma StepV1Refines(s: PMMState, op: Op)
    ensures Step(EqualDecimals(s), op).Failure? ==> StepV1(s, op) == Step(EqualDecimals(s), op)
    ensures Step(EqualDecimals(s), op).Success? ==>
            StepV1(s, op) == Success(Step(EqualDecimals(s), op).value.(quoteDecimal := s.quoteDecimal))
  {
    var e := EqualDecimals(s);
    EqualDecimalsTarget(e);
    if AdjustedTarget(e).Success? {
      var t, t1 := AdjustedTarget(e).value, AdjustedTargetV1(s).value;
      assert t1 == t.(quoteDecimal := s.quoteDecimal);
      match op
      case SellBase(pay) =>
        EqualDecimalsSellBase(t, pay);
        SellBaseIgnoresDecimals(t, s.quoteDecimal, pay);
      case SellQuote(pay) =>
        EqualDecimalsSellQuote(t, pay);
        SellQuoteIgnoresDecimals(t, s.quoteDecimal, pay);
    }
  }

  lemma SellBaseIgnoresDecimals(s: PMMState, d: u8, pay: nat)
    ensures SellBaseTokenV1(s.(quoteDecimal := d), pay) == SellBaseTokenV1(s, pay)
  {
  }

  lemma SellQuoteIgnoresDecimals(s: PMMState, d: u8, pay: nat)
    ensures SellQuoteTokenV1(s.(quoteDecimal := d), pay) == SellQuoteTokenV1(s, pay)
  {
  }

  lemma StepV1Keeps(s: PMMState, op: Op)
    requires Balanced(s)
    ensures StepV1(s, op).Failure? ==> StepV1(s, op).error != Underflow
    ensures StepV1(s, op).Success? ==> Balanced(StepV1(s, op).value) && SameCurve(s, StepV1(s, op).value)
  {
    StepV1Refines(s, op);
    StepKeeps(EqualDecimals(s), op);
  }

  /** Run safety for the _v1 operations, whatever the decimals. */
  lemma {:induction false} RunV1Safety(s: PMMState, ops: seq<Op>)
    requires Balanced(s)
    ensures RunV1(s, ops).Failure? ==> RunV1(s, ops).error != Underflow
    ensures RunV1(s, ops).Success? ==> Balanced(RunV1(s, ops).value) && SameCurve(s, RunV1(s, ops).value)
    decreases |ops|
  {
    if ops != [] {
      StepV1Keeps(s, ops[0]);
      if StepV1(s, ops[0]).Success? {
        RunV1Safety(StepV1(s, ops[0]).value, ops[1..]);
      }
    }
  }

  // ----- when a step traps

  /** The states from which a trade traps: an emptied short reserve whose target cannot be
      rebuilt, or whose rebuilt target is zero. */
  predicate Stuck(s: PMMState, op: Op)
    requires 0 < s.i && Balanced(s)
  {
    var j := ReciprocalFloor(s.i).value;
    || (s.r == BelowOne && s.q == 0 && (s.k > 0 || (op.SellBase? && MulFloor(s.i, s.b - s.b0) == 0)))
    || (s.r == AboveOne && s.b == 0 &&
        if s.k > 0 then j > 0 || op.SellQuote? else op.SellQuote? && MulFloor(j, s.q - s.q0) == 0)
  }

  lemma AdjustV1Traps(s: PMMState)
    requires Balanced(s) && 0 < s.i
    ensures AdjustedTargetV1(s).Failure? <==>
            || (s.r == BelowOne && s.q == 0 < s.k)
            || (s.r == AboveOne && s.b == 0 < s.k && 0 < ReciprocalFloor(s.i).value)
    ensures AdjustedTargetV1(s).Success? ==>
            var t := AdjustedTargetV1(s).value;
            Adjusted(t) && SameCurve(s, t) && t.b == s.b && t.q == s.q && t.r == s.r
            && (s.r != BelowOne ==> t.q0 == s.q0) && (s.r != AboveOne ==> t.b0 == s.b0)
    ensures AdjustedTargetV1(s).Success? && s.r == BelowOne && s.q == 0 ==>
            AdjustedTargetV1(s).value.q0 == MulFloor(s.i, s.b - s.b0)
    ensures AdjustedTargetV1(s).Success? && s.r == AboveOne && s.b == 0 ==>
            AdjustedTargetV1(s).value.b0
            == if s.k == 0 then MulFloor(ReciprocalFloor(s.i).value, s.q - s.q0) else 0
  {
    var j := ReciprocalFloor(s.i).value;
    if s.r == BelowOne {
      SolveTargetTraps(s.q, s.b - s.b0, s.i, s.k);
      TargetAtLeastReserve(s.q, s.b - s.b0, s.i, s.k);
    } else if s.r == AboveOne {
      SolveTargetTraps(s.b, s.q - s.q0, j, s.k);
      TargetAtLeastReserve(s.b, s.q - s.q0, j, s.k);
    }
  }

  lemma SellBaseV1Traps(s: PMMState, pay: nat)
    requires Adjusted(s) && 0 < s.i
    requires s.r != BelowOne ==> 0 < s.q0
    requires s.r == BelowOne && s.k > 0 ==> 0 < s.q
    requires s.r == AboveOne && s.k > 0 && s.b == 0 ==> s.b0 == 0
    ensures SellBaseTokenV1(s, pay).Failure? <==> s.r == BelowOne && s.q0 == 0
  {
    if s.r == AboveOne {
      if pay < s.b0 - s.b {
        GeneralIntegrateTraps(s.b0, s.b + pay, s.b, s.i, s.k);
      } else {
        SolveTradeTraps(s.q0, s.q0, pay - (s.b0 - s.b), s.i, s.k);
      }
    } else {
      SolveTradeTraps(s.q0, if s.r == One then s.q0 else s.q, pay, s.i, s.k);
    }
  }

  lemma SellQuoteV1Traps(s: PMMState, pay: nat)
    requires Adjusted(s) && 0 < s.i
    requires s.r != AboveOne ==> 0 < s.b0
    requires s.r == AboveOne && s.k > 0 && s.b0 > 0 ==> 0 < s.b
    requires s.r == BelowOne && s.k > 0 ==> 0 < s.q
    ensures SellQuoteTokenV1(s, pay).Failure? <==> s.r == AboveOne && s.b0 == 0
  {
    var j := ReciprocalFloor(s.i).value;
    if s.r == BelowOne {
      if pay < s.q0 - s.q {
        GeneralIntegrateTraps(s.q0, s.q + pay, s.q, j, s.k);
      } else {
        SolveTradeTraps(s.b0, s.b0, pay - (s.q0 - s.q), j, s.k);
      }
    } else {
      SolveTradeTraps(s.b0, if s.r == One then s.b0 else s.b, pay, j, s.k);
    }
  }

  /** A trade from a balanced state with positive targets traps exactly when it is stuck. */
  lemma StepV1TrapsIff(s: PMMState, op: Op)
    requires Balanced(s) && 0 < s.i && 0 < s.b0 && 0 < s.q0
    ensures StepV1(s, op).Failure? <==> Stuck(s, op)
  {
    AdjustV1Traps(s);
    if AdjustedTargetV1(s).Success? {
      var t := AdjustedTargetV1(s).value;
      StepV1Settles(s, t, op);
      match op
      case SellBase(pay) => SellBaseV1Traps(t, pay);
      case SellQuote(pay) => SellQuoteV1Traps(t, pay);
    }
  }

  /** Moving the reserves never traps: the payout always fits. */
  lemma StepV1Settles(s: PMMState, t: PMMState, op: Op)
    requires Balanced(s) && AdjustedTargetV1(s) == Success(t) && Adjusted(t)
    ensures StepV1(s, op).Failure? <==> SellV1(t, op).Failure?
  {
    var e := EqualDecimals(t);
    match op
    case SellBase(pay) =>
      SellBaseKeeps(e, pay);
      EqualDecimalsSellBase(e, pay);
      SellBaseIgnoresDecimals(e, t.quoteDecimal, pay);
    case SellQuote(pay) =>
      SellQuoteKeeps(e, pay);
      EqualDecimalsSellQuote(e, pay);
      SellQuoteIgnoresDecimals(e, t.quoteDecimal, pay);
  }

  // ----- runs

  predicate Positive(s: PMMState) {
    Balanced(s) && 0 < s.i && 0 < s.b && 0 < s.q && 0 < s.b0 && 0 < s.q0
  }

  /** Targets stay positive as long as the reserves do. */
  lemma StepV1Positive(s: PMMState, op: Op)
    requires Positive(s)
    ensures StepV1(s, op).Success?
    ensures var t := StepV1(s, op).value;
      Balanced(t) && SameCurve(s, t) && 0 < t.b0 && 0 < t.q0
  {
    StepV1TrapsIff(s, op);
    StepV1Keeps(s, op);
    AdjustV1Traps(s);
  }

  predicate Emptied(s: PMMState) {
    Balanced(s) && 0 < s.b0 && 0 < s.q0 && (s.b == 0 || s.q == 0)
  }

  /** A run from a positive state traps only after some trade of it emptied a reserve. */
  lemma {:induction false} RunV1TrapsOnlyWhenEmptied(s: PMMState, ops: seq<Op>) returns (n: nat)
    requires Positive(s)
    ensures RunV1(s, ops).Failure? ==> n < |ops| && RunV1(s, ops[..n]).Success? && Emptied(RunV1(s, ops[..n]).value)
    decreases |ops|
  {
    if RunV1(s, ops).Success? {
      return 0;
    }
    StepV1Positive(s, ops[0]);
    var t := StepV1(s, ops[0]).value;
    if t.b == 0 || t.q == 0 {
      n := 1;
      assert ops[..1][1..] == [];
      assert |ops| == 1 ==> ops[1..] == [];
      assert RunV1(t, []) == Success(t);
    } else {
      n := RunV1TrapsOnlyWhenEmptied(t, ops[1..]);
      n := n + 1;
      assert ops[..n][1..] == ops[1..][..n - 1];
    }
  }

  /** The part of a payment that trades away from a target, if any. */
  function Excess(t: PMMState, op: Op): nat
    requires Adjusted(t)
  {
    match op
    case SellBase(pay) =>
      if t.r != AboveOne then pay else if t.b + pay < t.b0 then 0 else pay - (t.b0 - t.b)
    case SellQuote(pay) =>
      if t.r != BelowOne then pay
      else if t.q + pay < t.q0 || t.b0 + pay == t.b then 0
      else pay - (t.q0 - t.q)
  }

  /** The trades that empty a reserve: what they pay beyond the target buys all of it. */
  ghost predicate Empties(t: PMMState, op: Op)
    requires Positive(t) && Adjusted(t)
  {
    && 0 < Excess(t, op)
    && match op
       case SellBase(_) =>
         && (t.r == One ==> t.q == t.q0)
         && TradeTheorems.BuysAll(t.q0, if t.r == BelowOne then t.q else t.q0, Excess(t, op), t.i, t.k)
       case SellQuote(_) =>
         && (t.r == One ==> t.b == t.b0)
         && TradeTheorems.BuysAll(t.b0, if t.r == AboveOne then t.b else t.b0, Excess(t, op),
                                  ReciprocalFloor(t.i).value, t.k)
  }

  /** A trade of an adjusted positive state empties a reserve exactly when what it pays beyond
      the target buys all of it. */
  lemma StepV1EmptiesIff(t: PMMState, op: Op)
    requires IsAdjusted(t) && Adjusted(t)
    ensures StepV1(t, op).Success?
    ensures Emptied(StepV1(t, op).value) <==> Empties(t, op)
  {
    StepV1Positive(t, op);
    match op
    case SellBase(pay) => BaseSaleEmptiesIff(t, pay);
    case SellQuote(pay) => QuoteSaleEmptiesIff(t, pay);
  }

  lemma TradeEmptiesIff(v0: nat, v1: nat, delta: nat, i: nat, k: nat)
    requires 0 < v0 && 0 < v1 && k <= ONE
    ensures var r := SolveTrade(v0, v1, delta, i, k);
      && r.Success? && r.value <= v1
      && (r.value == v1 <==> 0 < delta && TradeTheorems.BuysAll(v0, v1, delta, i, k))
  {
    SolveTradeTraps(v0, v1, delta, i, k);
    if delta > 0 {
      TradeTheorems.EmptiesReserveIff(v0, v1, delta, i, k);
    }
  }

  lemma BaseSaleEmptiesIff(t: PMMState, pay: nat)
    requires IsAdjusted(t) && Adjusted(t) && StepV1(t, SellBase(pay)).Success?
    ensures StepV1(t, SellBase(pay)).value.q == 0 <==> Empties(t, SellBase(pay))
  {
    if t.r == AboveOne && t.b + pay < t.b0 {
      ClampsNeverFire(t, pay);
    } else {
      TradeEmptiesIff(t.q0, if t.r == BelowOne then t.q else t.q0, Excess(t, SellBase(pay)), t.i, t.k);
    }
  }

  lemma QuoteSaleEmptiesIff(t: PMMState, pay: nat)
    requires IsAdjusted(t) && Adjusted(t) && StepV1(t, SellQuote(pay)).Success?
    ensures StepV1(t, SellQuote(pay)).value.b == 0 <==> Empties(t, SellQuote(pay))
  {
    if t.r == BelowOne && t.q + pay < t.q0 {
      ClampsNeverFire(t, pay);
    } else {
      TradeEmptiesIff(t.b0, if t.r == AboveOne then t.b else t.b0, Excess(t, SellQuote(pay)),
                      ReciprocalFloor(t.i).value, t.k);
    }
  }

  /** With slope one a trade never empties a reserve. */
  lemma SteepStepKeepsReserves(s: PMMState, op: Op)
    requires Positive(s) && s.k == ONE
    ensures StepV1(s, op).Success? && Positive(StepV1(s, op).value)
  {
    StepV1Positive(s, op);
    AdjustV1Traps(s);
    var t := AdjustedTargetV1(s).value;
    match op
    case SellBase(pay) =>
      SteepSaleBelow(t.q0, t.q0, if t.r == AboveOne && t.b0 - t.b <= pay then pay - (t.b0 - t.b) else pay, t.i);
      SteepSaleBelow(t.q0, t.q, pay, t.i);
    case SellQuote(pay) =>
      var j := ReciprocalFloor(t.i).value;
      SteepSaleBelow(t.b0, t.b0, if t.r == BelowOne && t.q0 - t.q <= pay then pay - (t.q0 - t.q) else pay, j);
      SteepSaleBelow(t.b0, t.b, pay, j);
  }

  lemma SteepSaleBelow(v0: nat, v1: nat, delta: nat, i: nat)
    requires 0 < v0 && 0 < v1
    ensures SolveTrade(v0, v1, delta, i, ONE).Success?
    ensures SolveTrade(v0, v1, delta, i, ONE).value < v1
  {
    SteepPayoutBounds(v1, SteepRatio(v0, v1, delta, i));
  }

  /** At slope one every run from a positive state goes through, whatever the trades. */
  lemma {:induction false} SteepRunNeverTraps(s: PMMState, ops: seq<Op>)
    requires Positive(s) && s.k == ONE
    ensures RunV1(s, ops).Success? && Positive(RunV1(s, ops).value)
    decreases |ops|
  {
    if ops != [] {
      SteepStepKeepsReserves(s, ops[0]);
      StepV1Keeps(s, ops[0]);
      SteepRunNeverTraps(StepV1(s, ops[0]).value, ops[1..]);
    }
  }

  // ----- adjusted states

  /** After adjusting, the clamp on a partial sale back to target never fires: the
      rounded integral never exceeds the surplus on the other side. */
  lemma ClampsNeverFire(s: PMMState, pay: nat)
    requires Balanced(s) && 0 < s.i
    requires s.r == BelowOne ==> 0 < s.q
    requires s.r == AboveOne ==> 0 < s.b
    ensures AdjustedTargetV1(s).Success?
    ensures var t, j := AdjustedTargetV1(s).value, ReciprocalFloor(s.i).value;
      && (t.r == AboveOne && t.b + pay < t.b0 ==>
            var r := GeneralIntegrate(t.b0, t.b + pay, t.b, t.i, t.k);
            r.Success? && r.value <= t.q - t.q0 && SellBaseTokenV1(t, pay) == Success(Sale(r.value, AboveOne)))
      && (t.r == BelowOne && t.q + pay < t.q0 ==>
            var r := GeneralIntegrate(t.q0, t.q + pay, t.q, j, t.k);
            r.Success? && r.value <= t.b - t.b0 && SellQuoteTokenV1(t, pay) == Success(Sale(r.value, BelowOne)))
  {
    AdjustV1Traps(s);
    ReciprocalBound(s.i);
    var t, j := AdjustedTargetV1(s).value, ReciprocalFloor(s.i).value;
    if t.r == AboveOne && t.b + pay < t.b0 {
      PartialSaleWithinSurplus(s.b, s.q - s.q0, j, s.i, s.k, pay);
    } else if t.r == BelowOne && t.q + pay < t.q0 {
      PartialSaleWithinSurplus(s.q, s.b - s.b0, s.i, j, s.k, pay);
    }
  }

  lemma FactorAtLeastOne(v0: nat, v: nat, k: nat)
    requires 0 < v <= v0 && k <= ONE
    ensures PriceFactor(v0, v, k).Success?
    ensures ONE <= PriceFactor(v0, v, k).value
    ensures v == v0 ==> PriceFactor(v0, v, k).value == ONE
  {
    PenaltyAtLeastSlope(v0, v, v, k);
    if v == v0 {
      DivUnique(v * v, v, v);
      DivUnique(v * ONE, v, ONE);
      DivUnique(k * ONE, ONE, k);
    }
  }

  /** The guide price i at the price's scale. */
  function GuidePrice(s: PMMState, decimals: u8): nat {
    Quotient(PriceScale(s.baseDecimal, decimals) * s.i, ONE)
  }

  lemma MidPriceBracket(s: PMMState, decimals: u8)
    requires s.k <= ONE
    requires if s.r == BelowOne then 0 < s.q <= s.q0 else 0 < s.b
    ensures s.r == BelowOne || s.b <= s.b0 ==> GetMidPriceV1(s, decimals).Success?
    ensures s.r == BelowOne ==> GetMidPriceV1(s, decimals).value <= GuidePrice(s, decimals)
    ensures s.r != BelowOne && s.b <= s.b0 ==> GuidePrice(s, decimals) <= GetMidPriceV1(s, decimals).value
    ensures s.r != BelowOne && s.b == s.b0 ==> GetMidPriceV1(s, decimals).value == GuidePrice(s, decimals)
  {
    var scaled := PriceScale(s.baseDecimal, decimals) * s.i;
    if s.r == BelowOne {
      FactorAtLeastOne(s.q0, s.q, s.k);
      var f := PriceFactor(s.q0, s.q, s.k).value;
      DivBounds(scaled * ONE, f);
      var price := DivFloor(scaled, f);
      MulMono(ONE, f, price);
      assert price * ONE <= f * price;
      MulCancel(price, scaled, ONE);
      DivMono(price, scaled, ONE);
    } else if s.b <= s.b0 {
      FactorAtLeastOne(s.b0, s.b, s.k);
      var f := PriceFactor(s.b0, s.b, s.k).value;
      MulMono(ONE, f, scaled);
      DivGreatest(scaled * f, ONE, scaled);
      DivMono(scaled, MulFloor(scaled, f), ONE);
      if s.b == s.b0 {
        DivUnique(scaled * ONE, ONE, scaled);
      }
    }
  }

  /** On every adjusted state with positive reserves the mid price is on the right side of
      the guide price: not above it while quote is short, not below it while base is. */
  lemma MidPriceAfterAdjusting(s: PMMState, decimals: u8)
    requires Positive(s)
    ensures AdjustedTargetV1(s).Success?
    ensures var t := AdjustedTargetV1(s).value;
      && (t.r == BelowOne ==> GetMidPriceV1(t, decimals).Success?
                              && GetMidPriceV1(t, decimals).value <= GuidePrice(t, decimals))
      && (t.r == AboveOne ==> GetMidPriceV1(t, decimals).Success?
                              && GuidePrice(t, decimals) <= GetMidPriceV1(t, decimals).value)
  {
    AdjustV1Traps(s);
    MidPriceBracket(AdjustedTargetV1(s).value, decimals);
  }

  // ----- which side of the guide price a sale is on

  /** On the way back to target the surplus itself is worth at least the guide price. */
  lemma SurplusPriceBound(v1: nat, delta: nat, x: nat, y: nat, k: nat)
    requires 0 < v1 && x * y <= ONE2 && SolveTarget(v1, delta, x, k).Success?
    ensures v1 <= SolveTarget(v1, delta, x, k).value
    ensures MulFloor(y, SolveTarget(v1, delta, x, k).value - v1) <= delta
  {
    TargetBracket(v1, delta, x, k);
    var g := SolveTarget(v1, delta, x, k).value - v1;
    CurveForm(ONE, k, v1, g);
    LineFromCurve(ONE, k, v1, x * delta, g);
    SurplusArithmetic(ONE, x, y, delta, g);
    DivGreatest(y * g, ONE, delta + 1);
  }

  lemma SurplusArithmetic(s: nat, x: nat, y: nat, delta: nat, g: nat)
    requires 0 < s && g * s <= x * delta && x * y <= s * s
    ensures y * g <= delta * s
  {
    MulMono(g * s, x * delta, y);
    MulMono(x * y, s * s, delta);
    assert (g * s) * y == (y * g) * s && (x * delta) * y == (x * y) * delta && (s * s) * delta == (delta * s) * s;
    MulCancel(y * g, delta * s, s);
  }

  /** A state that adjusting leaves alone. */
  ghost predicate IsAdjusted(t: PMMState) {
    Positive(t) && AdjustedTargetV1(t) == Success(t)
  }

  /** Adjusting a positive state once is enough. */
  lemma AdjustingSettles(s: PMMState)
    requires Positive(s)
    ensures AdjustedTargetV1(s).Success? && IsAdjusted(AdjustedTargetV1(s).value)
  {
    AdjustV1Traps(s);
  }

  /** At most the guide price i for pay, up to the slack of a sloped curve. */
  predicate AtMostGuide(receive: nat, i: nat, pay: nat, k: nat) {
    receive <= MulFloor(i, pay) + SlackOf(k)
  }

  predicate AtLeastGuide(receive: nat, i: nat, pay: nat) {
    MulFloor(i, pay) <= receive
  }

  /** Base is not short: a base sale, for any slope, pays at most the guide price. */
  lemma BaseSaleAway(t: PMMState, pay: nat)
    requires IsAdjusted(t) && t.r != AboveOne
    ensures var r := SellBaseTokenV1(t, pay); r.Success? && AtMostGuide(r.value.receive, t.i, pay, t.k)
  {
    AdjustV1Traps(t);
    TradePriceBound(t.q0, if t.r == One then t.q0 else t.q, pay, t.i, t.k);
  }

  /** Base is short: on the way back to target a base sale pays at least the guide price. */
  lemma BaseSaleBack(t: PMMState, pay: nat)
    requires IsAdjusted(t) && t.r == AboveOne && t.b + pay < t.b0
    ensures var r := SellBaseTokenV1(t, pay); r.Success? && AtLeastGuide(r.value.receive, t.i, pay)
  {
    ClampsNeverFire(t, pay);
    IntegralPriceBound(t.b0, t.b + pay, t.b, t.i, t.k);
  }

  /** Across the target: at least the guide price up to it, at most the guide price beyond it. */
  lemma BaseSaleAcross(t: PMMState, pay: nat)
    requires IsAdjusted(t) && t.r == AboveOne && t.b0 <= t.b + pay
    ensures t.b <= t.b0 && AtLeastGuide(t.q - t.q0, t.i, t.b0 - t.b)
    ensures var r := SellBaseTokenV1(t, pay);
      && r.Success? && t.q - t.q0 <= r.value.receive
      && AtMostGuide(r.value.receive - (t.q - t.q0), t.i, pay - (t.b0 - t.b), t.k)
  {
    AdjustV1Traps(t);
    ReciprocalBound(t.i);
    SurplusPriceBound(t.b, t.q - t.q0, ReciprocalFloor(t.i).value, t.i, t.k);
    TradePriceBound(t.q0, t.q0, pay - (t.b0 - t.b), t.i, t.k);
  }

  /** The mirror image for quote sales, at the reciprocal price j. */
  lemma QuoteSaleAway(t: PMMState, pay: nat, j: nat)
    requires IsAdjusted(t) && t.r != BelowOne && ReciprocalFloor(t.i) == Success(j)
    ensures var r := SellQuoteTokenV1(t, pay); r.Success? && AtMostGuide(r.value.receive, j, pay, t.k)
  {
    AdjustV1Traps(t);
    TradePriceBound(t.b0, if t.r == One then t.b0 else t.b, pay, j, t.k);
  }

  lemma QuoteSaleBack(t: PMMState, pay: nat, j: nat)
    requires IsAdjusted(t) && t.r == BelowOne && t.q + pay < t.q0 && ReciprocalFloor(t.i) == Success(j)
    ensures var r := SellQuoteTokenV1(t, pay); r.Success? && AtLeastGuide(r.value.receive, j, pay)
  {
    ClampsNeverFire(t, pay);
    IntegralPriceBound(t.q0, t.q + pay, t.q, j, t.k);
  }

  lemma QuoteSaleAcross(t: PMMState, pay: nat, j: nat)
    requires IsAdjusted(t) && t.r == BelowOne && t.q0 <= t.q + pay && ReciprocalFloor(t.i) == Success(j)
    ensures t.q <= t.q0 && AtLeastGuide(t.b - t.b0, j, t.q0 - t.q)
    ensures var r := SellQuoteTokenV1(t, pay);
      && r.Success? && t.b - t.b0 <= r.value.receive
      && AtMostGuide(r.value.receive - (t.b - t.b0), j, pay - (t.q0 - t.q), t.k)
  {
    AdjustV1Traps(t);
    ReciprocalBound(t.i);
    SurplusPriceBound(t.q, t.b - t.b0, t.i, j, t.k);
    TradePriceBound(t.b0, t.b0, pay - (t.q0 - t.q), j, t.k);
  }

  // ----- slope one with unequal decimals

  /** The power of ten to divide by has wrapped to zero, so that adjusting any amount traps. */
  predicate Unadjustable(before: u8, after: u8) {
    after < before && Pow10U64(before - after) == 0
  }

  /** A partial sale adjusts its short reserve first: it must not trap, and not come to zero. */
  predicate DustReserve(before: u8, after: u8, v: nat) {
    Unadjustable(before, after) || AdjustDecimal(before, after, v) == Success(0)
  }

  /** The sales that trap in an adjusted pool of slope one: a partial sale whose short reserve
      is dust in the other token's decimals, and any other sale that adjusts by a wrapped power. */
  predicate SteepSaleTraps(t: PMMState, op: Op) {
    match op
    case SellBase(pay) =>
      if t.r != AboveOne || t.b0 < t.b + pay then Unadjustable(t.baseDecimal, t.quoteDecimal)
      else t.b + pay < t.b0 && DustReserve(t.baseDecimal, t.quoteDecimal, t.b)
    case SellQuote(pay) =>
      if t.r == BelowOne && t.q + pay < t.q0 then DustReserve(t.quoteDecimal, t.baseDecimal, t.q)
      else !(t.r == BelowOne && t.b0 + pay == t.b) && Unadjustable(t.quoteDecimal, t.baseDecimal)
  }

  predicate AdjustTraps(s: PMMState) {
    || (s.r == BelowOne && Unadjustable(s.baseDecimal, s.quoteDecimal))
    || (s.r == AboveOne && Unadjustable(s.quoteDecimal, s.baseDecimal))
  }

  lemma AdjustDecimalTraps(before: u8, after: u8, amount: nat)
    ensures AdjustDecimal(before, after, amount).Failure? <==> Unadjustable(before, after)
  {
  }

  lemma SteepPartialSale(before: u8, after: u8, v0: nat, v: nat, pay: nat, i: nat)
    requires v <= v0
    ensures PartialSale(before, after, v0, v, pay, i, ONE).Failure? <==> DustReserve(before, after, v)
  {
    AdjustDecimalTraps(before, after, v0);
    AdjustDecimalTraps(before, after, v);
    AdjustDecimalTraps(before, after, pay);
    if !Unadjustable(before, after) {
      AdjustDecimalMono(before, after, v, v0);
      var a, c := AdjustDecimal(before, after, v0).value, AdjustDecimal(before, after, v).value;
      GeneralIntegrateTraps(a, c + AdjustDecimal(before, after, pay).value, c, i, ONE);
    }
  }

  lemma SteepExcess(before: u8, after: u8, v0: nat, pay: nat, backPay: nat, i: nat)
    requires 0 < v0 && backPay <= pay
    ensures var r := SaleBeyondTarget(before, after, v0, pay, backPay, i, ONE);
      (r.Failure? <==> Unadjustable(before, after)) && (r.Success? ==> r.value < v0)
  {
    AdjustDecimalTraps(before, after, pay);
    AdjustDecimalTraps(before, after, backPay);
    if !Unadjustable(before, after) {
      AdjustDecimalMono(before, after, backPay, pay);
      var p, c := AdjustDecimal(before, after, pay).value, AdjustDecimal(before, after, backPay).value;
      SteepSaleBelow(v0, v0, p - c, i);
    }
  }

  lemma SteepAdjust(s: PMMState)
    requires Positive(s) && s.k == ONE
    ensures AdjustedTarget(s).Failure? <==> AdjustTraps(s)
    ensures AdjustedTarget(s).Success? ==>
            var t := AdjustedTarget(s).value;
            Positive(t) && Adjusted(t) && SameCurve(s, t) && t.r == s.r
  {
    AdjustKeeps(s);
    if s.r == BelowOne {
      var d := AdjustDecimal(s.baseDecimal, s.quoteDecimal, s.b - s.b0);
      AdjustDecimalTraps(s.baseDecimal, s.quoteDecimal, s.b - s.b0);
      if d.Success? {
        SolveTargetTraps(s.q, d.value, s.i, s.k);
      }
    } else if s.r == AboveOne {
      var d := AdjustDecimal(s.quoteDecimal, s.baseDecimal, s.q - s.q0);
      AdjustDecimalTraps(s.quoteDecimal, s.baseDecimal, s.q - s.q0);
      if d.Success? {
        SolveTargetTraps(s.b, d.value, ReciprocalFloor(s.i).value, s.k);
      }
    }
  }

  lemma SteepSellBase(t: PMMState, pay: nat)
    requires Positive(t) && Adjusted(t) && t.k == ONE
    ensures SellBaseToken(t, pay).Failure? <==> SteepSaleTraps(t, SellBase(pay))
    ensures SellBaseToken(t, pay).Success? ==> SellBaseToken(t, pay).value.receive < t.q
  {
    var bd, qd := t.baseDecimal, t.quoteDecimal;
    if t.r != AboveOne {
      var delta := AdjustDecimal(bd, qd, pay);
      AdjustDecimalTraps(bd, qd, pay);
      if delta.Success? {
        SteepSaleBelow(t.q0, if t.r == One then t.q0 else t.q, delta.value, t.i);
      }
    } else if pay < t.b0 - t.b {
      SteepPartialSale(bd, qd, t.b0, t.b, pay, t.i);
    } else {
      SteepExcess(bd, qd, t.q0, pay, t.b0 - t.b, t.i);
    }
  }

  lemma SteepSellQuote(t: PMMState, pay: nat)
    requires Positive(t) && Adjusted(t) && t.k == ONE
    ensures SellQuoteToken(t, pay).Failure? <==> SteepSaleTraps(t, SellQuote(pay))
    ensures SellQuoteToken(t, pay).Success? ==> SellQuoteToken(t, pay).value.receive < t.b
  {
    var bd, qd, j := t.baseDecimal, t.quoteDecimal, ReciprocalFloor(t.i).value;
    if t.r != BelowOne {
      var delta := AdjustDecimal(qd, bd, pay);
      AdjustDecimalTraps(qd, bd, pay);
      if delta.Success? {
        SteepSaleBelow(t.b0, if t.r == One then t.b0 else t.b, delta.value, j);
      }
    } else if pay < t.q0 - t.q {
      SteepPartialSale(qd, bd, t.q0, t.q, pay, j);
    } else {
      SteepExcess(qd, bd, t.b0, pay, t.q0 - t.q, j);
    }
  }

  predicate SteepStepTraps(s: PMMState, op: Op) {
    match AdjustedTarget(s)
    case Failure(_) => AdjustTraps(s)
    case Success(t) => SteepSaleTraps(t, op)
  }

  /** With unequal decimals a trade in a pool of slope one traps on a dust sale or a wrapped
      power of ten, and on nothing else; any other trade leaves both reserves positive. */
  lemma SteepStepTrapsIff(s: PMMState, op: Op)
    requires Positive(s) && s.k == ONE
    ensures Step(s, op).Failure? <==> SteepStepTraps(s, op)
    ensures Step(s, op).Success? ==> Positive(Step(s, op).value) && SameCurve(s, Step(s, op).value)
  {
    SteepAdjust(s);
    StepKeeps(s, op);
    if AdjustedTarget(s).Success? {
      var t := AdjustedTarget(s).value;
      match op
      case SellBase(pay) => SteepSellBase(t, pay); SellBaseKeeps(t, pay);
      case SellQuote(pay) => SteepSellQuote(t, pay); SellQuoteKeeps(t, pay);
    }
  }

  /** No trade of the run, at the state it meets, is one of the trapping kind. */
  ghost predicate ClearOfTraps(s: PMMState, ops: seq<Op>)
    decreases |ops|
  {
    ops == [] ||
    (!SteepStepTraps(s, ops[0]) &&
     match Step(s, ops[0])
     case Success(t) => ClearOfTraps(t, ops[1..])
     case Failure(_) => true)
  }

  /** A decimal-aware run at slope one goes through exactly when none of its trades is of the
      trapping kind, and then it ends with positive reserves and targets. */
  lemma {:induction false} SteepDecimalRunIff(s: PMMState, ops: seq<Op>)
    requires Positive(s) && s.k == ONE
    ensures Run(s, ops).Success? <==> ClearOfTraps(s, ops)
    ensures Run(s, ops).Success? ==> Positive(Run(s, ops).value)
    decreases |ops|
  {
    if ops != [] {
      SteepStepTrapsIff(s, ops[0]);
      if Step(s, ops[0]).Success? {
        SteepDecimalRunIff(Step(s, ops[0]).value, ops[1..]);
      }
    }
  }

  // ----- a dust sale

  const TEN10: nat := 10_000_000_000

  /** One base unit of 18 decimals is dust in a quote token of 8. */
  const DUSTY: PMMState := PMMState(ONE, ONE, 1, TEN10 + 2, 1, 1, AboveOne, 18, 8)

  lemma TenDecimals()
    ensures Pow10U64(10) == TEN10
  {
    assert Power.Exp(10, 5) == 100_000;
    Power.ExpAdd(10, 5, 5);
  }

  /** Its target: sqrt(1 + 4 m (m + 1)) is 2 m + 1, so the target is m + 1 with m = 10^10. */
  lemma DustyTarget()
    ensures SolveTarget(1, (TEN10 + 1) * TEN10, ONE, ONE) == Success(TEN10 + 1)
  {
    var delta, root := (TEN10 + 1) * TEN10, (2 * TEN10 + 1) * ONE;
    RootClosedForm(1, delta, 4 * ONE * ONE);
    DivUnique(4 * ONE * ONE * delta, 1, 4 * ONE * ONE * delta);
    assert 4 * ONE * ONE * delta / 1 + ONE2 == root * root;
    IsqrtExact(root);
    SolveTargetFromRoot(1, delta, ONE, ONE, root);
  }

  /** One unit of each token, at its targets. */
  const UNIT_POOL: PMMState := PMMState(ONE, ONE, 1, 1, 1, 1, One, 18, 8)

  /** One large quote sale, worth (m + 1) m in base decimals, is too little to buy the one base unit. */
  lemma UnitPoolGoesDusty()
    ensures Step(UNIT_POOL, SellQuote(TEN10 + 1)) == Success(DUSTY)
  {
    TenDecimals();
    var delta := (TEN10 + 1) * TEN10;
    assert AdjustDecimal(8, 18, TEN10 + 1) == Success(delta);
    DivUnique(ONE2, ONE, ONE);
    SteepSaleBelow(1, 1, delta, ONE);
  }

  /** An ordinary run at slope one, from a pool at its targets to all reserves and targets
      positive, that traps at its second trade. */
  lemma DustSaleTraps()
    ensures Positive(UNIT_POOL) && Run(UNIT_POOL, [SellQuote(TEN10 + 1)]) == Success(DUSTY) && Positive(DUSTY)
    ensures !Unadjustable(DUSTY.baseDecimal, DUSTY.quoteDecimal)
    ensures Run(UNIT_POOL, [SellQuote(TEN10 + 1), SellBase(1)]).Failure?
  {
    TenDecimals();
    UnitPoolGoesDusty();
    DustyTarget();
    DivUnique(ONE2, ONE, ONE);
    SteepStepTrapsIff(DUSTY, SellBase(1));
    assert AdjustedTarget(DUSTY).value.b0 == TEN10 + 1;
    assert [SellQuote(TEN10 + 1)][1..] == [];
    assert [SellQuote(TEN10 + 1), SellBase(1)][1..] == [SellBase(1)];
  }
}
