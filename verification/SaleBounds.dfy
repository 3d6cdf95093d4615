/** What a sale pays and what a target is adjusted to, bounded on both sides by the exact
    curve and the unrounded integral, in every state of the pool and for unequal decimals. */
module SaleBounds {
  import opened Checked
  import opened Arith
  import opened FixedPoint
  import TargetSolver
  import opened TradeSolver
  import opened TradePrice
  import opened TradeCurve
  import opened Integral
  import opened Pmm
  import opened PmmRuns
  import PmmV1
  import opened Power

  // ----- decimals

  lemma {:induction false} TenPowers(n: nat)
    ensures 0 < Exp(10, n)
    ensures n <= 19 ==> Exp(10, n) < 0x1_0000_0000_0000_0000
    ensures 20 <= n ==> 5 * 0x1_0000_0000_0000_0000 <= Exp(10, n)
  {
    if n > 19 {
      if n == 20 {
        TenToFive();
        ExpAdd(10, 5, 5);
        ExpAdd(10, 10, 10);
      } else {
        TenPowers(n - 1);
      }
    } else {
      TenUpTo19(n);
    }
  }

  lemma TenToFive()
    ensures Exp(10, 5) == 100_000
  {
  }

  lemma {:induction false} TenUpTo19(n: nat)
    requires n <= 19
    ensures 0 < Exp(10, n) < 0x1_0000_0000_0000_0000
    decreases 19 - n
  {
    if n == 19 {
      TenToFive();
      assert Exp(10, 4) == 10_000;
      ExpAdd(10, 5, 5);
      ExpAdd(10, 5, 4);
      ExpAdd(10, 10, 9);
    } else {
      TenUpTo19(n + 1);
    }
  }

  /** An amount of one token in the smallest units of another: times or over a power of ten. */
  function Rescaled(amount: nat, before: u8, after: u8): nat {
    if before <= after then amount * Exp(10, after - before)
    else
      TenPowers(before - after);
      amount / Exp(10, before - after)
  }

  lemma RescaledSame(amount: nat, d: u8)
    ensures Rescaled(amount, d, d) == amount
  {
    assert Exp(10, 0) == 1;
  }

  /** The decimals of the two tokens are at most 19 apart. */
  predicate Near(before: u8, after: u8) {
    before <= after + 19 && after <= before + 19
  }

  /** Adjusting decimals is rescaling for every amount exactly when 10^d fits 64 bits. */
  lemma AdjustIsRescaleIff(before: u8, after: u8)
    ensures (forall amount: nat :: AdjustDecimal(before, after, amount) == Success(Rescaled(amount, before, after)))
            <==> Near(before, after)
  {
    var d: nat := if before <= after then after - before else before - after;
    var ten := Exp(10, d);
    TenPowers(d);
    if d <= 19 {
      assert Pow10U64(d) == ten;
    } else if before <= after {
      assert AdjustDecimal(before, after, 1) != Success(Rescaled(1, before, after));
    } else {
      DivUnique(ten, ten, 1);
      if Pow10U64(d) != 0 {
        DivGreatest(ten, Pow10U64(d), 2);
      }
      assert AdjustDecimal(before, after, ten) != Success(Rescaled(ten, before, after));
    }
  }

  // ----- one trade, one partial sale, one target

  /** p is what the curve of target n gives from reserve q for a payment worth x, up to the
      slack on one side and the allowance on the other. */
  ghost predicate PaysAbout(n: nat, q: nat, x: int, k: nat, p: int) {
    && 0 <= p <= q && 0 <= x && k <= ONE
    && (SlackOf(k) < p ==> OnCurve(n, q, p - SlackOf(k), x, k) && (p - SlackOf(k)) * ONE <= x)
    && (p + TradeAllowance(n, q, k) < q ==> !OnCurve(n, q, p + TradeAllowance(n, q, k), x, k))
  }

  lemma TradePaysAbout(n: nat, q: nat, delta: nat, i: nat, k: nat)
    requires q <= n && k <= ONE && SolveTrade(n, q, delta, i, k).Success?
    ensures PaysAbout(n, q, i * delta, k, SolveTrade(n, q, delta, i, k).value)
  {
    SolveTradeTraps(n, q, delta, i, k);
    var p := SolveTrade(n, q, delta, i, k).value;
    if 0 < q {
      TradeOffCurve(n, q, delta, i, k);
      if SlackOf(k) < p {
        TradeOnCurve(n, q, delta, i, k, p - SlackOf(k));
        TradePriceBound(n, q, delta, i, k);
        DivGreatest(i * delta, ONE, p - SlackOf(k));
      }
    }
  }

  /** r is at most the unrounded integral i pay (1 - k + k n^2 / v (v + pay)) ... */
  ghost predicate IntegralAtMost(n: nat, v: nat, pay: nat, i: nat, k: nat, r: nat) {
    if k == 0 then r * ONE <= i * pay
    else
      var d := (v + pay) * v;
      0 < d && k <= ONE && r * ONE2 * d <= ((ONE - k) * d + k * (n * n)) * (i * pay)
  }

  /** ... and at least it, but for the roundings. */
  ghost predicate IntegralAtLeast(n: nat, v: nat, pay: nat, i: nat, k: nat, r: nat) {
    if k == 0 then i * pay < (r + 1) * ONE
    else
      var d := (v + pay) * v;
      k <= ONE && ((ONE - k) * d + k * (n * n) - k * (v + pay) - 2 * d) * (i * pay) < (r + 1) * ONE2 * d
  }

  lemma PartialEarnsAbout(n: nat, v: nat, pay: nat, i: nat, k: nat)
    requires k <= ONE && GeneralIntegrate(n, v + pay, v, i, k).Success?
    ensures IntegralAtMost(n, v, pay, i, k, GeneralIntegrate(n, v + pay, v, i, k).value)
    ensures IntegralAtLeast(n, v, pay, i, k, GeneralIntegrate(n, v + pay, v, i, k).value)
  {
    if k == 0 {
      DivBounds(i * pay, ONE);
    } else {
      MulStrict(0, v, v + pay);
      IntegralBracket(n, v + pay, v, i, k);
    }
  }

  /** Never more than the surplus on the other side, and short of it the integral. */
  ghost predicate EarnsAbout(n: nat, v: nat, pay: nat, surplus: int, i: nat, k: nat, r: nat) {
    r <= surplus && IntegralAtMost(n, v, pay, i, k, r) && (r < surplus ==> IntegralAtLeast(n, v, pay, i, k, r))
  }

  lemma ClampedEarnsAbout(n: nat, v: nat, pay: nat, surplus: nat, i: nat, k: nat)
    requires k <= ONE && GeneralIntegrate(n, v + pay, v, i, k).Success?
    ensures var r := GeneralIntegrate(n, v + pay, v, i, k).value;
      EarnsAbout(n, v, pay, surplus, i, k, if r > surplus then surplus else r)
  {
    PartialEarnsAbout(n, v, pay, i, k);
    var r, d := GeneralIntegrate(n, v + pay, v, i, k).value, (v + pay) * v;
    if r > surplus {
      MulMono(surplus, r, ONE);
      MulMono(surplus, r, ONE2);
      MulMono(surplus * ONE2, r * ONE2, d);
    }
  }

  /** v0 is the target whose exact quadratic has v1 in stock and delta in surplus, but for
      the solver's roundings. */
  ghost predicate TargetAbout(v0: nat, v1: nat, delta: nat, i: nat, k: nat) {
    && TargetSolver.UnderCurve(v0, v1, delta, i, k)
    && if k == 0 then i * delta < (v0 - v1 + 1) * ONE else TargetSolver.NearCurve(v0, v1, delta, i, k)
  }

  /** The price of base in quote, rounded down. */
  predicate IsReciprocal(j: nat, i: nat) {
    j * i <= ONE2 < (j + 1) * i
  }

  lemma ReciprocalIs(i: nat)
    requires 0 < i
    ensures ReciprocalFloor(i).Success? && IsReciprocal(ReciprocalFloor(i).value, i)
  {
    DivBounds(ONE2, i);
    assert (ReciprocalFloor(i).value + 1) * i == i * (ONE2 / i) + i;
  }

  // ----- the operations

  /** adjusted_target moves the short side's target to where the quadratic has it, and nothing else. */
  lemma AdjustedTargetAbout(s: PMMState, t: PMMState, j: nat)
    requires AdjustedTarget(s) == Success(t) && Near(s.baseDecimal, s.quoteDecimal) && s.k <= ONE
    requires IsReciprocal(j, s.i)
    ensures match s.r
            case One => t == s
            case BelowOne =>
              && t == s.(q0 := t.q0) && s.b0 <= s.b
              && (0 < s.q ==>
                    TargetAbout(t.q0, s.q, Rescaled(s.b - s.b0, s.baseDecimal, s.quoteDecimal), s.i, s.k))
            case AboveOne =>
              && t == s.(b0 := t.b0) && s.q0 <= s.q
              && (0 < s.b ==>
                    TargetAbout(t.b0, s.b, Rescaled(s.q - s.q0, s.quoteDecimal, s.baseDecimal), j, s.k))
  {
    AdjustIsRescaleIff(s.baseDecimal, s.quoteDecimal);
    AdjustIsRescaleIff(s.quoteDecimal, s.baseDecimal);
    ReciprocalUnique(j, s.i);
    if s.r == BelowOne && 0 < s.q {
      TargetSolver.TargetBracket(s.q, Rescaled(s.b - s.b0, s.baseDecimal, s.quoteDecimal), s.i, s.k);
    } else if s.r == AboveOne && 0 < s.b {
      TargetSolver.TargetBracket(s.b, Rescaled(s.q - s.q0, s.quoteDecimal, s.baseDecimal), j, s.k);
    }
  }

  lemma ReciprocalUnique(j: nat, i: nat)
    requires IsReciprocal(j, i)
    ensures 0 < i && ReciprocalFloor(i) == Success(j)
  {
    assert (j + 1) * i == j * i + i;
    DivUnique(ONE2, i, j);
  }

  /** What a base sale into t must answer. */
  ghost predicate BaseSalePays(t: PMMState, pay: nat, sale: Sale)
    requires Adjusted(t)
  {
    var bd, qd := t.baseDecimal, t.quoteDecimal;
    match t.r
    case One =>
      sale.r == BelowOne && PaysAbout(t.q0, t.q0, t.i * Rescaled(pay, bd, qd), t.k, sale.receive)
    case BelowOne =>
      sale.r == BelowOne && PaysAbout(t.q0, t.q, t.i * Rescaled(pay, bd, qd), t.k, sale.receive)
    case AboveOne =>
      if t.b + pay < t.b0 then
        && sale.r == AboveOne
        && EarnsAbout(Rescaled(t.b0, bd, qd), Rescaled(t.b, bd, qd), Rescaled(pay, bd, qd),
                      t.q - t.q0, t.i, t.k, sale.receive)
      else if t.b + pay == t.b0 then sale == Sale(t.q - t.q0, One)
      else
        && sale.r == BelowOne
        && PaysAbout(t.q0, t.q0, t.i * (Rescaled(pay, bd, qd) - Rescaled(t.b0 - t.b, bd, qd)), t.k,
                     sale.receive - (t.q - t.q0))
  }

  /** What a quote sale into t must answer, at the reciprocal price j. Beyond its target the
      pool stops at state One when the payment equals the base surplus. */
  ghost predicate QuoteSalePays(t: PMMState, pay: nat, j: nat, sale: Sale)
    requires Adjusted(t)
  {
    var qd, bd := t.quoteDecimal, t.baseDecimal;
    match t.r
    case One =>
      sale.r == AboveOne && PaysAbout(t.b0, t.b0, j * Rescaled(pay, qd, bd), t.k, sale.receive)
    case AboveOne =>
      sale.r == AboveOne && PaysAbout(t.b0, t.b, j * Rescaled(pay, qd, bd), t.k, sale.receive)
    case BelowOne =>
      if t.q + pay < t.q0 then
        && sale.r == BelowOne
        && EarnsAbout(Rescaled(t.q0, qd, bd), Rescaled(t.q, qd, bd), Rescaled(pay, qd, bd),
                      t.b - t.b0, j, t.k, sale.receive)
      else if t.b0 + pay == t.b then sale == Sale(t.b - t.b0, One)
      else
        && sale.r == AboveOne
        && PaysAbout(t.b0, t.b0, j * (Rescaled(pay, qd, bd) - Rescaled(t.q0 - t.q, qd, bd)), t.k,
                     sale.receive - (t.b - t.b0))
  }

  /** sell_base_token, in every state of an adjusted pool and for any decimals near enough. */
  lemma BaseSaleTwoSided(t: PMMState, pay: nat, sale: Sale)
    requires Adjusted(t) && SellBaseToken(t, pay) == Success(sale) && Near(t.baseDecimal, t.quoteDecimal)
    ensures BaseSalePays(t, pay, sale)
  {
    var bd, qd := t.baseDecimal, t.quoteDecimal;
    AdjustIsRescaleIff(bd, qd);
    if t.r != AboveOne {
      TradePaysAbout(t.q0, if t.r == One then t.q0 else t.q, Rescaled(pay, bd, qd), t.i, t.k);
    } else if t.b + pay < t.b0 {
      ClampedEarnsAbout(Rescaled(t.b0, bd, qd), Rescaled(t.b, bd, qd), Rescaled(pay, bd, qd), t.q - t.q0, t.i, t.k);
    } else if t.b0 < t.b + pay {
      AdjustDecimalMono(bd, qd, t.b0 - t.b, pay);
      TradePaysAbout(t.q0, t.q0, Rescaled(pay, bd, qd) - Rescaled(t.b0 - t.b, bd, qd), t.i, t.k);
    }
  }

  /** sell_quote_token, likewise. */
  lemma QuoteSaleTwoSided(t: PMMState, pay: nat, j: nat, sale: Sale)
    requires Adjusted(t) && SellQuoteToken(t, pay) == Success(sale) && Near(t.baseDecimal, t.quoteDecimal)
    requires IsReciprocal(j, t.i)
    ensures QuoteSalePays(t, pay, j, sale)
  {
    var qd, bd := t.quoteDecimal, t.baseDecimal;
    AdjustIsRescaleIff(qd, bd);
    ReciprocalUnique(j, t.i);
    if t.r != BelowOne {
      TradePaysAbout(t.b0, if t.r == One then t.b0 else t.b, Rescaled(pay, qd, bd), j, t.k);
    } else if t.q + pay < t.q0 {
      ClampedEarnsAbout(Rescaled(t.q0, qd, bd), Rescaled(t.q, qd, bd), Rescaled(pay, qd, bd), t.b - t.b0, j, t.k);
    } else if t.b0 + pay != t.b {
      AdjustDecimalMono(qd, bd, t.q0 - t.q, pay);
      TradePaysAbout(t.b0, t.b0, Rescaled(pay, qd, bd) - Rescaled(t.q0 - t.q, qd, bd), j, t.k);
    }
  }

  /** What a sale of either kind into t must answer. */
  ghost predicate TradePays(t: PMMState, op: Op, sale: Sale)
    requires Adjusted(t)
  {
    match op
    case SellBase(pay) => BaseSalePays(t, pay, sale)
    case SellQuote(pay) => forall j: nat :: IsReciprocal(j, t.i) ==> QuoteSalePays(t, pay, j, sale)
  }

  lemma TradeTwoSided(t: PMMState, op: Op, sale: Sale)
    requires Adjusted(t) && Sell(t, op) == Success(sale) && Near(t.baseDecimal, t.quoteDecimal)
    ensures TradePays(t, op, sale)
  {
    match op
    case SellBase(pay) => BaseSaleTwoSided(t, pay, sale);
    case SellQuote(pay) =>
      forall j: nat | IsReciprocal(j, t.i)
        ensures QuoteSalePays(t, pay, j, sale)
      {
        QuoteSaleTwoSided(t, pay, j, sale);
      }
  }

  /** What a whole trade from s to e pays out, its targets having been adjusted to those of e. */
  ghost predicate StepPays(s: PMMState, op: Op, e: PMMState) {
    var t := s.(b0 := e.b0, q0 := e.q0);
    && Adjusted(t)
    && match op
       case SellBase(pay) => e.b == s.b + pay && e.q <= s.q && TradePays(t, op, Sale(s.q - e.q, e.r))
       case SellQuote(pay) => e.q == s.q + pay && e.b <= s.b && TradePays(t, op, Sale(s.b - e.b, e.r))
  }

  lemma StepTwoSided(s: PMMState, op: Op)
    requires Balanced(s)
    ensures Near(s.baseDecimal, s.quoteDecimal) && Step(s, op).Success? ==> StepPays(s, op, Step(s, op).value)
  {
    if Near(s.baseDecimal, s.quoteDecimal) && Step(s, op).Success? {
      AdjustKeeps(s);
      TargetsAlone(s);
      TradeTwoSided(AdjustedTarget(s).value, op, Sell(AdjustedTarget(s).value, op).value);
    }
  }

  lemma TargetsAlone(s: PMMState)
    ensures AdjustedTarget(s).Success? ==>
            AdjustedTarget(s).value == s.(b0 := AdjustedTarget(s).value.b0, q0 := AdjustedTarget(s).value.q0)
  {
  }

  /** The _v1 sales: as at equal decimals, where rescaling does nothing. */
  lemma SalesV1TwoSided(t: PMMState, pay: nat, j: nat)
    requires Adjusted(t) && IsReciprocal(j, t.i)
    ensures SellBaseTokenV1(t, pay).Success? ==>
            BaseSalePays(PmmV1.EqualDecimals(t), pay, SellBaseTokenV1(t, pay).value)
    ensures SellQuoteTokenV1(t, pay).Success? ==>
            QuoteSalePays(PmmV1.EqualDecimals(t), pay, j, SellQuoteTokenV1(t, pay).value)
    ensures forall amount :: Rescaled(amount, t.baseDecimal, t.baseDecimal) == amount
  {
    var e := PmmV1.EqualDecimals(t);
    forall amount
      ensures Rescaled(amount, t.baseDecimal, t.baseDecimal) == amount
    {
      RescaledSame(amount, t.baseDecimal);
    }
    EqualDecimalsSellBase(e, pay);
    EqualDecimalsSellQuote(e, pay);
    PmmV1.SellBaseIgnoresDecimals(t, t.baseDecimal, pay);
    PmmV1.SellQuoteIgnoresDecimals(t, t.baseDecimal, pay);
    if SellBaseToken(e, pay).Success? {
      BaseSaleTwoSided(e, pay, SellBaseToken(e, pay).value);
    }
    if SellQuoteToken(e, pay).Success? {
      QuoteSaleTwoSided(e, pay, j, SellQuoteToken(e, pay).value);
    }
  }

  /** After adjusting, a partial _v1 sale is never cut off at the surplus: it earns the integral. */
  lemma PartialSalesV1Earn(t: PMMState, pay: nat, j: nat)
    requires PmmV1.IsAdjusted(t) && IsReciprocal(j, t.i)
    ensures t.r == AboveOne && t.b + pay < t.b0 ==>
            && SellBaseTokenV1(t, pay).Success?
            && IntegralAtLeast(t.b0, t.b, pay, t.i, t.k, SellBaseTokenV1(t, pay).value.receive)
    ensures t.r == BelowOne && t.q + pay < t.q0 ==>
            && SellQuoteTokenV1(t, pay).Success?
            && IntegralAtLeast(t.q0, t.q, pay, j, t.k, SellQuoteTokenV1(t, pay).value.receive)
  {
    ReciprocalUnique(j, t.i);
    PmmV1.ClampsNeverFire(t, pay);
    if t.r == AboveOne && t.b + pay < t.b0 {
      PartialEarnsAbout(t.b0, t.b, pay, t.i, t.k);
    } else if t.r == BelowOne && t.q + pay < t.q0 {
      PartialEarnsAbout(t.q0, t.q, pay, j, t.k);
    }
  }
}
