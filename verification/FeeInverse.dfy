/** The inverse fee: how much to send so that amount and fee together fit a full amount.
    Written separately from the ledger's own fee, in another file of the repository. */
module FeeInverse {
  import opened Checked
  import opened Arith
  import opened FixedPoint
  import opened Principals
  import opened TokenSpec

  /** The four fields of FeeInfo that the fee functions read. */
  datatype FeeInfo = FeeInfo(flatFee: bool, flatBurnFee: bool, feeRate: nat, burnRate: nat)

  datatype FeeError = FeeAboveAmount | BurnAboveAmount | NothingReceived

  /** get_fee_info of the ledger. */
  function FeeInfoOf(c: Config): FeeInfo {
    FeeInfo(c.flatFee, c.flatBurnFee, c.feeRate, c.burnRate)
  }

  function FlatPart(info: FeeInfo): nat {
    (if info.flatFee then info.feeRate else 0) + (if info.flatBurnFee then info.burnRate else 0)
  }

  function RatePart(info: FeeInfo): nat {
    (if info.flatFee then 0 else info.feeRate) + (if info.flatBurnFee then 0 else info.burnRate)
  }

  /** Flat fees come off the amount, rates divide it; nothing is left for flat fees that reach it. */
  function InverseFee(full: nat, info: FeeInfo): Result<nat, FeeError> {
    if info.flatFee && full <= info.feeRate then Failure(FeeAboveAmount)
    else if info.flatBurnFee && info.burnRate > 0 && full <= FlatPart(info) then Failure(BurnAboveAmount)
    else Success(DivFloor(full - FlatPart(info), ONE + RatePart(info)))
  }

  /** Nothing is left once the flat fee, or flat fee and flat burn together, take it all. */
  lemma InverseRefusals(full: nat, info: FeeInfo)
    ensures InverseFee(full, info) == Failure(FeeAboveAmount) <==> info.flatFee && full <= info.feeRate
    ensures InverseFee(full, info) == Failure(BurnAboveAmount) <==>
            && info.flatBurnFee && 0 < info.burnRate
            && if info.flatFee then info.feeRate < full <= info.feeRate + info.burnRate else full <= info.burnRate
    ensures InverseFee(full, info) != Failure(NothingReceived)
  {
  }

  /** cal_fee_with_full_amount; its panics are the failures. */
  method CalFeeWithFullAmount(fullAmount: nat, info: FeeInfo) returns (r: Result<nat, FeeError>)
    ensures r == InverseFee(fullAmount, info)
  {
    var molecular, denominator: nat := 0, 0;
    if info.flatFee {
      if fullAmount <= info.feeRate {
        return Failure(FeeAboveAmount);
      }
      molecular := fullAmount - info.feeRate;
      denominator := ONE;
    } else {
      molecular := fullAmount;
      denominator := ONE + info.feeRate;
    }
    if info.burnRate > 0 {
      if info.flatBurnFee {
        if molecular <= info.burnRate {
          return Failure(BurnAboveAmount);
        }
        molecular := molecular - info.burnRate;
      } else {
        denominator := denominator + info.burnRate;
      }
    }
    return Success(DivFloor(molecular, denominator));
  }

  /** getAmountWithoutFeeQuery for DIP20 and ICRC2 tokens: the same amount by way of the
      fee it leaves, whenever that amount is positive. */
  method GetAmountWithoutFeeQuery(amount: nat, info: FeeInfo) returns (r: Result<nat, FeeError>)
    ensures amount == 0 ==> r == Success(0)
    ensures amount > 0 ==>
            r == match InverseFee(amount, info)
                 case Failure(e) => Failure(e)
                 case Success(a) => if a > 0 then Success(a) else Failure(NothingReceived)
  {
    if amount == 0 {
      return Success(0);
    }
    InverseAtMostFull(amount, info);
    var molecular, denominator: nat := 0, 0;
    if info.flatFee {
      if amount <= info.feeRate {
        return Failure(FeeAboveAmount);
      }
      molecular := amount - info.feeRate;
      denominator := ONE;
    } else {
      molecular := amount;
      denominator := ONE + info.feeRate;
    }
    if info.burnRate > 0 {
      if info.flatBurnFee {
        if molecular <= info.burnRate {
          return Failure(BurnAboveAmount);
        }
        molecular := molecular - info.burnRate;
      } else {
        denominator := denominator + info.burnRate;
      }
    }
    var actualAmount := DivFloor(molecular, denominator);
    var fee: nat := amount - actualAmount;
    if amount <= fee {
      return Failure(NothingReceived);
    }
    return Success(amount - fee);
  }

  lemma InverseAtMostFull(full: nat, info: FeeInfo)
    ensures InverseFee(full, info).Success? ==> InverseFee(full, info).value <= full
  {
    if InverseFee(full, info).Success? {
      var a, d := InverseFee(full, info).value, ONE + RatePart(info);
      DivBounds((full - FlatPart(info)) * ONE, d);
      MulMono(ONE, d, a);
      MulCancel(a, full, ONE);
    }
  }

  /** a + the rate fees on a fit exactly when the unrounded ones nearly do. */
  lemma RateFeeBounds(x: nat, fee: nat, burn: nat)
    ensures (x + MulFloor(fee, x) + MulFloor(burn, x)) * ONE <= x * (ONE + (fee + burn))
          < (x + MulFloor(fee, x) + MulFloor(burn, x)) * ONE + 2 * ONE - 1
  {
    DivBounds(fee * x, ONE);
    DivBounds(burn * x, ONE);
    assert x * (ONE + (fee + burn)) == x * ONE + fee * x + burn * x;
  }

  /** The ledger's whole cost of sending x, in one formula for the four fee schemes. */
  lemma CostForm(c: Config, x: nat)
    requires c.burnOn
    ensures var info := FeeInfoOf(c);
      x + CalFee(c, x) == FlatPart(info) + (x + MulFloor(if c.flatFee then 0 else c.feeRate, x)
                                              + MulFloor(if c.flatBurnFee then 0 else c.burnRate, x))
  {
    DivUnique(0, ONE, 0);
  }

  /** Fee inversion: the amount found and the ledger's fee on it fit the full amount, for
      every combination of flat and rate fees, whether or not the burn is switched on. */
  lemma InverseFits(full: nat, c: Config)
    requires InverseFee(full, FeeInfoOf(c)).Success?
    ensures var a := InverseFee(full, FeeInfoOf(c)).value; a + CalFee(c, a) <= full
  {
    var on, info := c.(burnOn := true), FeeInfoOf(c);
    var a, d := InverseFee(full, info).value, ONE + RatePart(info);
    CostForm(on, a);
    assert CalFee(c, a) <= CalFee(on, a);
    DivBounds((full - FlatPart(info)) * ONE, d);
    RateFeeBounds(a, if c.flatFee then 0 else c.feeRate, if c.flatBurnFee then 0 else c.burnRate);
    FitsFloor(ONE, d, full - FlatPart(info), a, a + CalFee(on, a) - FlatPart(info));
  }

  lemma FitsFloor(s: nat, d: nat, m: nat, a: nat, cost: int)
    requires 0 < s && cost * s <= a * d && d * a <= m * s
    ensures cost <= m
  {
    MulCancel(cost, m, s);
  }

  /** A configured burn is switched on, as the inverse assumes without looking at the switch. */
  predicate BurnAgrees(c: Config) {
    c.burnRate > 0 ==> c.burnOn
  }

  /** x d is below (m + 2) in 18 decimals and a = m / d rounded down, so x is at most a + 2. */
  lemma NearFloor(s: nat, d: nat, m: nat, a: nat, cost: nat, x: nat)
    requires 0 < s <= d && cost <= m
    requires x * d < cost * s + 2 * s - 1
    requires m * s < d * a + d
    ensures x <= a + 2
  {
    MulMono(cost, m, s);
    assert d * (a + 3) == d * a + d + 2 * d;
    MulStrictCancel(x, a + 3, d);
  }

  /** ... and no affordable amount is more than two units larger; where the inverse
      fails, nothing positive is affordable. */
  lemma InverseNearlyLargest(full: nat, c: Config, x: nat)
    requires BurnAgrees(c) && x + CalFee(c, x) <= full
    ensures match InverseFee(full, FeeInfoOf(c))
            case Success(a) => x <= a + 2
            case Failure(_) => x == 0
  {
    var on, info := c.(burnOn := true), FeeInfoOf(c);
    CostForm(on, x);
    BurnOffIsFree(c, x);
    var f, b := if c.flatFee then 0 else c.feeRate, if c.flatBurnFee then 0 else c.burnRate;
    if InverseFee(full, info).Success? {
      var a, d, m: nat := InverseFee(full, info).value, ONE + RatePart(info), full - FlatPart(info);
      DivBounds(m * ONE, d);
      RateFeeBounds(x, f, b);
      NearFloor(ONE, d, m, a, x + MulFloor(f, x) + MulFloor(b, x), x);
    }
  }

  /** With the switch off the ledger charges as if no burn were configured ... */
  lemma BurnOffCost(c: Config, x: nat)
    requires !c.burnOn
    ensures CalFee(c, x) == CalFee(c.(burnRate := 0), x)
  {
  }

  /** ... so the largest affordable amount is, within two units, the inverse without the burn,
      for every fee scheme; the inverse as written falls short of that one, and by exactly the
      burn when both fees are flat. */
  lemma BurnOffGap(full: nat, c: Config, x: nat)
    requires !c.burnOn
    ensures match InverseFee(full, FeeInfoOf(c.(burnRate := 0)))
            case Success(a0) =>
              && a0 + CalFee(c, a0) <= full
              && (x + CalFee(c, x) <= full ==> x <= a0 + 2)
            case Failure(_) => x + CalFee(c, x) <= full ==> x == 0
    ensures InverseFee(full, FeeInfoOf(c)).Success? ==>
            && InverseFee(full, FeeInfoOf(c.(burnRate := 0))).Success?
            && var a, a0 := InverseFee(full, FeeInfoOf(c)).value, InverseFee(full, FeeInfoOf(c.(burnRate := 0))).value;
               a <= a0 && (c.flatFee && c.flatBurnFee ==> a0 == a + c.burnRate)
  {
    var free := c.(burnRate := 0);
    BurnOffCost(c, x);
    if InverseFee(full, FeeInfoOf(free)).Success? {
      InverseFits(full, free);
      BurnOffCost(c, InverseFee(full, FeeInfoOf(free)).value);
    }
    if x + CalFee(c, x) <= full {
      InverseNearlyLargest(full, free, x);
    }
    if InverseFee(full, FeeInfoOf(c)).Success? {
      BurnLowersInverse(full, c);
    }
  }

  lemma BurnLowersInverse(full: nat, c: Config)
    requires InverseFee(full, FeeInfoOf(c)).Success?
    ensures InverseFee(full, FeeInfoOf(c.(burnRate := 0))).Success?
    ensures var a, a0 := InverseFee(full, FeeInfoOf(c)).value, InverseFee(full, FeeInfoOf(c.(burnRate := 0))).value;
      a <= a0 && (c.flatFee && c.flatBurnFee ==> a0 == a + c.burnRate)
  {
    var info, free := FeeInfoOf(c), FeeInfoOf(c.(burnRate := 0));
    FloorRatioMono((full - FlatPart(info)) * ONE, ONE + RatePart(info),
                   (full - FlatPart(free)) * ONE, ONE + RatePart(free));
    if c.flatFee && c.flatBurnFee {
      DivUnique((full - FlatPart(info)) * ONE, ONE, full - FlatPart(info));
      DivUnique((full - FlatPart(free)) * ONE, ONE, full - FlatPart(free));
    }
  }

  lemma FloorRatioMono(m: nat, d: nat, m': nat, d': nat)
    requires 0 < d' <= d && m <= m'
    ensures m / d <= m' / d'
  {
    var q := m / d;
    DivBounds(m, d);
    MulMono(d', d, q);
    DivGreatest(m', d', q);
  }

  lemma BurnOffIsFree(c: Config, x: nat)
    requires BurnAgrees(c)
    ensures CalFee(c, x) == CalFee(c.(burnOn := true), x)
  {
    DivUnique(0, ONE, 0);
  }

  lemma MulStrictCancel(x: int, y: int, d: int)
    requires x * d < d * y && 0 < d
    ensures x < y
  {
    if y <= x {
      MulMono(y, x, d);
    }
  }

  /** Sending the amount found succeeds from any account that holds the full amount. */
  lemma TransferOfInverseSucceeds(full: nat, c: Config, l: Ledger, caller: Principal, to: Principal)
    requires InverseFee(full, FeeInfoOf(c)).Success? && full <= Get(l.balances, caller)
    ensures Answer(c, l, Transfer(caller, to, InverseFee(full, FeeInfoOf(c)).value)) == Success(())
  {
    InverseFits(full, c);
  }
}
