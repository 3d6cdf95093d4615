/** How far adjusting may lower a target. A sale keeps the reserves on the curve of the old
    target, up to the slack of the trade solver, so that solving for the target again
    loses no more than the solver's own rounding allowance. */
module TargetDrift {
  import opened Checked
  import opened Arith
  import opened FixedPoint
  import opened TargetSolver
  import opened TradeSolver
  import TradeTheorems
  import opened TradePrice
  import opened TradeCurve
  import Integral
  import opened Pmm
  import opened PmmRuns
  import opened PmmV1

  // ----- the target solver finds nearly the largest target

  /** No target under the curve is above the solver's by more than the rounding allowance;
      without a slope, none is above it at all. */
  lemma TargetNearlyLargest(n: nat, r: nat, delta: nat, i: nat, k: nat)
    requires 0 < r && UnderCurve(n, r, delta, i, k) && k <= ONE
    ensures SolveTarget(r, delta, i, k).Success?
    ensures var target := SolveTarget(r, delta, i, k).value;
      if k == 0 then n <= target
      else 2 * k * ONE * (n - target) < 2 * k * ONE + 2 * k * r + ONE * r
  {
    TargetBracket(r, delta, i, k);
    var target := SolveTarget(r, delta, i, k).value;
    CurveForm(ONE, k, r, n - r);
    if k == 0 {
      FlatLargest(ONE, n, r, target, i * delta);
    } else {
      SlopedLargest(ONE, k, n, r, target, i * delta);
    }
  }

  lemma FlatLargest(s: nat, n: nat, r: nat, target: nat, x: nat)
    requires 0 < r <= n && (n - r) * (s * r) <= x * r && x < (target - r + 1) * s
    ensures n <= target
  {
    LineFromCurve(s, 0, r, x, n - r);
    if target < n {
      MulMono(target - r + 1, n - r, s);
    }
  }

  lemma SlopedLargest(s: nat, k: nat, n: nat, r: nat, target: nat, x: nat)
    requires r <= n && r <= target && (n - r) * (s * r + k * (n - r)) <= x * r
    requires var z := 2 * k * s * (target - r) + (2 * k * s + 2 * k * r + s * r);
      4 * k * s * s * (x * r) < z * (z + 2 * s * s * r)
    ensures 2 * k * s * (n - target) < 2 * k * s + 2 * k * r + s * r
  {
    var z, far := 2 * k * s * (target - r) + (2 * k * s + 2 * k * r + s * r), 2 * k * s * (n - r);
    DistanceTerms(2 * k * s, n, target, r);
    if z <= far {
      QuadraticMono(z, far, 2 * s * s * r);
      FarTerms(s, k, r, n - r);
      MulMono((n - r) * (s * r + k * (n - r)), x * r, 4 * k * s * s);
    }
  }

  lemma DistanceTerms(c: nat, n: int, target: int, r: int)
    ensures c * (n - r) - c * (target - r) == c * (n - target)
  {
  }

  lemma FarTerms(s: nat, k: nat, r: nat, g: nat)
    ensures (2 * k * s * g) * (2 * k * s * g + 2 * s * s * r) == (g * (s * r + k * g)) * (4 * k * s * s)
  {
  }

  // ----- moving along the curve

  /** Paying it out keeps the reserves under the curve, with no rounding at all. */
  lemma PayoutStaysUnder(n: nat, q: nat, p: nat, d: nat, delta: nat, i: nat, k: nat)
    requires 0 < q <= n && UnderCurve(n, q, d, i, k)
    requires p < q && OnCurve(n, q, p, i * delta, k)
    ensures UnderCurve(n, q - p, d + delta, i, k)
  {
    var r := q - p;
    MulMono((n - q) * ((ONE - k) * q + k * n), i * d * q, r);
    PayoutTerms(ONE - k, k, n, q, r);
    PayoutWorth(q, r, i, d, delta);
    MulCancel((n - r) * ((ONE - k) * r + k * n), i * (d + delta) * r, q);
  }

  lemma PayoutTerms(a: nat, k: nat, n: int, q: int, r: int)
    ensures ((n - q) * (a * q + k * n)) * r + (q - r) * (a * (r * q) + k * (n * n)) == ((n - r) * (a * r + k * n)) * q
  {
  }

  lemma PayoutWorth(q: int, r: int, i: nat, d: nat, delta: nat)
    ensures (i * d * q) * r + (r * q) * (i * delta) == (i * (d + delta) * r) * q
  {
  }

  /** The curve allows the same target at a larger reserve and surplus. */
  lemma LargerReserveStaysUnder(n: nat, r: nat, r': nat, d: nat, d': nat, i: nat, k: nat)
    requires 0 < r <= r' <= n && d <= d' && k <= ONE && UnderCurve(n, r, d, i, k)
    ensures UnderCurve(n, r', d', i, k)
  {
    MulMono((n - r) * ((ONE - k) * r + k * n), i * d * r, r');
    MulMono(d, d', i * (r * r'));
    WorthTerms(i, d, r, r');
    WorthTerms(i, d', r', r);
    LargerReserve(ONE - k, k, n, r, r');
    MulCancel((n - r') * ((ONE - k) * r' + k * n), i * d' * r', r);
  }

  lemma WorthTerms(i: nat, d: nat, r: nat, r': nat)
    ensures (i * d * r) * r' == d * (i * (r * r'))
  {
  }

  lemma LargerReserve(a: nat, k: nat, n: nat, r: nat, r': nat)
    requires r <= r' <= n
    ensures ((n - r') * (a * r' + k * n)) * r <= ((n - r) * (a * r + k * n)) * r'
  {
    GapTerms(a, k, n, n - r', r', r);
    GapTerms(a, k, n, n - r, r, r');
    MulMono(n - r', n - r, a * (r * r'));
    MulMono2(n - r', n - r, r, r');
    MulMono((n - r') * r, (n - r) * r', k * n);
  }

  lemma GapTerms(a: nat, k: nat, n: nat, g: nat, r: nat, r': nat)
    ensures (g * (a * r + k * n)) * r' == g * (a * (r * r')) + (g * r') * (k * n)
  {
  }

  /** At a smaller reserve r the curve allows a target smaller in the same proportion. */
  lemma ScaledStaysUnder(n: nat, m: nat, r: nat, d: nat, i: nat, k: nat)
    requires 0 < r <= m <= n && k <= ONE && UnderCurve(n, m, d, i, k)
    ensures UnderCurve(Quotient(n * r, m), r, d, i, k)
  {
    var v := Quotient(n * r, m);
    DivBounds(n * r, m);
    MulMono(m, n, r);
    DivGreatest(n * r, m, r);
    ScaledGap(ONE - k, k, n, m, r, v);
    var worth := i * d;
    ScaledWorth((v - r) * ((ONE - k) * r + k * v), (n - m) * ((ONE - k) * m + k * n), worth, m, r);
  }

  lemma ScaledWorth(y: int, z: int, x: nat, m: nat, r: nat)
    requires 0 < r <= m && z <= x * m && y * (m * m) <= z * (r * r)
    ensures y <= x * r
  {
    MulMono(z, x * m, r * r);
    MulMono(r, m, x * (r * m));
    ScaledWorthTerms(x, m, r);
    MulStrict(0, m, m);
    MulCancel(y, x * r, m * m);
  }

  lemma ScaledWorthTerms(x: nat, m: nat, r: nat)
    ensures (x * m) * (r * r) == r * (x * (r * m))
    ensures (x * r) * (m * m) == m * (x * (r * m))
  {
  }

  lemma ScaledGap(a: nat, k: nat, n: nat, m: nat, r: nat, v: nat)
    requires r <= v && m <= n && v * m <= n * r
    ensures ((v - r) * (a * r + k * v)) * (m * m) <= ((n - m) * (a * m + k * n)) * (r * r)
  {
    ScaledMean(a, k, n, m, r, v);
    assert (v - r) * m <= (n - m) * r;
    ScaledProduct(v - r, n - m, a * r + k * v, a * m + k * n, m, r);
  }

  lemma ScaledMean(a: nat, k: nat, n: nat, m: nat, r: nat, v: nat)
    requires v * m <= n * r
    ensures (a * r + k * v) * m <= (a * m + k * n) * r
  {
    MulMono(v * m, n * r, k);
    ScaledFactors(a, k, n, m, r, v);
  }

  lemma ScaledProduct(g: nat, h: nat, y: nat, z: nat, m: nat, r: nat)
    requires g * m <= h * r && y * m <= z * r
    ensures (g * y) * (m * m) <= (h * z) * (r * r)
  {
    MulMono2(g * m, h * r, y * m, z * r);
    SquareTerms(g, y, m);
    SquareTerms(h, z, r);
  }

  lemma ScaledFactors(a: nat, k: nat, n: nat, m: nat, r: nat, v: nat)
    ensures (a * r + k * v) * m == a * (r * m) + (v * m) * k
    ensures (a * m + k * n) * r == a * (r * m) + (n * r) * k
  {
  }

  lemma SquareTerms(g: int, y: int, m: nat)
    ensures (g * m) * (y * m) == (g * y) * (m * m)
  {
  }

  // ----- how far the target moves

  /** target is no lower than n r / (r + slack), but for the target solver's own roundings. */
  ghost predicate TargetKept(n: nat, target: nat, r: nat, slack: nat, k: nat)
    requires 0 < r
  {
    var kept := Quotient(n * r, r + slack);
    if k == 0 then kept <= target
    else 2 * k * ONE * (kept - target) < 2 * k * ONE + 2 * k * r + ONE * r
  }

  /** Reserves within the slack of a point under the curve of n lead back to nearly n. */
  lemma CurveKeepsTarget(n: nat, m: nat, d: nat, r: nat, d': nat, slack: nat, i: nat, k: nat)
    requires 0 < m && k <= ONE && UnderCurve(n, m, d, i, k)
    requires 0 < r && m <= r + slack && d <= d'
    ensures SolveTarget(r, d', i, k).Success?
    ensures TargetKept(n, SolveTarget(r, d', i, k).value, r, slack, k)
  {
    TargetBracket(r, d', i, k);
    if r + slack <= n {
      LargerReserveStaysUnder(n, m, r + slack, d, d', i, k);
      ScaledStaysUnder(n, r + slack, r, d', i, k);
      TargetNearlyLargest(Quotient(n * r, r + slack), r, d', i, k);
    } else {
      KeptBelowReserve(n, r, slack);
      if k > 0 {
        NothingLost(Quotient(n * r, r + slack), SolveTarget(r, d', i, k).value, r, k);
      }
    }
  }

  lemma KeptBelowReserve(n: nat, r: nat, slack: nat)
    requires 0 < r && n < r + slack
    ensures Quotient(n * r, r + slack) <= r
  {
    MulMono(n, r + slack, r);
    DivMono(n * r, (r + slack) * r, r + slack);
    DivUnique((r + slack) * r, r + slack, r);
  }

  lemma NothingLost(kept: nat, target: nat, r: nat, k: nat)
    requires kept <= target && 0 < k
    ensures 2 * k * ONE * (kept - target) < 2 * k * ONE + 2 * k * r + ONE * r
  {
    MulMono(kept - target, 0, 2 * k * ONE);
    MulMono(0, r, 2 * k);
  }

  /** A trade away from the target n, for every slope: the reserve it leaves, and the surplus
      it makes, lead back to n up to the slack. */
  lemma TradeKeepsTarget(n: nat, q: nat, d: nat, delta: nat, r: nat, d': nat, i: nat, k: nat)
    requires 0 < q && k <= ONE && UnderCurve(n, q, d, i, k)
    requires SolveTrade(n, q, delta, i, k).Success?
    requires 0 < r && q <= r + SolveTrade(n, q, delta, i, k).value && d + delta <= d'
    ensures SolveTarget(r, d', i, k).Success?
    ensures TargetKept(n, SolveTarget(r, d', i, k).value, r, SlackOf(k), k)
  {
    var paid := SolveTrade(n, q, delta, i, k).value;
    SolveTradeTraps(n, q, delta, i, k);
    if paid < SlackOf(k) {
      CurveKeepsTarget(n, q, d, r, d', SlackOf(k), i, k);
    } else {
      TradeOnCurve(n, q, delta, i, k, paid - SlackOf(k));
      var p := if paid == q + SlackOf(k) then q - 1 else paid - SlackOf(k);
      if paid == q + SlackOf(k) {
        AllButOneOnCurve(n, q, delta, i, k);
      }
      PayoutStaysUnder(n, q, p, d, delta, i, k);
      CurveKeepsTarget(n, q - p, d + delta, r, d', SlackOf(k), i, k);
    }
  }

  /** Only a curve without slope pays out the whole reserve with no slack. */
  lemma AllButOneOnCurve(n: nat, q: nat, delta: nat, i: nat, k: nat)
    requires 0 < q <= n && k <= ONE
    requires SolveTrade(n, q, delta, i, k).Success? && SolveTrade(n, q, delta, i, k).value == q + SlackOf(k)
    ensures OnCurve(n, q, q - 1, i * delta, k)
  {
    SolveTradeTraps(n, q, delta, i, k);
    SteepSaleBelow(n, q, delta, i);
    if 0 < k < ONE {
      SlackEnough(k);
    }
    TradeTheorems.FlatBracket(n, q, delta, i);
    FlatOnCurve(n, q, q - 1, i * delta);
  }

  /** A slope-one trade lowers its target by less than one unit and 3/2 of the reserve left,
      that reserve taken at 18 decimals. */
  lemma SteepTargetDrift(n: nat, q: nat, d: nat, delta: nat, i: nat)
    requires 0 < q && UnderCurve(n, q, d, i, ONE)
    ensures SolveTrade(n, q, delta, i, ONE).Success? && SolveTrade(n, q, delta, i, ONE).value < q
    ensures var r: nat := q - SolveTrade(n, q, delta, i, ONE).value;
      && SolveTarget(r, d + delta, i, ONE).Success?
      && 2 * ONE * (n - SolveTarget(r, d + delta, i, ONE).value) < 2 * ONE + 3 * r
  {
    SteepSaleBelow(n, q, delta, i);
    var r: nat := q - SolveTrade(n, q, delta, i, ONE).value;
    TradeKeepsTarget(n, q, d, delta, r, d + delta, i, ONE);
    DivUnique(n * r, r, n);
  }

  // ----- sales towards the target

  /** A partial sale from reserve v up to w takes no more off the surplus than the curve
      allows, for every slope: the rounded integral is at most the move along it. */
  lemma PartialSaleStaysUnder(n: nat, v: nat, w: nat, d: nat, x: nat, y: nat, k: nat)
    requires 0 < v <= w <= n && k <= ONE && x * y <= ONE2 && UnderCurve(n, v, d, x, k)
    requires Integral.GeneralIntegrate(n, w, v, y, k).Success?
    requires Integral.GeneralIntegrate(n, w, v, y, k).value <= d
    ensures UnderCurve(n, w, d - Integral.GeneralIntegrate(n, w, v, y, k).value, x, k)
  {
    var paid, rate := Integral.GeneralIntegrate(n, w, v, y, k).value, ONE - k + Integral.Penalty(n, w, v, k);
    Integral.IntegrateForm(n, w, v, y, k);
    Integral.PenaltyBounds(n, w, v, k);
    DivBounds(rate * (y * (w - v)), ONE2);
    PaidWorth(ONE2, x, y, paid, rate, w - v);
    MulMono(x * paid, rate * (w - v), w * v);
    MulMono(Integral.Penalty(n, w, v, k) * (w * v), k * (n * n), w - v);
    MulMono((n - v) * ((ONE - k) * v + k * n), x * d * v, w);
    MoveTerms(ONE - k, k, n, v, w);
    MoveWorth(ONE - k, x, d, paid, Integral.Penalty(n, w, v, k), v, w);
    MulCancel((n - w) * ((ONE - k) * w + k * n), x * (d - paid) * w, v);
  }

  lemma PaidWorth(s2: nat, x: nat, y: nat, paid: nat, rate: nat, moved: nat)
    requires 0 < s2 && x * y <= s2 && s2 * paid <= rate * (y * moved)
    ensures x * paid <= rate * moved
  {
    MulMono(s2 * paid, rate * (y * moved), x);
    MulMono(x * y, s2, rate * moved);
    PaidTerms(s2, x, y, paid, rate, moved);
    MulCancel(x * paid, rate * moved, s2);
  }

  lemma PaidTerms(s2: nat, x: nat, y: nat, paid: nat, rate: nat, moved: nat)
    ensures (s2 * paid) * x == (x * paid) * s2
    ensures (rate * (y * moved)) * x == (x * y) * (rate * moved)
    ensures s2 * (rate * moved) == (rate * moved) * s2
  {
  }

  /** Moving from v to w along the curve of n, term by term. */
  lemma MoveTerms(a: nat, k: nat, n: int, v: int, w: int)
    ensures ((n - w) * (a * w + k * n)) * v
         == ((n - v) * (a * v + k * n)) * w - (a * (w * v) * (w - v) + (k * (n * n)) * (w - v))
  {
  }

  lemma MoveWorth(a: nat, x: nat, d: int, paid: int, pen: nat, v: int, w: int)
    ensures (x * (d - paid) * w) * v == (x * d * v) * w - (x * paid) * (w * v)
    ensures ((a + pen) * (w - v)) * (w * v) == a * (w * v) * (w - v) + (pen * (w * v)) * (w - v)
  {
  }

  /** What a sale back towards the target leaves leads back to that target. */
  lemma PartialSaleKeepsTarget(n: nat, v: nat, w: nat, d: nat, x: nat, y: nat, k: nat)
    requires 0 < v <= w <= n && k <= ONE && x * y <= ONE2 && UnderCurve(n, v, d, x, k)
    requires Integral.GeneralIntegrate(n, w, v, y, k).Success?
    requires Integral.GeneralIntegrate(n, w, v, y, k).value <= d
    ensures var left: nat := d - Integral.GeneralIntegrate(n, w, v, y, k).value;
      && SolveTarget(w, left, x, k).Success?
      && TargetKept(n, SolveTarget(w, left, x, k).value, w, 0, k)
  {
    var left: nat := d - Integral.GeneralIntegrate(n, w, v, y, k).value;
    PartialSaleStaysUnder(n, v, w, d, x, y, k);
    CurveKeepsTarget(n, w, left, w, left, 0, x, k);
  }

  // ----- every trade of the _v1 operations

  /** A sale towards the target has no slack. */
  function SlackOfSale(op: Op, r: RState, k: nat): nat {
    if op.SellBase? == r.AboveOne? then 0 else SlackOf(k)
  }

  /** u adjusts the targets of s, and neither is much below where t had it. */
  ghost predicate TargetsKept(t: PMMState, op: Op, s: PMMState, u: PMMState) {
    match s.r
    case One => u == s && u.b0 == t.b0 && u.q0 == t.q0
    case BelowOne => u.b0 == t.b0 && 0 < s.q && TargetKept(t.q0, u.q0, s.q, SlackOfSale(op, s.r, t.k), t.k)
    case AboveOne => u.q0 == t.q0 && 0 < s.b && TargetKept(t.b0, u.b0, s.b, SlackOfSale(op, s.r, t.k), t.k)
  }

  /** However a trade of an adjusted pool ends, adjusting again keeps both targets, the short
      side's up to the slack and the roundings, unless the trade emptied a reserve. */
  lemma TradeThenAdjust(t: PMMState, op: Op)
    requires IsAdjusted(t)
    ensures StepV1(t, op).Success?
    ensures var s := StepV1(t, op).value;
      0 < s.b && 0 < s.q ==>
      AdjustedTargetV1(s).Success? && TargetsKept(t, op, s, AdjustedTargetV1(s).value)
  {
    StepV1Positive(t, op);
    AdjustV1Traps(t);
    match op
    case SellBase(pay) => BaseSaleThenAdjust(t, pay);
    case SellQuote(pay) => QuoteSaleThenAdjust(t, pay);
  }

  lemma BaseSaleThenAdjust(t: PMMState, pay: nat)
    requires IsAdjusted(t) && Adjusted(t) && StepV1(t, SellBase(pay)).Success?
    ensures var s := StepV1(t, SellBase(pay)).value;
      0 < s.b && 0 < s.q ==>
      AdjustedTargetV1(s).Success? && TargetsKept(t, SellBase(pay), s, AdjustedTargetV1(s).value)
  {
    var s := StepV1(t, SellBase(pay)).value;
    if t.r == AboveOne && t.b + pay < t.b0 {
      BaseSaleBackThenAdjust(t, pay);
    } else if s.r == BelowOne && 0 < s.q {
      if t.r == BelowOne {
        TargetBracket(t.q, t.b - t.b0, t.i, t.k);
        TradeKeepsTarget(t.q0, t.q, t.b - t.b0, pay, s.q, s.b - s.b0, t.i, t.k);
      } else {
        TradeKeepsTarget(t.q0, t.q0, 0, Excess(t, SellBase(pay)), s.q, s.b - s.b0, t.i, t.k);
      }
    }
  }

  lemma BaseSaleBackThenAdjust(t: PMMState, pay: nat)
    requires IsAdjusted(t) && Adjusted(t) && t.r == AboveOne && t.b + pay < t.b0
    ensures StepV1(t, SellBase(pay)).Success?
    ensures var s := StepV1(t, SellBase(pay)).value;
      AdjustedTargetV1(s).Success? && TargetsKept(t, SellBase(pay), s, AdjustedTargetV1(s).value)
  {
    var j := ReciprocalFloor(t.i).value;
    ReciprocalBound(t.i);
    ClampsNeverFire(t, pay);
    TargetBracket(t.b, t.q - t.q0, j, t.k);
    PartialSaleKeepsTarget(t.b0, t.b, t.b + pay, t.q - t.q0, j, t.i, t.k);
  }

  lemma QuoteSaleThenAdjust(t: PMMState, pay: nat)
    requires IsAdjusted(t) && Adjusted(t) && StepV1(t, SellQuote(pay)).Success?
    ensures var s := StepV1(t, SellQuote(pay)).value;
      0 < s.b && 0 < s.q ==>
      AdjustedTargetV1(s).Success? && TargetsKept(t, SellQuote(pay), s, AdjustedTargetV1(s).value)
  {
    var s, j := StepV1(t, SellQuote(pay)).value, ReciprocalFloor(t.i).value;
    if t.r == BelowOne && t.q + pay < t.q0 {
      QuoteSaleBackThenAdjust(t, pay);
    } else if s.r == AboveOne && 0 < s.b {
      if t.r == AboveOne {
        TargetBracket(t.b, t.q - t.q0, j, t.k);
        TradeKeepsTarget(t.b0, t.b, t.q - t.q0, pay, s.b, s.q - s.q0, j, t.k);
      } else {
        TradeKeepsTarget(t.b0, t.b0, 0, Excess(t, SellQuote(pay)), s.b, s.q - s.q0, j, t.k);
      }
    }
  }

  lemma QuoteSaleBackThenAdjust(t: PMMState, pay: nat)
    requires IsAdjusted(t) && Adjusted(t) && t.r == BelowOne && t.q + pay < t.q0
    ensures StepV1(t, SellQuote(pay)).Success?
    ensures var s := StepV1(t, SellQuote(pay)).value;
      AdjustedTargetV1(s).Success? && TargetsKept(t, SellQuote(pay), s, AdjustedTargetV1(s).value)
  {
    var j := ReciprocalFloor(t.i).value;
    ReciprocalBound(t.i);
    ClampsNeverFire(t, pay);
    TargetBracket(t.q, t.b - t.b0, t.i, t.k);
    PartialSaleKeepsTarget(t.q0, t.q, t.q + pay, t.b - t.b0, t.i, j, t.k);
  }

  /** Every state of the run has positive reserves. */
  ghost predicate StaysPositive(s: PMMState, ops: seq<Op>)
    decreases |ops|
  {
    Positive(s) && (ops == [] || match StepV1(s, ops[0])
                                 case Success(t) => StaysPositive(t, ops[1..])
                                 case Failure(_) => false)
  }

  /** Without a slope the targets never fall, over every run that empties no reserve. */
  lemma {:induction false} FlatRunKeepsTargets(s: PMMState, ops: seq<Op>)
    requires s.k == 0 && StaysPositive(s, ops)
    ensures AdjustedTargetV1(s).Success?
    ensures RunV1(s, ops).Success? && AdjustedTargetV1(RunV1(s, ops).value).Success?
    ensures var t, u := AdjustedTargetV1(s).value, AdjustedTargetV1(RunV1(s, ops).value).value;
      t.b0 <= u.b0 && t.q0 <= u.q0
    decreases |ops|
  {
    AdjustingSettles(s);
    if ops != [] {
      var t, next := AdjustedTargetV1(s).value, StepV1(s, ops[0]).value;
      AdjustV1Traps(s);
      TradeThenAdjust(t, ops[0]);
      FlatTargetsKept(t, ops[0], next, AdjustedTargetV1(next).value);
      StepV1Keeps(s, ops[0]);
      FlatRunKeepsTargets(next, ops[1..]);
    }
  }

  lemma FlatTargetsKept(t: PMMState, op: Op, s: PMMState, u: PMMState)
    requires t.k == 0 && StepV1(t, op) == Success(s) && TargetsKept(t, op, s, u) && IsAdjusted(t)
    ensures t.b0 <= u.b0 && t.q0 <= u.q0
  {
    match s.r
    case One =>
    case BelowOne => DivUnique(t.q0 * s.q, s.q, t.q0);
    case AboveOne => DivUnique(t.b0 * s.b, s.b, t.b0);
  }

  // ----- adjusting between sales breaks the round trip

  /** Two quote per base and almost no slope, at its targets. */
  const LEVEL1000: PMMState := PMMState(2 * ONE, 1, 1000, 1000, 1000, 1000, One, 8, 8)

  /** A payment worth c is paid in full from 1000 of 1000. */
  lemma WorthIsPaid(delta: nat, i: nat, c: nat)
    requires i * delta == c * ONE && 0 < delta && 0 < c < 900
    ensures SolveTrade(1000, 1000, delta, i, 1) == Success(c)
  {
    SlopedForm(1000, 1000, delta, i, 1);
    assert Discriminant(1000, 1) == 0;
    WorthB(delta, i, c);
    WorthRoot(999 - c);
    TradeTheorems.CeilUnique(2 * (999 - c) * ONE, (ONE - 1) * 2, 1000 - c);
  }

  lemma WorthB(delta: nat, i: nat, c: nat)
    requires i * delta == c * ONE && 0 < c < 900
    ensures SignedB(1000, 1000, delta, i, 1) == c - 999
  {
    DivUnique(1000, 1000, 1);
    assert Part2(1000, 1000, delta, i, 1) == 1000 + c * ONE;
    DivUnique(1000 * ONE - c * ONE - 2000, ONE, 999 - c);
  }

  lemma WorthRoot(m: nat)
    ensures Numerator(0 - m, 0) == 2 * m
  {
    TradeTheorems.CompleteSquare(2 * m, 0 - m);
    TradeTheorems.CompleteSquare(2 * m + 1, 0 - m);
    TradeTheorems.NumeratorUnique(2 * m, 0 - m, 0);
  }

  /** Selling 50 base takes 100 quote. Adjusting then floors the quote target to 900, so
      that paying the 100 quote back crosses it and takes 100 base for 50. */
  lemma AdjustingBreaksRoundTrip()
    ensures var m := RunV1(LEVEL1000, [SellBase(50)]);
      m.Success? && m.value.b == 1050 && m.value.q == 900
    ensures RunV1(LEVEL1000, [SellBase(50), SellQuote(100)])
         == Success(LEVEL1000.(b := 950, q0 := 900, r := AboveOne))
  {
    var below := LEVEL1000.(b := 1050, q := 900, r := BelowOne);
    var end := LEVEL1000.(b := 950, q0 := 900, r := AboveOne);
    WorthIsPaid(50, 2 * ONE, 100);
    assert StepV1(LEVEL1000, SellBase(50)) == Success(below);
    FlooredTarget();
    assert AdjustedTargetV1(below) == Success(below.(q0 := 900));
    DivUnique(ONE2, 2 * ONE, ONE / 2);
    WorthIsPaid(100, ONE / 2, 50);
    assert StepV1(below, SellQuote(100)) == Success(end);
    assert [SellBase(50)][1..] == [] && [SellBase(50), SellQuote(100)][1..] == [SellQuote(100)];
    assert RunV1(below, []) == Success(below) && RunV1(end, []) == Success(end);
    assert [SellQuote(100)][1..] == [];
  }

  lemma FlooredTarget()
    ensures SolveTarget(900, 50, 2 * ONE, 1) == Success(900)
  {
    RootClosedForm(900, 50, 4 * 1 * (2 * ONE));
    var n := 4 * 1 * (2 * ONE) * 50 / 900 + ONE2;
    IsqrtLeast(n, ONE);
    RootAtLeastOne(4 * 1 * (2 * ONE) * 50 / 900);
    SolveTargetFromRoot(900, 50, 2 * ONE, 1, ONE);
    DivUnique(900 * ONE, ONE, 900);
  }
}
