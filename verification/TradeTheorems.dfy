/** What the trade solver computes: the rounded root of its quadratic, a payout that
    grows with the payment, and a price no better than the fair one. */
module TradeTheorems {
  import opened Checked
  import opened Arith
  import opened FixedPoint
  import opened TradeSolver

  /** x is the floor of the positive root of x^2 + 2 b x = s, and v2 is x / 2(1 - k) rounded up. */
  ghost predicate SolvesQuadratic(x: nat, v2: nat, b: int, s: nat, k: nat) {
    && x * x + 2 * b * x <= s < (x + 1) * (x + 1) + 2 * b * (x + 1)
    && 0 <= x + b
    && 2 * (ONE - k) * v2 - 2 * (ONE - k) < ONE * x <= 2 * (ONE - k) * v2
  }

  lemma CompleteSquare(x: int, b: int)
    ensures (x + b) * (x + b) == (x * x + 2 * b * x) + b * b
  {
  }

  lemma NumeratorBracket(b: int, s: nat)
    ensures var x := Numerator(b, s);
      x * x + 2 * b * x <= s < (x + 1) * (x + 1) + 2 * b * (x + 1) && 0 <= x + b
  {
    RootAboveB(b, s);
    var x, root := Numerator(b, s), Isqrt(b * b + s);
    CompleteSquare(x, b);
    CompleteSquare(x + 1, b);
  }

  lemma NumeratorUnique(x: nat, b: int, s: nat)
    requires x * x + 2 * b * x <= s < (x + 1) * (x + 1) + 2 * b * (x + 1) && 0 <= x + b
    ensures x == Numerator(b, s)
  {
    RootAboveB(b, s);
    CompleteSquare(x, b);
    CompleteSquare(x + 1, b);
    FloorRootUnique(b * b + s, x + b, Isqrt(b * b + s));
  }

  lemma CeilUnique(a: nat, d: nat, c: nat)
    requires 0 < d && d * c - d < a <= d * c
    ensures c == DDivCeil(a, d)
  {
    var e := DDivCeil(a, d);
    DDivCeilLeast(a, d);
    if c < e {
      MulMono(c + 1, e, d);
    } else if e < c {
      MulMono(e + 1, c, d);
    }
  }

  // ----- the rounded coefficients

  predicate IsFloor(q: int, a: int, d: int) {
    q * d <= a < (q + 1) * d
  }

  /** b is a in 18 decimals, truncated toward zero. */
  predicate Truncates(b: int, a: int) {
    if 0 <= a then IsFloor(b, a, ONE) else IsFloor(-b, -a, ONE)
  }

  /** share and part round k v0 / v1 and k v0; b and s are the quadratic's own coefficients. */
  datatype Coefficients = Coefficients(share: nat, part: nat, b: int, s: nat)

  /** The quadratic x^2 + 2 b x = s that the solver is to solve, with b from
      k v0^2 / v1 + worth - (1 - k) v1 and s from 4 (1 - k) k v0^2, floor by floor. */
  predicate Rounded(v0: nat, v1: nat, worth: int, k: nat, c: Coefficients) {
    && k <= ONE && IsFloor(c.share, k * v0, v1) && IsFloor(c.part, k * v0, ONE)
    && Truncates(c.b, c.share * v0 + worth - (ONE - k) * v1)
    && IsFloor(c.s, 4 * (ONE - k) * (c.part * v0), ONE)
  }

  lemma FloorUnique(q: int, a: int, d: int)
    requires 0 < d
    ensures IsFloor(q, a, d) <==> q == a / d
  {
    assert (q + 1) * d == q * d + d;
    DivBounds(a, d);
    if IsFloor(q, a, d) {
      DivUnique(a, d, q);
    }
  }

  lemma TruncatesUnique(b: int, a: int)
    ensures Truncates(b, a) <==> b == TruncDiv(a, ONE)
  {
    if 0 <= a {
      FloorUnique(b, a, ONE);
    } else {
      FloorUnique(-b, -a, ONE);
    }
  }

  /** There is exactly one such quadratic, and it is the solver's. */
  lemma RoundedUnique(v0: nat, v1: nat, delta: nat, i: nat, k: nat, c: Coefficients)
    requires 0 < v1 && k <= ONE
    ensures Rounded(v0, v1, i * delta, k, c) <==>
            c == Coefficients(Quotient(k * v0, v1), MulFloor(k, v0), SignedB(v0, v1, delta, i, k), Discriminant(v0, k))
  {
    FloorUnique(c.share, k * v0, v1);
    FloorUnique(c.part, k * v0, ONE);
    TruncatesUnique(c.b, c.share * v0 + i * delta - (ONE - k) * v1);
    FloorUnique(c.s, 4 * (ONE - k) * (c.part * v0), ONE);
  }

  /** The trade bracket, both ways: for 0 < k < 1 a payout is the solver's answer exactly
      when it is v1 - v2, floored at zero, for a solution of the rounded quadratic. */
  lemma TradeBracket(v0: nat, v1: nat, delta: nat, i: nat, k: nat, c: Coefficients, payout: nat)
    requires 0 < v0 && 0 < v1 && 0 < delta && 0 < k < ONE && Rounded(v0, v1, i * delta, k, c)
    ensures SolveTrade(v0, v1, delta, i, k) == Success(payout) <==>
            exists x: nat, v2: nat ::
              SolvesQuadratic(x, v2, c.b, c.s, k) && payout == if v2 > v1 then 0 else v1 - v2
  {
    RoundedUnique(v0, v1, delta, i, k, c);
    SlopedForm(v0, v1, delta, i, k);
    assert SolveTrade(v0, v1, delta, i, k) == SolveSlopedTrade(v0, v1, delta, i, k);
    PayoutSolves(v1, c.b, c.s, k, payout);
  }

  lemma PayoutSolves(v1: nat, b: int, s: nat, k: nat, payout: nat)
    requires k < ONE
    ensures PayoutFromNumerator(v1, (ONE - k) * 2, Numerator(b, s)) == payout <==>
            exists x: nat, v2: nat :: SolvesQuadratic(x, v2, b, s, k) && payout == if v2 > v1 then 0 else v1 - v2
  {
    NumeratorSolves(b, s, k);
    var x := Numerator(b, s);
    assert SolvesQuadratic(x, DivCeil(x, (ONE - k) * 2), b, s, k);
  }

  lemma NumeratorSolves(b: int, s: nat, k: nat)
    requires k < ONE
    ensures forall x: nat, v2: nat :: SolvesQuadratic(x, v2, b, s, k) <==>
                                      x == Numerator(b, s) && v2 == DivCeil(x, (ONE - k) * 2)
  {
    NumeratorBracket(b, s);
    DDivCeilLeast(Numerator(b, s) * ONE, (ONE - k) * 2);
    forall x: nat, v2: nat | SolvesQuadratic(x, v2, b, s, k)
      ensures x == Numerator(b, s) && v2 == DivCeil(x, (ONE - k) * 2)
    {
      NumeratorUnique(x, b, s);
      CeilUnique(x * ONE, (ONE - k) * 2, v2);
    }
  }

  // ----- the two ends of the slope

  /** With k = 1 the exact payout p solves p v0^2 = i delta v1 (v1 - p). The rounded one
      never exceeds it, and misses it by less than one unit and one unit of the ratio. */
  lemma SteepBracket(v0: nat, v1: nat, delta: nat, i: nat)
    requires 0 < v0 && 0 < delta
    ensures SolveTrade(v0, v1, delta, i, ONE).Success?
    ensures var p, x := SolveTrade(v0, v1, delta, i, ONE).value, i * delta * v1;
      && p <= v1
      && p * (ONE * (v0 * v0)) <= (v1 - p) * x
      && v1 * (x - v0 * v0) < (p + 1) * (x + ONE * (v0 * v0))
  {
    var temp := SteepRatio(v0, v1, delta, i);
    var p := SteepPayout(v1, temp);
    SteepRatioForm(v0, v1, delta, i);
    SteepPayoutBounds(v1, temp);
    DivBounds(i * delta * v1, v0 * v0);
    DivBounds(v1 * temp, temp + ONE);
    SteepArithmetic(ONE, v0 * v0, v1, i * delta * v1, temp, p);
  }

  lemma SteepArithmetic(s: nat, n: nat, v1: nat, x: nat, temp: nat, p: nat)
    requires 0 < n && p <= v1
    requires n * temp <= x < n * temp + n
    requires (temp + s) * p <= v1 * temp < (temp + s) * p + (temp + s)
    ensures p * (s * n) <= (v1 - p) * x
    ensures v1 * (x - n) < (p + 1) * (x + s * n)
  {
    SteepUpper(s, n, v1, x, temp, p);
    SteepLower(s, n, v1, x, temp, p);
  }

  lemma SteepUpper(s: nat, n: nat, v1: nat, x: nat, temp: nat, p: nat)
    requires p <= v1 && n * temp <= x && (temp + s) * p <= v1 * temp
    ensures p * (s * n) <= (v1 - p) * x
  {
    MulMono((temp + s) * p, v1 * temp, n);
    MulMono(n * temp, x, v1 - p);
    SteepUpperTerms(s, n, v1, temp, p);
  }

  lemma SteepUpperTerms(s: nat, n: nat, v1: nat, temp: nat, p: nat)
    ensures ((temp + s) * p) * n == (n * temp) * p + p * (s * n)
    ensures (v1 * temp) * n == (n * temp) * v1
    ensures (n * temp) * (v1 - p) == (n * temp) * v1 - (n * temp) * p
  {
  }

  lemma SteepLower(s: nat, n: nat, v1: nat, x: nat, temp: nat, p: nat)
    requires 0 < n && n * temp <= x < n * temp + n
    requires v1 * temp < (temp + s) * p + (temp + s)
    ensures v1 * (x - n) < (p + 1) * (x + s * n)
  {
    MulStrict(v1 * temp, (temp + s) * p + (temp + s), n);
    MulMono(n * temp, x, p + 1);
    MulMono(x - n, n * temp, v1);
    SteepLowerTerms(s, n, v1, x, temp, p);
  }

  lemma SteepLowerTerms(s: nat, n: nat, v1: nat, x: nat, temp: nat, p: nat)
    ensures (v1 * temp) * n == (n * temp) * v1
    ensures ((temp + s) * p + (temp + s)) * n == (n * temp) * (p + 1) + (p + 1) * (s * n)
    ensures (p + 1) * (x + s * n) == x * (p + 1) + (p + 1) * (s * n)
    ensures v1 * (x - n) == (x - n) * v1
  {
  }

  /** With k = 0 the payout is the fair amount rounded down, cut off at the reserve. */
  lemma FlatBracket(v0: nat, v1: nat, delta: nat, i: nat)
    requires 0 < v0
    ensures SolveTrade(v0, v1, delta, i, 0).Success?
    ensures var p := SolveTrade(v0, v1, delta, i, 0).value;
      p <= v1 && p * ONE <= i * delta && (p < v1 ==> i * delta < (p + 1) * ONE)
  {
    DivBounds(i * delta, ONE);
    if delta > 0 && v1 < MulFloor(i, delta) {
      MulMono(v1, MulFloor(i, delta), ONE);
    }
  }

  // ----- emptying a reserve

  /** The payments that buy the whole reserve v1: at k = 0 a payment worth it, in between one
      that makes the rounded b at least half the rounded s, at k = 1 none. */
  ghost predicate BuysAll(v0: nat, v1: nat, delta: nat, i: nat, k: nat) {
    if k == 0 then v1 * ONE <= i * delta
    else k < ONE && exists c :: Rounded(v0, v1, i * delta, k, c) && c.s <= 2 * c.b
  }

  lemma EmptiesReserveIff(v0: nat, v1: nat, delta: nat, i: nat, k: nat)
    requires 0 < v0 && 0 < v1 && 0 < delta && k <= ONE
    ensures SolveTrade(v0, v1, delta, i, k) == Success(v1) <==> BuysAll(v0, v1, delta, i, k)
  {
    if k == 0 {
      DivGreatest(i * delta, ONE, v1);
    } else if k == ONE {
      SteepPayoutBounds(v1, SteepRatio(v0, v1, delta, i));
    } else {
      SlopedForm(v0, v1, delta, i, k);
      NumeratorZeroIff(SignedB(v0, v1, delta, i, k), Discriminant(v0, k));
      WholePayoutIff(v1, (ONE - k) * 2, Numerator(SignedB(v0, v1, delta, i, k), Discriminant(v0, k)));
      BuysAllIff(v0, v1, delta, i, k);
    }
  }

  lemma BuysAllIff(v0: nat, v1: nat, delta: nat, i: nat, k: nat)
    requires 0 < v1 && 0 < k < ONE
    ensures BuysAll(v0, v1, delta, i, k) <==> Discriminant(v0, k) <= 2 * SignedB(v0, v1, delta, i, k)
  {
    var own := Coefficients(Quotient(k * v0, v1), MulFloor(k, v0), SignedB(v0, v1, delta, i, k), Discriminant(v0, k));
    forall c: Coefficients
      ensures Rounded(v0, v1, i * delta, k, c) <==> c == own
    {
      RoundedUnique(v0, v1, delta, i, k, c);
    }
  }

  lemma NumeratorZeroIff(b: int, s: nat)
    ensures Numerator(b, s) == 0 <==> s <= 2 * b
  {
    NumeratorBracket(b, s);
    if s <= 2 * b {
      NumeratorUnique(0, b, s);
    }
  }

  lemma WholePayoutIff(v1: nat, d: nat, x: nat)
    requires 0 < v1 && 0 < d
    ensures PayoutFromNumerator(v1, d, x) == v1 <==> x == 0
  {
    DDivCeilLeast(x * ONE, d);
  }

  // ----- monotonicity

  /** A larger b has a smaller positive root, through truncation and floor square root. */
  lemma NumeratorAntitone(b: int, b': int, s: nat)
    requires b <= b'
    ensures Numerator(b', s) <= Numerator(b, s)
  {
    RootAboveB(b, s);
    RootAboveB(b', s);
    var root, d := Isqrt(b * b + s), b' - b;
    RootShift(b, d, s, root);
    IsqrtLeast(b' * b' + s, root + d);
  }

  lemma RootShift(b: int, d: nat, s: nat, root: nat)
    requires b * b + s < (root + 1) * (root + 1) && b <= root
    ensures (b + d) * (b + d) + s < (root + d + 1) * (root + d + 1)
  {
    assert (b + d) * (b + d) == b * b + 2 * (d * b) + d * d;
    assert (root + d + 1) * (root + d + 1) == (root + 1) * (root + 1) + 2 * (d * (root + 1)) + d * d;
    MulMono(b, root + 1, d);
  }

  lemma TruncDivMono(m: int, n: int, d: nat)
    requires m <= n && 0 < d
    ensures TruncDiv(m, d) <= TruncDiv(n, d)
  {
    if n < 0 {
      DivMono(-n, -m, d);
    } else if 0 <= m {
      DivMono(m, n, d);
    } else {
      DivGreatest(-m, d, 0);
      DivGreatest(n, d, 0);
    }
  }

  lemma PayoutAntitone(v1: nat, d: nat, x: nat, x': nat)
    requires 0 < d && x' <= x
    ensures PayoutFromNumerator(v1, d, x) <= PayoutFromNumerator(v1, d, x')
  {
    DDivCeilMono(x' * ONE, x * ONE, d);
  }

  lemma DDivCeilMono(a: nat, c: nat, d: nat)
    requires 0 < d && a <= c
    ensures DDivCeil(a, d) <= DDivCeil(c, d)
  {
    var p, q := DDivCeil(a, d), DDivCeil(c, d);
    DDivCeilLeast(a, d);
    DDivCeilLeast(c, d);
    if q < p {
      MulMono(q + 1, p, d);
    }
  }

  lemma SteepPayoutMono(v1: nat, t: nat, t': nat)
    requires t <= t'
    ensures SteepPayout(v1, t) <= SteepPayout(v1, t')
  {
    var p := SteepPayout(v1, t);
    SteepPayoutBounds(v1, t);
    DivBounds(v1 * t, t + ONE);
    MulMono(p, v1, t' - t);
    assert p * (t' + ONE) == (t + ONE) * p + p * (t' - t);
    assert v1 * t' == v1 * t + v1 * (t' - t);
    DivGreatest(v1 * t', t' + ONE, p);
  }

  /** Paying more never buys less: the solver is monotone in delta for every k, across
      all its branches, wherever it does not trap. */
  lemma TradeMonotone(v0: nat, v1: nat, delta: nat, delta': nat, i: nat, k: nat)
    requires delta <= delta' && !TradeTraps(v0, v1, delta', k)
    ensures SolveTrade(v0, v1, delta, i, k).Success? && SolveTrade(v0, v1, delta', i, k).Success?
    ensures SolveTrade(v0, v1, delta, i, k).value <= SolveTrade(v0, v1, delta', i, k).value
  {
    SolveTradeTraps(v0, v1, delta, i, k);
    SolveTradeTraps(v0, v1, delta', i, k);
    if delta == 0 {
    } else if k == 0 {
      MulFloorMono(i, delta, delta');
    } else if k == ONE {
      SteepRatioForm(v0, v1, delta, i);
      SteepRatioForm(v0, v1, delta', i);
      MulMono(delta, delta', i);
      MulMono(i * delta, i * delta', v1);
      DivMono(i * delta * v1, i * delta' * v1, v0 * v0);
      SteepPayoutMono(v1, SteepRatio(v0, v1, delta, i), SteepRatio(v0, v1, delta', i));
    } else {
      SlopedMonotone(v0, v1, delta, delta', i, k);
    }
  }

  lemma SlopedMonotone(v0: nat, v1: nat, delta: nat, delta': nat, i: nat, k: nat)
    requires delta <= delta' && 0 < v1 && 0 < k < ONE
    ensures SolveSlopedTrade(v0, v1, delta, i, k).Success?
    ensures SolveSlopedTrade(v0, v1, delta', i, k).Success?
    ensures SolveSlopedTrade(v0, v1, delta, i, k).value <= SolveSlopedTrade(v0, v1, delta', i, k).value
  {
    var b, b', s := SignedB(v0, v1, delta, i, k), SignedB(v0, v1, delta', i, k), Discriminant(v0, k);
    SlopedForm(v0, v1, delta, i, k);
    SlopedForm(v0, v1, delta', i, k);
    MulMono(delta, delta', i);
    TruncDivMono(Part2(v0, v1, delta, i, k) - (ONE - k) * v1, Part2(v0, v1, delta', i, k) - (ONE - k) * v1, ONE);
    NumeratorAntitone(b, b', s);
    PayoutAntitone(v1, (ONE - k) * 2, Numerator(b, s), Numerator(b', s));
  }
}
