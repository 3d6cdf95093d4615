/** The trade solver against the exact curve, on both sides: its payout, less the slack of a
    sloped curve, is one the curve allows, and once an explicit allowance is added it no
    longer is. The curve is written without any of the solver's own coefficients. */
module TradeCurve {
  import opened Checked
  import opened Arith
  import opened FixedPoint
  import opened TradeSolver
  import TradeTheorems
  import opened TradePrice

  /** A payout p of the payment's worth x from reserve q that the curve of target n allows. */
  predicate OnCurve(n: nat, q: nat, p: nat, x: nat, k: nat) {
    p <= q && k <= ONE && p * ((ONE - k) * ((q - p) * q) + k * (n * n)) <= ((q - p) * q) * x
  }

  // ----- not beyond the curve

  /** The solver's payout, less the slack of a sloped curve, is one the curve allows. */
  lemma TradeOnCurve(n: nat, q: nat, delta: nat, i: nat, k: nat, p: nat)
    requires 0 < q <= n && k <= ONE
    requires SolveTrade(n, q, delta, i, k).Success?
    requires SolveTrade(n, q, delta, i, k).value == p + SlackOf(k)
    ensures OnCurve(n, q, p, i * delta, k)
  {
    SolveTradeTraps(n, q, delta, i, k);
    if delta == 0 {
      NothingOnCurve(n, q, i * delta, k);
    } else if k == 0 {
      TradeTheorems.FlatBracket(n, q, delta, i);
      FlatOnCurve(n, q, p, i * delta);
    } else if k == ONE {
      TradeTheorems.SteepBracket(n, q, delta, i);
      SteepOnCurve(n, q, p, i * delta);
    } else {
      SlopedOnCurve(n, q, delta, i, k, p, i * delta);
    }
  }

  lemma NothingOnCurve(n: nat, q: nat, x: nat, k: nat)
    requires k <= ONE
    ensures OnCurve(n, q, 0, x, k)
  {
  }

  lemma FlatOnCurve(n: nat, q: nat, p: nat, x: nat)
    requires p <= q && p * ONE <= x
    ensures OnCurve(n, q, p, x, 0)
  {
    var share := (q - p) * q;
    MulMono(p * ONE, x, share);
    assert p * (ONE * share) == (p * ONE) * share;
  }

  lemma SteepOnCurve(n: nat, q: nat, p: nat, x: nat)
    requires p <= q && p * (ONE * (n * n)) <= (q - p) * (x * q)
    ensures OnCurve(n, q, p, x, ONE)
  {
    assert (q - p) * (x * q) == ((q - p) * q) * x;
  }

  lemma SlopedOnCurve(n: nat, q: nat, delta: nat, i: nat, k: nat, p: nat, worth: nat)
    requires 0 < q <= n && 0 < k < ONE && worth == i * delta
    requires SolveSlopedTrade(n, q, delta, i, k) == Success(p + PriceSlack(k))
    ensures OnCurve(n, q, p, worth, k)
  {
    var a, b, disc := ONE - k, SignedB(n, q, delta, i, k), Discriminant(n, k);
    var x := Numerator(b, disc);
    SlopedForm(n, q, delta, i, k);
    SlackEnough(k);
    SlopedFair(n, q, delta, i, k, p);
    var e: nat := 2 * a * PriceSlack(k) - ONE;
    SmallNumerator(q, a, x, p, PriceSlack(k), e);
    ScaledBFair(n, q, delta, i, k, b);
    TradeTheorems.NumeratorBracket(b, disc);
    ScaledBracket(ONE, disc, x + 1, b);
    DiscriminantAtLeast(n, k);
    PayoutNotLarge(ONE, a, k, n, q, p, worth, disc, ONE * (x + 1), ONE * b, e);
  }

  lemma SlopedFair(n: nat, q: nat, delta: nat, i: nat, k: nat, p: nat)
    requires 0 < q <= n && 0 < k < ONE
    requires SolveSlopedTrade(n, q, delta, i, k) == Success(p + PriceSlack(k))
    ensures (ONE - k) * p <= i * delta && p <= q
  {
    SlopedPrice(n, q, delta, i, k);
    SlopedForm(n, q, delta, i, k);
    DivBounds(i * delta, ONE);
    MulMono(p, MulFloor(i, delta), ONE);
    MulMono(ONE - k, ONE, p);
  }

  /** A root small enough to pay out p beyond the slack bounds what p may be: otherwise it
      would contradict the discriminant's upper bracket. */
  lemma PayoutNotLarge(s: nat, a: nat, k: nat, n: nat, q: nat, p: nat, x: nat,
                       disc: nat, w: nat, sb: int, e: nat)
    requires 0 < q <= n && p <= q && a * p <= x
    requires 4 * s <= e && 4 * a * s + s * s <= 2 * k * e
    requires 4 * a * n * (k * n - s) <= s * s * disc + s * s
    requires s * s * disc < w * (w + 2 * sb) && 0 < w + 2 * sb
    requires w <= 2 * a * (q - p) - e
    requires q * sb <= k * (n * n) + q * (x + s - a * q)
    ensures p * (a * ((q - p) * q) + k * (n * n)) <= ((q - p) * q) * x
  {
    var share := 2 * k * (n * n) + 2 * q * (x - a * p);
    MulMono(0, x - a * p, 2 * q);
    WeightBelowShare(s, a, k, n, q, p, x, w, sb, e);
    if ((q - p) * q) * x < p * (a * ((q - p) * q) + k * (n * n)) {
      ReserveOfShare(a, k, n, q, p, x);
      RootProduct(a, k, n, q, q - p, w, w + 2 * sb, e, share);
      SlackOfShare(s, a, k, n, q, e, share);
      RootBelowDiscriminant(s, a, k, n, q, disc, w * (w + 2 * sb), e * share);
    }
  }

  lemma WeightBelowShare(s: nat, a: nat, k: nat, n: nat, q: nat, p: nat, x: nat, w: int, sb: int, e: nat)
    requires p <= q && 4 * s <= e && w <= 2 * a * (q - p) - e
    requires q * sb <= k * (n * n) + q * (x + s - a * q)
    ensures q * (w + 2 * sb) <= 2 * k * (n * n) + 2 * q * (x - a * p)
  {
    MulMono(w, 2 * a * (q - p) - 2 * s, q);
    WeightTerms(s, a, k, n, q, p, x, w, sb);
  }

  lemma WeightTerms(s: nat, a: nat, k: nat, n: nat, q: nat, p: nat, x: nat, w: int, sb: int)
    ensures q * (w + 2 * sb) == w * q + 2 * (q * sb)
    ensures (2 * a * (q - p) - 2 * s) * q + 2 * (k * (n * n) + q * (x + s - a * q))
         == 2 * k * (n * n) + 2 * q * (x - a * p)
  {
  }

  lemma ReserveOfShare(a: nat, k: nat, n: nat, q: nat, p: nat, x: nat)
    requires ((q - p) * q) * x < p * (a * ((q - p) * q) + k * (n * n))
    ensures (q - p) * (2 * k * (n * n) + 2 * q * (x - a * p)) < 2 * k * (n * n) * q
  {
    var r := q - p;
    assert r * (2 * k * (n * n) + 2 * q * (x - a * p))
        == 2 * k * (n * n) * q + 2 * ((r * q) * x - p * (a * (r * q) + k * (n * n))) by {
      ShareTerms(a, k * (n * n), q, p, x);
    }
  }

  lemma ShareTerms(a: nat, c: nat, q: int, p: int, x: nat)
    ensures (q - p) * (2 * c + 2 * q * (x - a * p))
         == 2 * c * q + 2 * (((q - p) * q) * x - p * (a * ((q - p) * q) + c))
  {
  }

  lemma RootProduct(a: nat, k: nat, n: nat, q: nat, r: nat, w: nat, y: nat, e: nat, share: nat)
    requires w <= 2 * a * r - e && q * y <= share && r * share < 2 * k * (n * n) * q
    ensures q * (w * y) <= 4 * a * k * (n * n) * q - e * share
  {
    MulMono2(w, 2 * a * r - e, q * y, share);
    MulMono(r * share, 2 * k * (n * n) * q, 2 * a);
    Commute3(w, q, y);
    ProductOfShare(a, k * (n * n), q, r, e, share);
  }

  lemma ProductOfShare(a: nat, c: nat, q: nat, r: nat, e: nat, share: nat)
    ensures (2 * a * r - e) * share == (r * share) * (2 * a) - e * share
    ensures (2 * c * q) * (2 * a) == 4 * a * c * q
  {
  }

  lemma SlackOfShare(s: nat, a: nat, k: nat, n: nat, q: nat, e: nat, share: nat)
    requires 0 < q <= n && 4 * a * s + s * s <= 2 * k * e && 2 * k * (n * n) <= share
    ensures q * (4 * a * s * n + s * s) <= e * share
  {
    MulMono(2 * k * (n * n), share, e);
    MulMono(4 * a * s + s * s, 2 * k * e, n * n);
    ReserveShareOfSlack(4 * a * s, s * s, n, q);
    SquareOut(2 * k, n, e);
  }

  lemma SquareOut(c: nat, n: nat, e: nat)
    ensures (c * (n * n)) * e == (c * e) * (n * n)
  {
  }

  lemma ReserveShareOfSlack(c: nat, d: nat, n: nat, q: nat)
    requires 0 < q <= n
    ensures q * (c * n + d) <= (c + d) * (n * n)
  {
    MulMono(1, n, d);
    MulMono2(q, n, c * n + d, (c + d) * n);
    assert n * ((c + d) * n) == (c + d) * (n * n);
    assert (c + d) * n == c * n + n * d;
  }

  lemma RootBelowDiscriminant(s: nat, a: nat, k: nat, n: nat, q: nat, disc: nat, wy: nat, lost: nat)
    requires 0 < q && q * wy <= 4 * a * k * (n * n) * q - lost
    requires q * (4 * a * s * n + s * s) <= lost
    requires 4 * a * n * (k * n - s) <= s * s * disc + s * s
    ensures wy <= s * s * disc
  {
    assert 4 * a * n * (k * n - s) == 4 * a * k * (n * n) - 4 * a * s * n;
    assert 4 * a * k * (n * n) * q - q * (4 * a * s * n + s * s)
        == q * (4 * a * k * (n * n) - (4 * a * s * n + s * s));
    CancelLeft(q, wy, 4 * a * k * (n * n) - (4 * a * s * n + s * s));
  }

  // ----- not far below the curve

  /** What the solver's roundings may cost the trader. */
  function TradeAllowance(n: nat, q: nat, k: nat): nat
    requires k <= ONE
  {
    if k == 0 then 1
    else if k == ONE then 1 + DDivCeil(q, ONE)
    else 1 + DDivCeil(n + ONE, ONE - k)
  }

  /** The other side, for every slope, reserve and payment: a payout larger by the allowance
      is more than the curve of target n gives for the payment, or takes the whole reserve. */
  lemma TradeOffCurve(n: nat, q: nat, delta: nat, i: nat, k: nat)
    requires 0 < n && 0 < q && k <= ONE
    ensures SolveTrade(n, q, delta, i, k).Success?
    ensures var more := SolveTrade(n, q, delta, i, k).value + TradeAllowance(n, q, k);
      more < q ==> !OnCurve(n, q, more, i * delta, k)
  {
    SolveTradeTraps(n, q, delta, i, k);
    var paid := SolveTrade(n, q, delta, i, k).value;
    if paid + TradeAllowance(n, q, k) < q {
      if delta == 0 {
        PaysForNothing(n, q, paid + TradeAllowance(n, q, k), k);
      } else if k == 0 {
        TradeTheorems.FlatBracket(n, q, delta, i);
        FlatOffCurve(n, q, paid + 1, i * delta);
      } else if k == ONE {
        TradeTheorems.SteepBracket(n, q, delta, i);
        DDivCeilLeast(q, ONE);
        SteepOffCurve(ONE, n * n, q, paid, DDivCeil(q, ONE), i * delta);
      } else {
        SlopedOffCurve(n, q, delta, i, k, paid, i * delta);
      }
    }
  }

  lemma PaysForNothing(n: nat, q: nat, p: nat, k: nat)
    requires 0 < n && 0 < p < q && k <= ONE
    ensures !OnCurve(n, q, p, 0, k)
  {
    MulStrict(0, q - p, q);
    MulStrict(0, n, n);
    if k < ONE {
      MulStrict(0, (q - p) * q, ONE - k);
    }
    MulMono(0, n * n, k);
    MulStrict(0, (ONE - k) * ((q - p) * q) + k * (n * n), p);
  }

  lemma FlatOffCurve(n: nat, q: nat, p: nat, x: nat)
    requires 0 < p < q && x < p * ONE
    ensures !OnCurve(n, q, p, x, 0)
  {
    var share := (q - p) * q;
    MulStrict(0, q - p, q);
    MulStrict(x, p * ONE, share);
    assert p * (ONE * share) == (p * ONE) * share;
  }

  /** SteepBracket misses the curve by one unit and one q / s. */
  lemma SteepOffCurve(s: nat, m: nat, q: nat, p: nat, c: nat, x: nat)
    requires q <= s * c && p + 1 + c < q
    requires q * (x * q - m) < (p + 1) * (x * q + s * m)
    ensures ((q - (p + 1 + c)) * q) * x < (p + 1 + c) * (s * m)
  {
    MulMono(q, s * c, m);
    SteepOffTerms(s, m, q, p + 1, c, x);
    MulMono(0, x * q, c);
  }

  lemma SteepOffTerms(s: nat, m: nat, q: int, p: nat, c: nat, x: nat)
    ensures q * (x * q - m) == q * (x * q) - q * m
    ensures p * (x * q + s * m) == p * (x * q) + p * (s * m)
    ensures ((q - (p + c)) * q) * x == q * (x * q) - p * (x * q) - (x * q) * c
    ensures (p + c) * (s * m) == p * (s * m) + (s * c) * m
  {
  }

  lemma SlopedOffCurve(n: nat, q: nat, delta: nat, i: nat, k: nat, paid: nat, worth: nat)
    requires 0 < n && 0 < q && 0 < k < ONE && worth == i * delta
    requires SolveSlopedTrade(n, q, delta, i, k) == Success(paid)
    requires paid + TradeAllowance(n, q, k) < q
    ensures !OnCurve(n, q, paid + TradeAllowance(n, q, k), worth, k)
  {
    var b, disc := SignedB(n, q, delta, i, k), Discriminant(n, k);
    var x, c := Numerator(b, disc), DDivCeil(n + ONE, ONE - k);
    SlopedForm(n, q, delta, i, k);
    LargeNumerator(q, ONE - k, x, paid, c, q - (paid + 1 + c));
    DDivCeilLeast(n + ONE, ONE - k);
    TradeTheorems.NumeratorBracket(b, disc);
    FairBelowScaledB(n, q, delta, i, k, b);
    DiscriminantAtMost(n, k);
    SlopedReserve(n, q, k, q - (paid + 1 + c), worth, disc, x, b, c);
  }

  lemma SlopedReserve(n: nat, q: nat, k: nat, r: nat, worth: nat, disc: nat, x: nat, b: int, c: nat)
    requires 0 < n && 0 < k < ONE && 0 < r <= q
    requires 2 * (ONE - k) * (r + c) <= ONE * x && n + ONE <= (ONE - k) * c
    requires x * x + 2 * b * x <= disc && ONE * ONE * disc <= 4 * (ONE - k) * (k * (n * n))
    requires k * (n * n) + q * (worth - (ONE - k) * q - (n + ONE)) <= q * (ONE * b)
    ensures !OnCurve(n, q, q - r, worth, k)
  {
    ScaledRoot(ONE, disc, x, b);
    MulStrict(0, n, n);
    MulStrict(0, n * n, k);
    ReserveBelowRoot(ONE - k, k * (n * n), q, r, worth - (ONE - k) * q, n + ONE,
                     ONE * ONE * disc, ONE * x, ONE * b, c);
    OffCurveAt(ONE - k, k, n, q, r, worth);
  }

  /** The reserve left by a payout larger than the solver's is well below its root. */
  lemma LargeNumerator(q: nat, a: nat, x: nat, paid: nat, c: nat, r: nat)
    requires 0 < a && paid == PayoutFromNumerator(q, a * 2, x) && r + paid + 1 + c == q
    ensures 2 * a * (r + c) <= ONE * x
  {
    var v2 := DivCeil(x, a * 2);
    DDivCeilLeast(x * ONE, a * 2);
    MulMono(r + c, v2 - 1, 2 * a);
  }

  lemma ScaledRoot(s: nat, disc: nat, x: nat, b: int)
    requires x * x + 2 * b * x <= disc
    ensures (s * x) * (s * x + 2 * (s * b)) <= s * s * disc
  {
    MulMono(x * x + 2 * b * x, disc, s * s);
    assert (s * x) * (s * x + 2 * (s * b)) == (x * x + 2 * b * x) * (s * s);
  }

  /** The doubly floored discriminant never exceeds 4 (1 - k) k n^2. */
  lemma DiscriminantAtMost(n: nat, k: nat)
    requires k <= ONE
    ensures ONE * ONE * Discriminant(n, k) <= 4 * (ONE - k) * (k * (n * n))
  {
    var f := MulFloor(k, n);
    DivBounds(k * n, ONE);
    DivBounds(((ONE - k) * 4) * (f * n), ONE);
    FlooredDiscriminant(ONE, ONE - k, k, n, f, Discriminant(n, k));
  }

  lemma FlooredDiscriminant(s: nat, a: nat, k: nat, n: nat, f: nat, disc: nat)
    requires s * f <= k * n && s * disc <= (a * 4) * (f * n)
    ensures s * s * disc <= 4 * a * (k * (n * n))
  {
    MulMono(s * disc, (a * 4) * (f * n), s);
    MulMono(s * f, k * n, 4 * a * n);
    FlooredTerms(s, a, k, n, f, disc);
  }

  lemma FlooredTerms(s: nat, a: nat, k: nat, n: nat, f: nat, disc: nat)
    ensures (s * disc) * s == s * s * disc
    ensures ((a * 4) * (f * n)) * s == (s * f) * (4 * a * n)
    ensures (k * n) * (4 * a * n) == 4 * a * (k * (n * n))
  {
  }

  lemma TruncDivLower(n: int, d: nat)
    requires 0 < d
    ensures n - d < d * TruncDiv(n, d)
  {
    if n < 0 {
      DivBounds(-n, d);
    } else {
      DivBounds(n, d);
    }
  }

  /** The floors in b lose less than n and less than one in 18 decimals. */
  lemma FairBelowScaledB(n: nat, q: nat, delta: nat, i: nat, k: nat, b: int)
    requires 0 < q && k <= ONE && b == SignedB(n, q, delta, i, k)
    ensures k * (n * n) + q * (i * delta - (ONE - k) * q - (n + ONE)) <= q * (ONE * b)
  {
    var share, rest := Quotient(k * n, q), i * delta - (ONE - k) * q;
    DivBounds(k * n, q);
    TruncDivLower(Part2(n, q, delta, i, k) - (ONE - k) * q, ONE);
    ShareAbove(k, n, q, share, ONE * b, rest, ONE);
  }

  lemma ShareAbove(k: nat, n: nat, q: nat, share: nat, sb: int, rest: int, s: nat)
    requires k * n <= q * share + q && share * n + rest - s <= sb
    ensures k * (n * n) + q * (rest - (n + s)) <= q * sb
  {
    MulMono(share * n + rest - s, sb, q);
    MulMono(k * n, q * share + q, n);
    assert (k * n) * n == k * (n * n);
    assert (q * share + q) * n == q * (share * n) + q * n;
    assert (share * n + rest - s) * q == q * (share * n) + q * (rest - s);
    assert q * (rest - (n + s)) == q * (rest - s) - q * n;
  }

  /** A reserve r short of the root by c is below the curve's own root. */
  lemma ReserveBelowRoot(a: nat, base: nat, q: nat, r: nat, rest: int, lost: nat,
                         disc: nat, y: nat, sb: int, c: nat)
    requires 0 < r && 0 < q && 0 < base && 0 < a && 0 < lost
    requires 2 * a * (r + c) <= y && lost <= a * c
    requires y * (y + 2 * sb) <= disc <= 4 * a * base
    requires base + q * (rest - lost) <= q * sb
    ensures r * (a * r * q + (base + q * rest)) < base * q
  {
    var h := base + q * rest;
    ShortOfRoot(a, r, c, lost, y);
    RootSlope(lost, q, 2 * a * r, y, h, sb, rest, base);
    MulMono(y * (y + 2 * sb), 4 * a * base, q);
    BelowRoot(a, base, q, r, h, y, y + 2 * sb);
  }

  lemma ShortOfRoot(a: nat, r: nat, c: nat, lost: nat, y: nat)
    requires 2 * a * (r + c) <= y && lost <= a * c
    ensures 2 * a * r + 2 * lost <= y
  {
    assert 2 * a * (r + c) == 2 * a * r + 2 * (a * c);
  }

  lemma BelowRoot(a: nat, base: nat, q: nat, r: nat, h: int, y: int, w: int)
    requires 0 < r && 0 < q && 0 < base && 0 < a
    requires 2 * a * r < y && q * (2 * a * r) + 2 * h <= q * w
    requires (y * w) * q <= (4 * a * base) * q
    ensures r * (a * r * q + h) < base * q
  {
    MulStrict(0, base, q);
    MulStrict(0, base * q, 4 * a);
    MulStrict(0, r, 2 * a);
    RootTerms(a, q, r, h, y, w, base);
    SmallerRoot(2 * a * r, y, q * (2 * a * r) + 2 * h, q * w, (base * q) * (4 * a));
    if base * q <= r * (a * r * q + h) {
      MulMono(base * q, r * (a * r * q + h), 4 * a);
    }
  }

  lemma RootSlope(lost: nat, q: nat, z: int, y: int, h: int, sb: int, rest: int, base: int)
    requires z + 2 * lost <= y && h == base + q * rest && base + q * (rest - lost) <= q * sb
    ensures q * z + 2 * h <= q * (y + 2 * sb)
  {
    MulMono(z + 2 * lost, y, q);
    assert q * (rest - lost) == q * rest - q * lost;
    assert q * (y + 2 * sb) == y * q + 2 * (q * sb);
    assert (z + 2 * lost) * q == q * z + 2 * (q * lost);
  }

  lemma SmallerRoot(z: int, y: int, slope: int, slope': int, bound: int)
    requires 0 < z < y && slope <= slope' && 0 < bound && y * slope' <= bound
    ensures z * slope < bound
  {
    if slope <= 0 {
      MulMono(slope, 0, z);
    } else {
      MulMono(slope, slope', z);
      MulStrict(z, y, slope');
    }
  }

  lemma RootTerms(a: nat, q: nat, r: nat, h: int, y: int, w: int, base: int)
    ensures (2 * a * r) * (q * (2 * a * r) + 2 * h) == (r * (a * r * q + h)) * (4 * a)
    ensures y * (q * w) == (y * w) * q
    ensures (base * q) * (4 * a) == (4 * a * base) * q
  {
  }

  lemma OffCurveAt(a: nat, k: nat, n: nat, q: nat, r: nat, x: nat)
    requires r <= q && a + k == ONE
    requires r * (a * r * q + (k * (n * n) + q * (x - a * q))) < k * (n * n) * q
    ensures !OnCurve(n, q, q - r, x, k)
  {
    OffCurveTerms(a, k * (n * n), q, r, x);
  }

  lemma OffCurveTerms(a: nat, base: nat, q: nat, r: nat, x: nat)
    ensures (q - r) * (a * (r * q) + base) - (r * q) * x == base * q - r * (a * r * q + (base + q * (x - a * q)))
  {
  }

  /** Below a payout that the curve allows and that leaves something it allows every smaller
      one, so the two sides pin the payout down to the slack and the allowance. */
  lemma OnCurveDown(n: nat, q: nat, p: nat, p': nat, x: nat, k: nat)
    requires p' <= p < q && OnCurve(n, q, p, x, k)
    ensures OnCurve(n, q, p', x, k)
  {
    var base := k * (n * n);
    CurveDown(ONE - k, base, q, p, p', q - p, q - p');
    MulMono(p * ((ONE - k) * ((q - p) * q) + base), ((q - p) * q) * x, q - p');
    DownTerms(q - p, q - p', q, x);
    MulCancel(p' * ((ONE - k) * ((q - p') * q) + base), ((q - p') * q) * x, q - p);
  }

  lemma CurveDown(a: nat, base: nat, q: nat, p: nat, p': nat, r: nat, r': nat)
    requires p' <= p && r <= r'
    ensures (p' * (a * (r' * q) + base)) * r <= (p * (a * (r * q) + base)) * r'
  {
    var both := r * r';
    MulMono2(p', p, r, r');
    MulMono(p' * r, p * r', base);
    MulMono(p', p, a * (q * both));
    DownParts(a, base, q, p, r, r', both);
    DownParts(a, base, q, p', r', r, both);
  }

  lemma DownParts(a: nat, base: nat, q: nat, p: nat, r: nat, r': nat, both: nat)
    requires both == r * r'
    ensures (p * (a * (r * q) + base)) * r' == p * (a * (q * both)) + (p * r') * base
  {
  }

  lemma DownTerms(r: nat, r': nat, q: nat, x: nat)
    ensures ((r * q) * x) * r' == ((r' * q) * x) * r
  {
  }
}
