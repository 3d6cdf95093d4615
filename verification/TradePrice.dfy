/** A trade is never priced better than the guide price: at most i * delta is paid out,
    up to a slack that depends on the slope alone where roundings compound. */
module TradePrice {
  import opened Arith
  import opened FixedPoint
  import opened TradeSolver
  import TradeTheorems

  /** 2 / k + 3 / (1 - k), each quotient rounded up. */
  function PriceSlack(k: nat): nat
    requires 0 < k < ONE
  {
    2 * DDivCeil(ONE, k) + 3 * DDivCeil(ONE, ONE - k)
  }

  /** The roundings compound strictly between the two ends only. */
  function SlackOf(k: nat): nat {
    if 0 < k < ONE then PriceSlack(k) else 0
  }

  lemma SteepPrice(v0: nat, v1: nat, delta: nat, i: nat)
    requires 0 < v0 && v1 <= v0
    ensures SteepPayout(v1, SteepRatio(v0, v1, delta, i)) <= MulFloor(i, delta)
  {
    var x, temp := i * delta, SteepRatio(v0, v1, delta, i);
    var p := SteepPayout(v1, temp);
    SteepRatioForm(v0, v1, delta, i);
    SteepPayoutBounds(v1, temp);
    DivBounds(x * v1, v0 * v0);
    SteepCancel(v0, v1, x, temp, p * ONE);
    DivGreatest(x, ONE, p);
  }

  lemma SteepCancel(v0: nat, v1: nat, x: nat, temp: nat, w: nat)
    requires 0 < v0 && v1 <= v0
    requires w <= v1 * temp && (v0 * v0) * temp <= x * v1
    ensures w <= x
  {
    MulMono(w, v1 * temp, v0 * v0);
    MulMono((v0 * v0) * temp, x * v1, v1);
    MulMono2(v1, v0, v1, v0);
    MulMono(v1 * v1, v0 * v0, x);
    Regroup(v0, v1, x, temp);
    MulCancel(w, x, v0 * v0);
  }

  lemma Regroup(v0: nat, v1: nat, x: nat, temp: nat)
    ensures (v1 * temp) * (v0 * v0) == ((v0 * v0) * temp) * v1
    ensures (x * v1) * v1 == (v1 * v1) * x
  {
  }

  // ----- 0 < k < 1

  /** s^2 times the doubly rounded discriminant is within 4 a v s + s^2 of 4 a k v^2. */
  lemma DiscriminantLower(s: nat, a: nat, k: nat, v: nat, f: nat, r: nat)
    requires 0 < s
    requires k * v < s * f + s
    requires (a * 4) * (f * v) < s * r + s
    ensures 4 * a * v * (k * v - s) <= s * s * r + s * s
  {
    MulMono(k * v - s, s * f, 4 * a * v);
    MulMono((a * 4) * (f * v), s * r + s, s);
    DiscriminantTerms(s, a, k, v, f, r);
  }

  lemma DiscriminantTerms(s: nat, a: nat, k: nat, v: nat, f: nat, r: nat)
    ensures (s * f) * (4 * a * v) == ((a * 4) * (f * v)) * s
    ensures (s * r + s) * s == s * s * r + s * s
    ensures (k * v - s) * (4 * a * v) == 4 * a * v * (k * v - s)
  {
  }

  lemma ScaledBracket(s: nat, r: nat, x1: nat, b: int)
    requires 0 < s && 0 < x1 && r < x1 * x1 + 2 * b * x1
    ensures s * s * r < (s * x1) * (s * x1 + 2 * (s * b))
    ensures 0 < s * x1 + 2 * (s * b)
  {
    assert x1 * x1 + 2 * b * x1 == x1 * (x1 + 2 * b);
    if x1 + 2 * b <= 0 {
      MulMono(x1 + 2 * b, 0, x1);
    }
    MulStrict(0, x1 + 2 * b, s);
    assert s * (x1 + 2 * b) == s * x1 + 2 * (s * b);
    MulStrict(r, x1 * (x1 + 2 * b), s * s);
    assert (x1 * (x1 + 2 * b)) * (s * s) == (s * x1) * (s * (x1 + 2 * b));
    assert r * (s * s) == s * s * r;
  }

  /** (2a(v - m) - e)(2k(n^2 + v m)) is at most v (4 a k n^2 - 2 k e n) for a reserve v up to the target n. */
  lemma ProductUpper(a: nat, k: nat, n: nat, v: nat, m: nat, e: nat)
    requires v <= n
    ensures (2 * a * (v - m) - e) * (2 * k * (n * n + v * m)) <= v * (4 * a * n * (k * n) - 2 * k * e * n)
  {
    var q := n * n + v * m;
    ReserveShare(n, v, m);
    MulMono((v - m) * q, v * (n * n), 4 * (a * k));
    MulMono(v * n, q, 2 * (k * e));
    ProductTerms(a, k, v - m, q, e);
    BoundForm(a, k, n, v, e);
  }

  /** (v - m)(n^2 + v m) is at most v n^2, and n^2 + v m at least v n. */
  lemma ReserveShare(n: nat, v: nat, m: nat)
    requires v <= n
    ensures (v - m) * (n * n + v * m) <= v * (n * n)
    ensures v * n <= n * n + v * m
  {
    MulMono2(v, n, v, n);
    MulMono(v, n, n);
    MulMono(0, n * n - v * v, m);
    MulMono(0, v * m, m);
    assert (v - m) * (n * n + v * m) == v * (n * n) - (n * n - v * v) * m - (v * m) * m;
  }

  lemma ProductTerms(a: nat, k: nat, t: int, q: nat, e: nat)
    ensures (2 * a * t - e) * (2 * k * q) == (t * q) * (4 * (a * k)) - q * (2 * (k * e))
  {
  }

  lemma BoundForm(a: nat, k: nat, n: nat, v: nat, e: nat)
    ensures v * (4 * a * n * (k * n) - 2 * k * e * n) == (v * (n * n)) * (4 * (a * k)) - (v * n) * (2 * (k * e))
  {
  }

  lemma SlackLarge(s: nat, a: nat, k: nat, ck: nat, ca: nat)
    requires a + k == s && s <= k * ck && s <= a * ca
    ensures 5 * s <= 2 * a * (2 * ck + 3 * ca)
    ensures 4 * a * s + s * s <= 2 * k * (2 * a * (2 * ck + 3 * ca) - s)
  {
    MulMono(s, k * ck, 8 * a);
    MulMono(s, a * ca, 12 * k);
    SlackTerms(s, a, k, ck, ca);
    MulMono(0, a, ck);
    MulMono(0, a, s);
    MulMono(0, k, s);
  }

  lemma SlackTerms(s: nat, a: nat, k: nat, ck: nat, ca: nat)
    requires a + k == s
    ensures 2 * a * (2 * ck + 3 * ca) == 4 * (a * ck) + 6 * (a * ca)
    ensures 2 * k * (2 * a * (2 * ck + 3 * ca) - s) == (k * ck) * (8 * a) + (a * ca) * (12 * k) - 2 * (k * s)
    ensures s * s == a * s + k * s
    ensures s * (8 * a) == 8 * (a * s) && s * (12 * k) == 12 * (k * s) && 4 * a * s == 4 * (a * s)
  {
  }

  /** The contradiction at the heart of the bound: a root small enough to pay out
      m + c or more cannot satisfy the discriminant's upper bracket. */
  lemma RootNotSmall(s: nat, a: nat, k: nat, n: nat, v: nat, m: nat, r: nat, w: nat, y: nat, e: nat)
    requires 0 < v <= n
    requires 4 * a * n * (k * n - s) <= s * s * r + s * s
    requires s * s * r < w * y && w <= 2 * a * (v - m) - e && v * y <= 2 * k * (n * n + v * m)
    ensures 2 * k * e < 4 * a * s + s * s
  {
    MulMono2(w, 2 * a * (v - m) - e, v * y, 2 * k * (n * n + v * m));
    ProductUpper(a, k, n, v, m, e);
    Commute3(w, v, y);
    assert v * (w * y) <= v * (4 * a * n * (k * n) - 2 * k * e * n);
    CancelLeft(v, w * y, 4 * a * n * (k * n) - 2 * k * e * n);
    MulMono(1, n, s * s);
    BoundTerms(s, a, k, n);
    if 4 * a * s + s * s <= 2 * k * e {
      MulMono(4 * a * s + s * s, 2 * k * e, n);
    }
  }

  lemma CancelLeft(c: int, x: int, y: int)
    requires 0 < c && c * x <= c * y
    ensures x <= y
  {
    MulCancel(x, y, c);
  }

  lemma Commute3(w: int, v: int, y: int)
    ensures w * (v * y) == v * (w * y)
  {
  }

  lemma BoundTerms(s: nat, a: nat, k: nat, n: nat)
    ensures 4 * a * n * (k * n - s) == 4 * a * n * (k * n) - (4 * a * s) * n
    ensures (4 * a * s + s * s) * n == (4 * a * s) * n + n * (s * s)
  {
  }

  lemma TruncDivUpper(n: int, d: nat)
    requires 0 < d
    ensures d * TruncDiv(n, d) < n + d
  {
    if n < 0 {
      DivBounds(-n, d);
    } else {
      DivBounds(n, d);
    }
  }

  /** A payout of m + c or more forces a small numerator. */
  lemma SmallNumerator(v: nat, a: nat, x: nat, m: nat, c: nat, e: nat)
    requires 0 < a && e == 2 * a * c - ONE
    requires 0 < c && m + c <= PayoutFromNumerator(v, a * 2, x)
    ensures ONE * (x + 1) <= 2 * a * (v - m) - e
  {
    var v2 := DivCeil(x, a * 2);
    DDivCeilLeast(x * ONE, a * 2);
    MulMono(v2, v - m - c, a * 2);
    assert 2 * a * (v - m) - e == (a * 2) * (v - m - c) + ONE;
  }

  lemma LargeB(s: nat, a: nat, k: nat, n: nat, v: nat, m: nat, c: nat, w: int, sb: int, e: nat)
    requires 0 < v && a + k == s && 5 * s <= 2 * a * c && e == 2 * a * c - s
    requires w <= 2 * a * (v - m) - e
    requires v * sb <= k * (n * n) + v * (s * m + 2 * s - a * v)
    ensures v * (w + 2 * sb) <= 2 * k * (n * n + v * m)
  {
    MulMono(w, 2 * a * (v - m) - 4 * s, v);
    LargeBTerms(s, a, k, n, v, m, w, sb);
  }

  lemma LargeBTerms(s: nat, a: nat, k: nat, n: nat, v: nat, m: nat, w: int, sb: int)
    requires a + k == s
    ensures v * (w + 2 * sb) == w * v + 2 * (v * sb)
    ensures (2 * a * (v - m) - 4 * s) * v + 2 * (k * (n * n) + v * (s * m + 2 * s - a * v)) == 2 * k * (n * n + v * m)
  {
    assert s * m == a * m + k * m;
  }

  lemma DiscriminantAtLeast(v: nat, k: nat)
    requires k <= ONE
    ensures 4 * (ONE - k) * v * (k * v - ONE) <= ONE * ONE * Discriminant(v, k) + ONE * ONE
  {
    DivBounds(k * v, ONE);
    DivBounds(((ONE - k) * 4) * (MulFloor(k, v) * v), ONE);
    DiscriminantLower(ONE, ONE - k, k, v, MulFloor(k, v), Discriminant(v, k));
  }

  /** With 0 < k < 1 a trade from any reserve v up to its target n pays at most the guide
      price plus PriceSlack(k), whatever the payment and the pool's size. */
  lemma SlopedPrice(n: nat, v: nat, delta: nat, i: nat, k: nat)
    requires 0 < v <= n && 0 < k < ONE
    ensures SolveSlopedTrade(n, v, delta, i, k).Success?
    ensures SolveSlopedTrade(n, v, delta, i, k).value < MulFloor(i, delta) + PriceSlack(k)
  {
    SlopedForm(n, v, delta, i, k);
    SlackEnough(k);
    NoLargePayout(n, v, delta, i, k, PriceSlack(k));
  }

  lemma SlackEnough(k: nat)
    requires 0 < k < ONE
    ensures 0 < PriceSlack(k) && 5 * ONE <= 2 * (ONE - k) * PriceSlack(k)
    ensures 4 * (ONE - k) * ONE + ONE * ONE <= 2 * k * (2 * (ONE - k) * PriceSlack(k) - ONE)
  {
    DDivCeilLeast(ONE, k);
    DDivCeilLeast(ONE, ONE - k);
    SlackLarge(ONE, ONE - k, k, DDivCeil(ONE, k), DDivCeil(ONE, ONE - k));
  }

  lemma NoLargePayout(n: nat, v: nat, delta: nat, i: nat, k: nat, c: nat)
    requires 0 < v <= n && 0 < k < ONE && 0 < c
    requires 5 * ONE <= 2 * (ONE - k) * c
    requires 4 * (ONE - k) * ONE + ONE * ONE <= 2 * k * (2 * (ONE - k) * c - ONE)
    ensures PayoutFromNumerator(v, (ONE - k) * 2, Numerator(SignedB(n, v, delta, i, k), Discriminant(n, k)))
          < MulFloor(i, delta) + c
  {
    var a, m := ONE - k, MulFloor(i, delta);
    var b, r := SignedB(n, v, delta, i, k), Discriminant(n, k);
    var x, e: nat := Numerator(b, r), 2 * a * c - ONE;
    if m + c <= PayoutFromNumerator(v, a * 2, x) {
      SmallNumerator(v, a, x, m, c, e);
      ScaledB(n, v, delta, i, k, b, m);
      LargeB(ONE, a, k, n, v, m, c, ONE * (x + 1), ONE * b, e);
      TradeTheorems.NumeratorBracket(b, r);
      ScaledBracket(ONE, r, x + 1, b);
      DiscriminantAtLeast(n, k);
      RootNotSmall(ONE, a, k, n, v, m, r, ONE * (x + 1), ONE * (x + 1) + 2 * (ONE * b), e);
    }
  }

  /** The floored share k n / v only lowers b, and with it the payout. */
  lemma ScaledBFair(n: nat, v: nat, delta: nat, i: nat, k: nat, b: int)
    requires 0 < v && k <= ONE && b == SignedB(n, v, delta, i, k)
    ensures v * (ONE * b) <= k * (n * n) + v * (i * delta + ONE - (ONE - k) * v)
  {
    var share := Quotient(k * n, v);
    DivBounds(k * n, v);
    TruncDivUpper(Part2(n, v, delta, i, k) - (ONE - k) * v, ONE);
    ScaledShare(k, n, v, share, ONE * b, i * delta + ONE - (ONE - k) * v);
  }

  /** The same once the payment's worth is rounded down to m. */
  lemma ScaledB(n: nat, v: nat, delta: nat, i: nat, k: nat, b: int, m: nat)
    requires 0 < v && k <= ONE
    requires b == SignedB(n, v, delta, i, k) && m == MulFloor(i, delta)
    ensures v * (ONE * b) <= k * (n * n) + v * (ONE * m + 2 * ONE - (ONE - k) * v)
  {
    ScaledBFair(n, v, delta, i, k, b);
    DivBounds(i * delta, ONE);
    RaiseShare(v, i * delta + ONE - (ONE - k) * v, ONE * m + 2 * ONE - (ONE - k) * v, v * (ONE * b), k * (n * n));
  }

  lemma RaiseShare(v: nat, low: int, high: int, x: int, base: int)
    requires low <= high && x <= base + v * low
    ensures x <= base + v * high
  {
    MulMono(low, high, v);
  }

  lemma ScaledShare(k: nat, n: nat, v: nat, share: nat, sb: int, rest: int)
    requires v * share <= k * n && sb <= share * n + rest
    ensures v * sb <= k * (n * n) + v * rest
  {
    MulMono(sb, share * n + rest, v);
    MulMono(v * share, k * n, n);
    assert (share * n + rest) * v == (v * share) * n + v * rest;
    assert (k * n) * n == k * (n * n);
  }

  /** The price bound, for every slope and every reserve up to its target. */
  lemma TradePriceBound(v0: nat, v1: nat, delta: nat, i: nat, k: nat)
    requires 0 < v0 && v1 <= v0 && k <= ONE
    requires 0 < k < ONE ==> 0 < v1
    ensures SolveTrade(v0, v1, delta, i, k).Success?
    ensures SolveTrade(v0, v1, delta, i, k).value <= MulFloor(i, delta) + SlackOf(k)
  {
    SolveTradeTraps(v0, v1, delta, i, k);
    if delta > 0 {
      if k == ONE {
        SteepPrice(v0, v1, delta, i);
      } else if k > 0 {
        SlopedPrice(v0, v1, delta, i, k);
      }
    }
  }
}
