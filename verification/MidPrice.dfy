/** The mid price against the unrounded price i (1 - k + k v0^2 / v^2), on both sides. */
module MidPrice {
  import opened Checked
  import opened Arith
  import opened FixedPoint
  import Integral
  import opened Pmm
  import opened Power

  lemma {:induction false} TenTo38(n: nat)
    ensures n <= 38 ==> 0 < Exp(10, n) < 0x1_0000_0000_0000_0000_0000_0000_0000_0000
    ensures 39 <= n ==> 0x1_0000_0000_0000_0000_0000_0000_0000_0000 <= Exp(10, n)
    decreases if n <= 38 then 38 - n else n
  {
    if n == 38 || n == 39 {
      assert Exp(10, 5) == 100_000;
      ExpAdd(10, 5, 5);
      ExpAdd(10, 10, 10);
      ExpAdd(10, 20, 10);
      ExpAdd(10, 30, 5);
      assert Exp(10, 3) == 1000 && Exp(10, 4) == 10_000;
      ExpAdd(10, 35, 3);
      ExpAdd(10, 35, 4);
    } else if n < 38 {
      TenTo38(n + 1);
    } else {
      TenTo38(n - 1);
    }
  }

  /** The scale of a price is the power of ten it stands for exactly when that fits 128 bits. */
  lemma PriceScaleIff(baseDecimal: u8, decimals: u8)
    ensures PriceScale(baseDecimal, decimals) == Exp(10, baseDecimal + decimals) <==> baseDecimal + decimals <= 38
  {
    var n := baseDecimal + decimals;
    TenTo38(n);
    if n <= 38 {
      Unwrapped(n, Exp(10, n), 0x1_0000_0000_0000_0000_0000_0000_0000_0000);
    } else {
      DivBounds(Exp(10, n % 256), 0x1_0000_0000_0000_0000_0000_0000_0000_0000);
    }
  }

  lemma Unwrapped(n: nat, ten: nat, width: nat)
    requires n < 256 && ten < width
    ensures n % 256 == n && ten % width == ten
  {
  }

  /** (1 - k) v^2 + k v0^2, the unrounded factor times v^2. */
  function ExactFactor(v0: nat, v: nat, k: nat): int
    requires k <= ONE
  {
    (ONE - k) * (v * v) + k * (v0 * v0)
  }

  /** The roundings of the factor lose at most two units and k / v. */
  function FactorLoss(v: nat, k: nat): nat {
    2 * (v * v) + k * v
  }

  lemma FactorTwoSided(v0: nat, v: nat, k: nat)
    requires 0 < v && k <= ONE
    ensures PriceFactor(v0, v, k).Success?
    ensures var f := PriceFactor(v0, v, k).value;
      f * (v * v) <= ExactFactor(v0, v, k) <= f * (v * v) + FactorLoss(v, k)
  {
    Integral.PenaltyBounds(v0, v, v, k);
    FactorForm(v0, v, k);
    FactorBounds(ONE - k, Integral.Penalty(v0, v, v, k), v * v, k * (v0 * v0), k * v);
  }

  lemma FactorForm(v0: nat, v: nat, k: nat)
    requires 0 < v && k <= ONE
    ensures PriceFactor(v0, v, k) == Success(ONE - k + Integral.Penalty(v0, v, v, k))
  {
  }

  lemma FactorBounds(slack: nat, pen: nat, square: nat, kn: nat, kv: nat)
    requires pen * square <= kn <= (pen + 2) * square + kv
    ensures (slack + pen) * square <= slack * square + kn <= (slack + pen) * square + (2 * square + kv)
  {
    assert (slack + pen) * square == slack * square + pen * square;
  }

  lemma DividedPrice(scaled: nat, f: nat)
    requires 0 < f
    ensures var p := Quotient(DivFloor(scaled, f), ONE); p * f <= scaled < (p + 1) * f
  {
    var price := DivFloor(scaled, f);
    var p := Quotient(price, ONE);
    DivBounds(scaled * ONE, f);
    DivBounds(price, ONE);
    NestedFloor(ONE, scaled, f, price, p);
  }

  lemma NestedFloor(s: nat, x: nat, f: nat, price: nat, p: nat)
    requires 0 < s && f * price <= x * s < f * price + f && s * p <= price < s * p + s
    ensures p * f <= x < (p + 1) * f
  {
    MulMono(s * p, price, f);
    MulMono(price + 1, s * p + s, f);
    NestedTerms(s, p, f);
    MulCancel(p * f, x, s);
    if (p + 1) * f <= x {
      MulMono((p + 1) * f, x, s);
    }
  }

  lemma NestedTerms(s: nat, p: nat, f: nat)
    ensures (s * p) * f == (p * f) * s
    ensures (s * p + s) * f == ((p + 1) * f) * s
  {
  }

  lemma MultipliedPrice(scaled: nat, f: nat)
    ensures var p := Quotient(MulFloor(scaled, f), ONE); p * ONE2 <= scaled * f < (p + 1) * ONE2
  {
    var price := MulFloor(scaled, f);
    DivBounds(scaled * f, ONE);
    DivBounds(price, ONE);
  }

  /** p is the unrounded price, divided by the factor and rounded down, but for its roundings. */
  predicate DividesBy(p: nat, scaled: nat, v0: nat, v: nat, k: nat)
    requires k <= ONE
  {
    p * (ExactFactor(v0, v, k) - FactorLoss(v, k)) <= scaled * (v * v) < (p + 1) * ExactFactor(v0, v, k)
  }

  /** p is the unrounded price, multiplied by the factor and rounded down, but for its roundings. */
  predicate MultipliesBy(p: nat, scaled: nat, v0: nat, v: nat, k: nat)
    requires k <= ONE
  {
    && p * ONE2 * (v * v) <= scaled * ExactFactor(v0, v, k)
    && scaled * (ExactFactor(v0, v, k) - FactorLoss(v, k)) < (p + 1) * ONE2 * (v * v)
  }

  lemma DividedTwoSided(scaled: nat, v0: nat, v: nat, k: nat, f: nat)
    requires 0 < v && 0 < f && k <= ONE && PriceFactor(v0, v, k) == Success(f)
    ensures DividesBy(Quotient(DivFloor(scaled, f), ONE), scaled, v0, v, k)
  {
    FactorTwoSided(v0, v, k);
    DividedPrice(scaled, f);
    MulStrict(0, v, v);
    PriceOverFactor(Quotient(DivFloor(scaled, f), ONE), scaled, f, v * v, ExactFactor(v0, v, k), FactorLoss(v, k));
  }

  lemma MultipliedTwoSided(scaled: nat, v0: nat, v: nat, k: nat, f: nat)
    requires 0 < v && k <= ONE && PriceFactor(v0, v, k) == Success(f)
    ensures MultipliesBy(Quotient(MulFloor(scaled, f), ONE), scaled, v0, v, k)
  {
    FactorTwoSided(v0, v, k);
    MultipliedPrice(scaled, f);
    MulStrict(0, v, v);
    PriceTimesFactor(ONE2, Quotient(MulFloor(scaled, f), ONE), scaled, f, v * v,
                     ExactFactor(v0, v, k), FactorLoss(v, k));
  }

  /** While quote is short the mid price divides by the factor, otherwise it multiplies; an
      empty reserve has price zero. */
  lemma MidPriceTwoSided(s: PMMState, decimals: u8)
    requires s.k <= ONE && s.baseDecimal + decimals <= 38 && GetMidPriceV1(s, decimals).Success?
    ensures var p, scaled := GetMidPriceV1(s, decimals).value, Exp(10, s.baseDecimal + decimals) * s.i;
      if s.r == BelowOne then if s.q == 0 then p == 0 else DividesBy(p, scaled, s.q0, s.q, s.k)
      else if s.b == 0 then p == 0 else MultipliesBy(p, scaled, s.b0, s.b, s.k)
  {
    PriceScaleIff(s.baseDecimal, decimals);
    var scaled := PriceScale(s.baseDecimal, decimals) * s.i;
    if s.r == BelowOne && 0 < s.q {
      FactorTwoSided(s.q0, s.q, s.k);
      DividedTwoSided(scaled, s.q0, s.q, s.k, PriceFactor(s.q0, s.q, s.k).value);
    } else if s.r != BelowOne && 0 < s.b {
      FactorTwoSided(s.b0, s.b, s.k);
      MultipliedTwoSided(scaled, s.b0, s.b, s.k, PriceFactor(s.b0, s.b, s.k).value);
    }
  }

  lemma PriceOverFactor(p: nat, scaled: nat, f: nat, square: nat, exact: int, loss: nat)
    requires 0 < square && f * square <= exact <= f * square + loss && p * f <= scaled < (p + 1) * f
    ensures p * (exact - loss) <= scaled * square < (p + 1) * exact
  {
    MulMono(exact - loss, f * square, p);
    MulMono(p * f, scaled, square);
    MulStrict(scaled, (p + 1) * f, square);
    MulMono(f * square, exact, p + 1);
    PriceTerms(p, f, square);
    PriceTerms(p + 1, f, square);
  }

  lemma PriceTerms(p: nat, f: nat, square: nat)
    ensures (p * f) * square == (f * square) * p
  {
  }

  lemma PriceTimesFactor(s2: nat, p: nat, scaled: nat, f: nat, square: nat, exact: int, loss: nat)
    requires 0 < square && f * square <= exact <= f * square + loss && p * s2 <= scaled * f < (p + 1) * s2
    ensures p * s2 * square <= scaled * exact
    ensures scaled * (exact - loss) < (p + 1) * s2 * square
  {
    MulMono(p * s2, scaled * f, square);
    MulStrict(scaled * f, (p + 1) * s2, square);
    MulMono(f * square, exact, scaled);
    MulMono(exact - loss, f * square, scaled);
    PriceTerms(scaled, f, square);
  }
}
