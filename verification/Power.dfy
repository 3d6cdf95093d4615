/** pow_floor: fixed-point exponentiation by squaring. */
module Power {
  import opened Arith
  import opened FixedPoint

  function Exp(b: nat, n: nat): nat {
    if n == 0 then 1 else b * Exp(b, n - 1)
  }

  function PowFloor(target: nat, e: nat): nat {
    if e == 0 then ONE
    else if e == 1 then target
    else
      var p := PowFloor(target, e / 2);
      var square := Quotient(p * p, ONE);
      if e % 2 == 1 then Quotient(square * target, ONE) else square
  }

  lemma {:induction false} ExpAdd(b: nat, m: nat, n: nat)
    ensures Exp(b, m + n) == Exp(b, m) * Exp(b, n)
  {
    if m > 0 {
      ExpAdd(b, m - 1, n);
      Assoc(b, Exp(b, m - 1), Exp(b, n));
    }
  }

  lemma Assoc(a: nat, b: nat, c: nat)
    ensures a * (b * c) == (a * b) * c
  {
  }

  lemma SquareStep(s: nat, p: nat, q: nat, sh: nat, th: nat)
    requires 0 < s && p * sh <= th * s && s * q <= p * p
    ensures q * (sh * sh) <= (th * th) * s
  {
    MulMono2(p * sh, th * s, p * sh, th * s);
    MulMono(s * q, p * p, sh * sh);
    SquareTerms(s, p, q, sh, th);
    MulCancel(q * (sh * sh), (th * th) * s, s);
  }

  lemma SquareTerms(s: nat, p: nat, q: nat, sh: nat, th: nat)
    ensures (p * sh) * (p * sh) == (p * p) * (sh * sh)
    ensures (th * s) * (th * s) == ((th * th) * s) * s
    ensures (s * q) * (sh * sh) == (q * (sh * sh)) * s
  {
  }

  lemma TimesStep(s: nat, t: nat, p: nat, q: nat, sh: nat, th: nat)
    requires p * sh <= th * s && s * q <= p * t
    ensures q * (s * sh) <= (t * th) * s
  {
    MulMono(s * q, p * t, sh);
    MulMono(p * sh, th * s, t);
    assert q * (s * sh) == (s * q) * sh && (p * t) * sh == (p * sh) * t;
    assert (th * s) * t == (t * th) * s;
  }

  /** pow_floor never exceeds the real power (target / 10^18)^e * 10^18. */
  lemma {:induction false} PowFloorBelowPower(target: nat, e: nat)
    ensures PowFloor(target, e) * Exp(ONE, e) <= Exp(target, e) * ONE
  {
    if e == 1 {
      assert Exp(ONE, 1) == ONE * Exp(ONE, 0) && Exp(target, 1) == target * Exp(target, 0);
    } else if e > 1 {
      PowFloorBelowPower(target, e / 2);
      HalvingStep(target, e, e / 2, PowFloor(target, e / 2));
    }
  }

  /** One halving, on values: sh and th stand for the h-th powers of 10^18 and target. */
  lemma SquareAndTimes(t: nat, p: nat, sh: nat, th: nat)
    requires p * sh <= th * ONE
    ensures var square := Quotient(p * p, ONE);
      && square * (sh * sh) <= (th * th) * ONE
      && Quotient(square * t, ONE) * (ONE * (sh * sh)) <= (t * (th * th)) * ONE
  {
    var square := Quotient(p * p, ONE);
    DivBounds(p * p, ONE);
    SquareStep(ONE, p, square, sh, th);
    DivBounds(square * t, ONE);
    TimesStep(ONE, t, square, Quotient(square * t, ONE), sh * sh, th * th);
  }

  lemma ExpHalves(b: nat, e: nat, h: nat)
    requires h == e / 2
    ensures Exp(b, e) == if e % 2 == 1 then b * (Exp(b, h) * Exp(b, h)) else Exp(b, h) * Exp(b, h)
  {
    ExpAdd(b, h, h);
    if e % 2 == 1 {
      assert Exp(b, e) == b * Exp(b, h + h);
    } else {
      assert e == h + h;
    }
  }

  lemma HalvingStep(target: nat, e: nat, h: nat, p: nat)
    requires 1 < e && h == e / 2 && p == PowFloor(target, h)
    requires p * Exp(ONE, h) <= Exp(target, h) * ONE
    ensures PowFloor(target, e) * Exp(ONE, e) <= Exp(target, e) * ONE
  {
    SquareAndTimes(target, p, Exp(ONE, h), Exp(target, h));
    ExpHalves(ONE, e, h);
    ExpHalves(target, e, h);
  }

  lemma {:induction false} PowFloorMonotone(t: nat, t': nat, e: nat)
    requires t <= t'
    ensures PowFloor(t, e) <= PowFloor(t', e)
  {
    if e > 1 {
      PowFloorMonotone(t, t', e / 2);
      var p, p' := PowFloor(t, e / 2), PowFloor(t', e / 2);
      MulMono2(p, p', p, p');
      DivMono(p * p, p' * p', ONE);
      var s, s' := Quotient(p * p, ONE), Quotient(p' * p', ONE);
      MulMono2(s, s', t, t');
      DivMono(s * t, s' * t', ONE);
    }
  }

  // ----- not far below the real power

  /** The e - 1 roundings lose less than (e - 1) m^e, with m the larger of the base and one. */
  lemma {:induction false} PowFloorNearPower(target: nat, e: nat)
    requires 1 <= e
    ensures var m := if target < ONE then ONE else target;
      Exp(target, e) * ONE <= PowFloor(target, e) * Exp(ONE, e) + (e - 1) * Exp(m, e)
  {
    if e == 1 {
      assert Exp(ONE, 1) == ONE * Exp(ONE, 0) && Exp(target, 1) == target * Exp(target, 0);
    } else {
      var m := if target < ONE then ONE else target;
      PowFloorNearPower(target, e / 2);
      NearHalvingStep(target, m, e, e / 2, PowFloor(target, e / 2));
    }
  }

  lemma {:induction false} ExpMono(b: nat, c: nat, n: nat)
    requires b <= c
    ensures Exp(b, n) <= Exp(c, n)
  {
    if n > 0 {
      ExpMono(b, c, n - 1);
      MulMono2(b, c, Exp(b, n - 1), Exp(c, n - 1));
    }
  }

  lemma NearHalvingStep(target: nat, m: nat, e: nat, h: nat, p: nat)
    requires 1 < e && h == e / 2 && p == PowFloor(target, h) && target <= m && ONE <= m
    requires Exp(target, h) * ONE <= p * Exp(ONE, h) + (h - 1) * Exp(m, h)
    ensures Exp(target, e) * ONE <= PowFloor(target, e) * Exp(ONE, e) + (e - 1) * Exp(m, e)
  {
    ExpMono(target, m, h);
    ExpMono(ONE, m, h);
    NearSquareAndTimes(target, m, p, Exp(ONE, h), Exp(target, h), Exp(m, h), h - 1);
    ExpHalves(ONE, e, h);
    ExpHalves(target, e, h);
    ExpHalves(m, e, h);
  }

  lemma NearSquareAndTimes(t: nat, m: nat, p: nat, sh: nat, th: nat, mh: nat, err: nat)
    requires t <= m && ONE <= m && sh <= mh && th <= mh
    requires th * ONE <= p * sh + err * mh
    ensures var square := Quotient(p * p, ONE);
      && (th * th) * ONE <= square * (sh * sh) + (2 * err + 1) * (mh * mh)
      && (t * (th * th)) * ONE <= Quotient(square * t, ONE) * (ONE * (sh * sh)) + (2 * err + 2) * (m * (mh * mh))
  {
    var square := Quotient(p * p, ONE);
    DivBounds(p * p, ONE);
    NearSquare(ONE, p, square, sh, th, mh, err);
    DivBounds(square * t, ONE);
    MulMono2(sh, mh, sh, mh);
    NearTimes(ONE, t, m, square, Quotient(square * t, ONE), sh * sh, th * th, mh * mh, 2 * err + 1);
  }

  /** Squaring doubles the error and adds one rounding. */
  lemma NearSquare(s: nat, p: nat, q: nat, sh: nat, th: nat, mh: nat, err: nat)
    requires 0 < s && p * p < s * q + s && sh <= mh && th <= mh
    requires th * s <= p * sh + err * mh
    ensures (th * th) * s <= q * (sh * sh) + (2 * err + 1) * (mh * mh)
  {
    MulMono2(sh, mh, sh, mh);
    MulMono(th, mh, err * mh);
    if th * s <= err * mh {
      MulMono(th * s, err * mh, th);
      MulMono(0, err + 1, mh * mh);
      NearSmall(s, th, mh, err, q, sh);
    } else {
      SquareOfDifference(th * s, err * mh, p * sh);
      MulMono(p * p, s * q + s, sh * sh);
      NearTerms(s, p, q, sh, th, mh, err);
      MulMono(th * (err * mh), mh * (err * mh), 2 * s);
      MulMono(sh * sh, mh * mh, s);
      MulCancel((th * th) * s, q * (sh * sh) + (2 * err + 1) * (mh * mh), s);
    }
  }

  lemma NearSmall(s: nat, th: nat, mh: nat, err: nat, q: nat, sh: nat)
    requires (th * s) * th <= (err * mh) * th && th * (err * mh) <= mh * (err * mh) && 0 <= (err + 1) * (mh * mh)
    ensures (th * th) * s <= q * (sh * sh) + (2 * err + 1) * (mh * mh)
  {
    assert (th * s) * th == (th * th) * s && (err * mh) * th == th * (err * mh);
    assert (2 * err + 1) * (mh * mh) == mh * (err * mh) + (err + 1) * (mh * mh);
    MulMono(0, sh * sh, q);
  }

  lemma SquareOfDifference(a: nat, b: nat, c: nat)
    requires b <= a <= c + b
    ensures a * a - 2 * (a * b) <= c * c
  {
    MulMono2(a - b, c, a - b, c);
    assert (a - b) * (a - b) == a * a - 2 * (a * b) + b * b;
  }

  lemma NearTerms(s: nat, p: nat, q: nat, sh: nat, th: nat, mh: nat, err: nat)
    ensures (th * s) * (th * s) == ((th * th) * s) * s
    ensures 2 * ((th * s) * (err * mh)) == (th * (err * mh)) * (2 * s)
    ensures (p * sh) * (p * sh) == (p * p) * (sh * sh)
    ensures (s * q + s) * (sh * sh) == (q * (sh * sh)) * s + (sh * sh) * s
    ensures (q * (sh * sh) + (2 * err + 1) * (mh * mh)) * s
         == (q * (sh * sh)) * s + (mh * (err * mh)) * (2 * s) + (mh * mh) * s
  {
    SquareOut(th, s);
    SquareOut(p, sh);
    ErrorOut(q * (sh * sh), mh, err, s);
    assert (s * q + s) * (sh * sh) == (q * (sh * sh)) * s + (sh * sh) * s;
  }

  lemma SquareOut(a: nat, b: nat)
    ensures (a * b) * (a * b) == (a * a) * (b * b) == ((a * a) * b) * b
  {
  }

  lemma ErrorOut(x: nat, mh: nat, err: nat, s: nat)
    ensures (x + (2 * err + 1) * (mh * mh)) * s == x * s + (mh * (err * mh)) * (2 * s) + (mh * mh) * s
  {
  }

  /** One more factor adds one rounding. */
  lemma NearTimes(s: nat, t: nat, m: nat, p: nat, q: nat, sh: nat, th: nat, mh: nat, err: nat)
    requires p * t < s * q + s && t <= m && s <= m && sh <= mh
    requires th * s <= p * sh + err * mh
    ensures (t * th) * s <= q * (s * sh) + (err + 1) * (m * mh)
  {
    MulMono(th * s, p * sh + err * mh, t);
    MulMono(p * t, s * q + s, sh);
    MulMono(t, m, err * mh);
    MulMono2(s, m, sh, mh);
    TimesTerms(s, t, p, q, sh, th, err * mh);
    ErrorTerms(m, mh, err);
  }

  lemma TimesTerms(s: nat, t: nat, p: nat, q: nat, sh: nat, th: nat, err: nat)
    ensures (th * s) * t == (t * th) * s
    ensures (p * sh + err) * t == (p * t) * sh + t * err
    ensures (s * q + s) * sh == q * (s * sh) + s * sh
  {
  }

  lemma ErrorTerms(m: nat, mh: nat, err: nat)
    ensures m * (err * mh) + m * mh == (err + 1) * (m * mh)
  {
  }
}
