/** The 18-decimal fixed-point helpers of the pricing engine. */
module FixedPoint {
  import opened Checked
  import opened Arith

  const ONE: nat := 1_000_000_000_000_000_000
  const ONE2: nat := ONE * ONE

  /** Floor division of naturals, kept behind a name for the nonlinear proofs. */
  function Quotient(a: nat, b: nat): nat
    requires 0 < b
  {
    a / b
  }

  function MulFloor(target: nat, d: nat): nat {
    target * d / ONE
  }

  function DivFloor(target: nat, d: nat): nat
    requires 0 < d
  {
    target * ONE / d
  }

  function TryDivFloor(target: nat, d: nat): Checked<nat> {
    if d == 0 then Failure(DivisionByZero) else Success(DivFloor(target, d))
  }

  function DDivCeil(a: nat, b: nat): nat
    requires 0 < b
  {
    DivBounds(a, b);
    var quotient: nat := a / b;
    var remainder := a - quotient * b;
    if remainder > 0 then quotient + 1 else quotient
  }

  function DivCeil(target: nat, d: nat): nat
    requires 0 < d
  {
    DDivCeil(target * ONE, d)
  }

  function ReciprocalFloor(target: nat): Checked<nat> {
    Div(ONE2, target)
  }

  predicate IsFloorRoot(r: nat, n: nat) {
    r * r <= n < (r + 1) * (r + 1)
  }

  lemma FloorRootUnique(n: nat, r: nat, s: nat)
    requires IsFloorRoot(r, n) && IsFloorRoot(s, n)
    ensures r == s
  {
    if r < s {
      MulMono2(r + 1, s, r + 1, s);
    } else if s < r {
      MulMono2(s + 1, r, s + 1, r);
    }
  }

  lemma {:induction false} FloorRootExists(n: nat)
    ensures exists r: nat :: r <= n && IsFloorRoot(r, n)
  {
    if n == 0 {
      assert IsFloorRoot(0, 0);
    } else {
      FloorRootExists(n / 4);
      var q: nat :| q <= n / 4 && IsFloorRoot(q, n / 4);
      assert (2 * q) * (2 * q) == 4 * (q * q);
      assert (2 * q + 2) * (2 * q + 2) == 4 * ((q + 1) * (q + 1));
      var r := if (2 * q + 1) * (2 * q + 1) <= n then 2 * q + 1 else 2 * q;
      assert IsFloorRoot(r, n);
    }
  }

  lemma FloorRootDefined(n: nat)
    ensures exists r: nat :: r <= n && IsFloorRoot(r, n)
    ensures forall r: nat, s: nat :: IsFloorRoot(r, n) && IsFloorRoot(s, n) ==> r == s
  {
    FloorRootExists(n);
    forall r: nat, s: nat | IsFloorRoot(r, n) && IsFloorRoot(s, n)
      ensures r == s
    {
      FloorRootUnique(n, r, s);
    }
  }

  /** BigUint::sqrt: the one r with r * r <= n < (r + 1) * (r + 1). */
  function Isqrt(n: nat): (r: nat)
    ensures IsFloorRoot(r, n)
  {
    FloorRootDefined(n);
    var r: nat :| r <= n && IsFloorRoot(r, n);
    r
  }

  /** Ceiling division returns the least c with c * b >= a. */
  lemma DDivCeilLeast(a: nat, b: nat)
    requires 0 < b
    ensures b * DDivCeil(a, b) - b < a <= b * DDivCeil(a, b)
  {
    DivBounds(a, b);
    assert b * (a / b + 1) == b * (a / b) + b;
  }

  /** r is at least Isqrt(n) exactly when (r + 1)^2 is above n. */
  lemma IsqrtLeast(n: nat, r: nat)
    ensures n < (r + 1) * (r + 1) <==> Isqrt(n) <= r
  {
    var s := Isqrt(n);
    if s <= r {
      MulMono2(s + 1, r + 1, s + 1, r + 1);
    } else {
      MulMono2(r + 1, s, r + 1, s);
    }
  }

  lemma IsqrtMono(m: nat, n: nat)
    requires m <= n
    ensures Isqrt(m) <= Isqrt(n)
  {
    IsqrtLeast(m, Isqrt(n));
  }

  lemma IsqrtExact(r: nat)
    ensures Isqrt(r * r) == r
  {
    IsqrtLeast(r * r, r);
    if r > 0 {
      IsqrtLeast(r * r, r - 1);
    }
  }

  lemma MulFloorMono(target: nat, c: nat, d: nat)
    requires c <= d
    ensures MulFloor(target, c) <= MulFloor(target, d)
  {
    MulMono(c, d, target);
    DivMono(target * c, target * d, ONE);
  }

  /** i * reciprocal_floor(i) never exceeds one in 36 decimals. */
  lemma ReciprocalBound(i: nat)
    requires 0 < i
    ensures ReciprocalFloor(i).Success?
    ensures i * ReciprocalFloor(i).value <= ONE2
  {
    DivBounds(ONE2, i);
  }
}
