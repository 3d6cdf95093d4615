/** The pool as the source updates it: adjusted_target writes q0 or b0 through &mut PMMState. */
module PmmPool {
  import opened Checked
  import FixedPoint
  import TargetSolver
  import Pmm
  import opened PmmRuns
  import PmmV1
  import SaleBounds

  class PMMPool {
    var i: nat
    var k: nat
    var b: nat
    var q: nat
    var b0: nat
    var q0: nat
    var r: Pmm.RState
    var baseDecimal: Pmm.u8
    var quoteDecimal: Pmm.u8

    function Value(): Pmm.PMMState
      reads this
    {
      Pmm.PMMState(i, k, b, q, b0, q0, r, baseDecimal, quoteDecimal)
    }

    constructor (s: Pmm.PMMState)
      ensures Value() == s
    {
      i, k, b, q, b0, q0, r := s.i, s.k, s.b, s.q, s.b0, s.q0, s.r;
      baseDecimal, quoteDecimal := s.baseDecimal, s.quoteDecimal;
    }

    /** Returns the reason of a trap, which leaves the pool as it was. */
    method AdjustedTarget() returns (trap: Option<Trap>)
      modifies this`b0, this`q0
      ensures match Pmm.AdjustedTarget(old(Value()))
              case Success(t) => trap == None && Value() == t
              case Failure(e) => trap == Some(e) && Value() == old(Value())
      ensures old(Balanced(Value())) ==> trap != Some(Underflow)
      ensures old(Balanced(Value())) && trap == None ==> Adjusted(Value())
    {
      if Balanced(Value()) {
        AdjustKeeps(Value());
      }
      if r == Pmm.BelowOne {
        if b < b0 { return Some(Underflow); }
        var delta := Pmm.AdjustDecimal(baseDecimal, quoteDecimal, b - b0);
        if delta.Failure? { return Some(delta.error); }
        var target := TargetSolver.SolveTarget(q, delta.value, i, k);
        if target.Failure? { return Some(target.error); }
        q0 := target.value;
      } else if r == Pmm.AboveOne {
        if q < q0 { return Some(Underflow); }
        var delta := Pmm.AdjustDecimal(quoteDecimal, baseDecimal, q - q0);
        if delta.Failure? { return Some(delta.error); }
        var price := FixedPoint.ReciprocalFloor(i);
        if price.Failure? { return Some(price.error); }
        var target := TargetSolver.SolveTarget(b, delta.value, price.value, k);
        if target.Failure? { return Some(target.error); }
        b0 := target.value;
      }
      return None;
    }

    method AdjustedTargetV1() returns (trap: Option<Trap>)
      modifies this`b0, this`q0
      ensures match Pmm.AdjustedTargetV1(old(Value()))
              case Success(t) => trap == None && Value() == t
              case Failure(e) => trap == Some(e) && Value() == old(Value())
      ensures old(PmmV1.Positive(Value())) ==> trap == None && Adjusted(Value())
    {
      if PmmV1.Positive(Value()) {
        PmmV1.AdjustV1Traps(Value());
      }
      if r == Pmm.BelowOne {
        if b < b0 { return Some(Underflow); }
        var target := TargetSolver.SolveTarget(q, b - b0, i, k);
        if target.Failure? { return Some(target.error); }
        q0 := target.value;
      } else if r == Pmm.AboveOne {
        if q < q0 { return Some(Underflow); }
        var price := FixedPoint.ReciprocalFloor(i);
        if price.Failure? { return Some(price.error); }
        var target := TargetSolver.SolveTarget(b, q - q0, price.value, k);
        if target.Failure? { return Some(target.error); }
        b0 := target.value;
      }
      return None;
    }

    /** One trade as a single message: adjust the target in place, sell by value, move the
        reserves. A trap anywhere undoes the message, target included. */
    method Trade(op: Op) returns (result: Checked<nat>)
      modifies this
      ensures match Step(old(Value()), op)
              case Success(t) => result.Success? && Value() == t
              case Failure(e) => result == Failure(e) && Value() == old(Value())
      ensures result.Success? ==>
              match op
              case SellBase(pay) => b == old(b) + pay && old(q) == q + result.value
              case SellQuote(pay) => q == old(q) + pay && old(b) == b + result.value
      ensures old(Balanced(Value())) ==> Balanced(Value()) && result != Failure(Underflow)
      ensures old(Balanced(Value())) && SaleBounds.Near(baseDecimal, quoteDecimal) && result.Success? ==>
              SaleBounds.StepPays(old(Value()), op, Value())
    {
      if Balanced(Value()) {
        StepKeeps(Value(), op);
        SaleBounds.StepTwoSided(Value(), op);
      }
      var baseTarget, quoteTarget := b0, q0;
      var trap := AdjustedTarget();
      if trap.Some? { return Failure(trap.value); }
      var sale := Sell(Value(), op);
      if sale.Failure? {
        b0, q0 := baseTarget, quoteTarget;
        return Failure(sale.error);
      }
      var settled := Settle(Value(), op, sale.value);
      if settled.Failure? {
        b0, q0 := baseTarget, quoteTarget;
        return Failure(settled.error);
      }
      b, q, r := settled.value.b, settled.value.q, settled.value.r;
      return Success(sale.value.receive);
    }
  }
}
