/** The accumulator as the floating-point variable it is: every addition and every subtraction may
    be off by up to `eps`. How far rounding can carry the number of writes away from the rate. */
module Rounding {
  import Pacing

  /** One iteration: the exact amount it should add, the error of adding it, and one error for
      each subtraction of its inner loop. */
  datatype Iteration = Iteration(amount: real, addError: real, subErrors: seq<real>)

  predicate Small(e: real, eps: real) {
    -eps <= e <= eps
  }

  /** The pending amount after the subtractions of an inner loop. */
  function Subtract(pending: real, errors: seq<real>): real
    decreases |errors|
  {
    if errors == [] then pending else Subtract(pending - 1.0 + errors[0], errors[1..])
  }

  /** The inner loop started at `pending` makes exactly these subtractions. */
  ghost predicate Loop(pending: real, errors: seq<real>, eps: real)
    decreases |errors|
  {
    if errors == [] then pending <= 0.0
    else pending > 0.0 && Small(errors[0], eps) && Loop(pending - 1.0 + errors[0], errors[1..], eps)
  }

  /** The pending amount after a list of iterations. */
  function After(its: seq<Iteration>): real {
    if its == [] then 0.0
    else
      var i := its[|its| - 1];
      Subtract(After(its[..|its| - 1]) + i.amount + i.addError, i.subErrors)
  }

  ghost predicate Run(its: seq<Iteration>, eps: real) {
    its != [] ==>
      var i, before := its[|its| - 1], its[..|its| - 1];
      && Run(before, eps)
      && 0.0 <= i.amount && Small(i.addError, eps)
      && Loop(After(before) + i.amount + i.addError, i.subErrors, eps)
  }

  function Issued(its: seq<Iteration>): nat {
    if its == [] then 0 else Issued(its[..|its| - 1]) + |its[|its| - 1].subErrors|
  }

  function Amount(its: seq<Iteration>): real {
    if its == [] then 0.0 else Amount(its[..|its| - 1]) + its[|its| - 1].amount
  }

  /** What one more iteration adds to a run. */
  lemma Append(its: seq<Iteration>, i: Iteration, eps: real)
    ensures After(its + [i]) == Subtract(After(its) + i.amount + i.addError, i.subErrors)
    ensures Issued(its + [i]) == Issued(its) + |i.subErrors|
    ensures Amount(its + [i]) == Amount(its) + i.amount
    ensures Run(its + [i], eps) <==>
            && Run(its, eps)
            && 0.0 <= i.amount && Small(i.addError, eps)
            && Loop(After(its) + i.amount + i.addError, i.subErrors, eps)
  {
    assert (its + [i])[..|its|] == its;
  }

  /** `n` errors of size `eps`. */
  function Times(eps: real, n: nat): real {
    if n == 0 then 0.0 else Times(eps, n - 1) + eps
  }

  lemma {:induction false} TimesIsProduct(eps: real, n: nat)
    ensures Times(eps, n) == eps * n as real
  {
    if n > 0 {
      TimesIsProduct(eps, n - 1);
      assert eps * n as real == eps * (n - 1) as real + eps;
    }
  }

  lemma {:induction false} TimesAdd(eps: real, m: nat, n: nat)
    ensures Times(eps, m + n) == Times(eps, m) + Times(eps, n)
  {
    if n > 0 {
      TimesAdd(eps, m, n - 1);
    }
  }

  lemma {:induction false} TimesIsPositive(eps: real, n: nat)
    requires 0.0 <= eps
    ensures 0.0 <= Times(eps, n)
  {
    if n > 0 {
      TimesIsPositive(eps, n - 1);
    }
  }

  /** An inner loop ends at most one write and one error below zero, having drifted by at most one
      error per subtraction. */
  lemma {:induction false} LoopDrift(pending: real, errors: seq<real>, eps: real)
    requires 0.0 <= eps && Loop(pending, errors, eps)
    ensures errors != [] ==> -1.0 - eps < Subtract(pending, errors)
    ensures Subtract(pending, errors) <= 0.0
    ensures Small(Subtract(pending, errors) - (pending - |errors| as real), Times(eps, |errors|))
    decreases |errors|
  {
    if errors != [] {
      LoopDrift(pending - 1.0 + errors[0], errors[1..], eps);
    }
  }

  /** An inner loop started at `pending` has made these subtractions so far, finished or not. */
  ghost predicate Turns(pending: real, errors: seq<real>, eps: real)
    decreases |errors|
  {
    errors != [] ==> pending > 0.0 && Small(errors[0], eps) && Turns(pending - 1.0 + errors[0], errors[1..], eps)
  }

  lemma {:induction false} TurnsSpendPending(pending: real, errors: seq<real>, eps: real)
    requires 0.0 <= eps < 1.0 && Turns(pending, errors, eps)
    ensures errors != [] ==> Times(1.0 - eps, |errors| - 1) < pending
    decreases |errors|
  {
    if |errors| > 1 {
      TurnsSpendPending(pending - 1.0 + errors[0], errors[1..], eps);
    }
  }

  /** With errors below one, an inner loop ends: the subtractions it can have made at any time are
      bounded by the amount it started with. */
  lemma LoopIsShort(pending: real, errors: seq<real>, eps: real)
    requires 0.0 <= eps < 1.0 && Turns(pending, errors, eps)
    ensures errors != [] ==> (1.0 - eps) * (|errors| - 1) as real < pending
  {
    TurnsSpendPending(pending, errors, eps);
    if errors != [] {
      TimesIsProduct(1.0 - eps, |errors| - 1);
    }
  }

  /** A finished loop is one under way that may not turn once more. */
  lemma {:induction false} LoopIsFinishedTurns(pending: real, errors: seq<real>, eps: real)
    ensures Loop(pending, errors, eps) <==> Turns(pending, errors, eps) && Subtract(pending, errors) <= 0.0
    decreases |errors|
  {
    if errors != [] {
      LoopIsFinishedTurns(pending - 1.0 + errors[0], errors[1..], eps);
    }
  }

  /** One more iteration drifts by at most one error per operation it makes. */
  lemma IterationDrift(its: seq<Iteration>, eps: real)
    requires its != [] && 0.0 <= eps && Run(its, eps)
    ensures var before, i := its[..|its| - 1], its[|its| - 1];
            && After(its) <= 0.0
            && (-1.0 - eps < After(its) || After(before) - eps <= After(its))
            && Small(After(its) - (After(before) + i.amount - |i.subErrors| as real), Times(eps, |i.subErrors|) + eps)
  {
    var before, i := its[..|its| - 1], its[|its| - 1];
    LoopDrift(After(before) + i.amount + i.addError, i.subErrors, eps);
  }

  lemma {:induction false} PendingBounds(its: seq<Iteration>, eps: real)
    requires 0.0 <= eps && Run(its, eps)
    ensures -1.0 - eps - Times(eps, |its|) <= After(its) <= 0.0
  {
    if its != [] {
      PendingBounds(its[..|its| - 1], eps);
      IterationDrift(its, eps);
      TimesIsPositive(eps, |its|);
    }
  }

  /** The pending amount is the exact one up to one error per operation. */
  lemma {:induction false} RunDrift(its: seq<Iteration>, eps: real)
    requires 0.0 <= eps && Run(its, eps)
    ensures Small(After(its) - (Amount(its) - Issued(its) as real), Times(eps, |its| + Issued(its)))
  {
    if its != [] {
      var before, i := its[..|its| - 1], its[|its| - 1];
      RunDrift(before, eps);
      IterationDrift(its, eps);
      TimesAdd(eps, |before| + Issued(before), |i.subErrors| + 1);
      assert |its| + Issued(its) == |before| + Issued(before) + (|i.subErrors| + 1);
    }
  }

  lemma RunDriftAndBounds(its: seq<Iteration>, eps: real)
    requires 0.0 <= eps && Run(its, eps)
    ensures var drift := Times(eps, |its| + Issued(its));
            -drift <= Issued(its) as real - Amount(its) <= 1.0 + Times(eps, |its| + 1) + drift
  {
    RunDrift(its, eps);
    PendingBounds(its, eps);
  }

  /** The number of writes stays within one write of the exact amount, give or take one error per
      iteration, one more per operation, and one for the last overdraft. */
  lemma RoundedPacing(its: seq<Iteration>, eps: real)
    requires 0.0 <= eps && Run(its, eps)
    ensures var drift := eps * (|its| + Issued(its)) as real;
            -drift <= Issued(its) as real - Amount(its) <= 1.0 + eps * (|its| + 1) as real + drift
  {
    hide Times, Run, Amount;
    RunDriftAndBounds(its, eps);
    TimesIsProduct(eps, |its| + Issued(its));
    TimesIsProduct(eps, |its| + 1);
  }

  // ---------------------------------------------------------------- the exact case

  /** `x`, in writes, is `n` millionths of a write. */
  predicate Millionths(x: real, n: int) {
    x * 1000000.0 == n as real
  }

  /** Without errors, the inner loop makes the subtractions of the exact accumulator. */
  lemma {:induction false} ExactLoopIsDrain(pending: real, errors: seq<real>, p: Pacing.Pacer)
    requires Loop(pending, errors, 0.0) && Millionths(pending, p.pending)
    ensures var r := Pacing.Drain(p);
            Millionths(Subtract(pending, errors), r.pending) && r.issued == p.issued + |errors|
    decreases |errors|
  {
    if errors != [] {
      ExactLoopIsDrain(pending - 1.0 + errors[0], errors[1..],
                       Pacing.Pacer(p.pending - Pacing.MILLION, p.issued + 1));
    }
  }

  /** Without errors, and with the amounts of a clock and a rate, this is the exact accumulator. */
  lemma {:induction false} ExactRunIsPacer(its: seq<Iteration>, c: Pacing.Clock, rate: nat)
    requires Run(its, 0.0)
    requires forall i | 0 <= i < |its| :: Millionths(its[i].amount, Pacing.Passed(c, i) * rate)
    ensures var p := Pacing.After(c, rate, |its|); Millionths(After(its), p.pending) && Issued(its) == p.issued
  {
    if its != [] {
      var before, i := its[..|its| - 1], its[|its| - 1];
      ExactRunIsPacer(before, c, rate);
      var p := Pacing.After(c, rate, |before|);
      Pacing.AfterOne(c, rate, |before|);
      ExactLoopIsDrain(After(before) + i.amount + i.addError, i.subErrors,
                       Pacing.Pacer(p.pending + Pacing.Passed(c, |before|) * rate, p.issued));
    }
  }
}
