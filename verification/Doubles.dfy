/** The accumulator in IEEE 754 binary64, the `double` of the code: what the format says about single
    operations, and what follows for the number of writes. */
module Doubles {
  import opened Machine
  import Pacing
  import Rounding

  function Abs(x: real): real {
    if x < 0.0 then -x else x
  }

  /** `y` is `x` rounded to nearest: off by at most `x` times 2^-53. */
  predicate Rounded(x: real, y: real) {
    Abs(y - x) <= Abs(x) / 9007199254740992.0
  }

  /** The rounded sum of two doubles. Rounding does not cross a double, here the first operand. */
  predicate Sum(p: real, x: real, y: real) {
    Rounded(p + x, y) && (x >= 0.0 ==> y >= p)
  }

  /** `y` is the double `p` less one. Rounding crosses neither `p` nor minus one. */
  predicate LessOne(p: real, y: real) {
    Rounded(p - 1.0, y) && y <= p && (p >= 0.0 ==> y >= -1.0)
  }

  /** One iteration: the microseconds counted; these as seconds; the amount; the pending amount with
      it added; and the pending amount after each subtraction. */
  datatype Iteration = Iteration(passed: uint32, seconds: real, amount: real, sum: real, differences: seq<real>)

  /** The inner loop started at `pending` makes exactly these subtractions. */
  ghost predicate Loop(pending: real, differences: seq<real>)
    decreases |differences|
  {
    if differences == [] then pending <= 0.0
    else pending > 0.0 && LessOne(pending, differences[0]) && Loop(differences[0], differences[1..])
  }

  /** The same of a loop under way, finished or not. */
  ghost predicate Turns(pending: real, differences: seq<real>)
    decreases |differences|
  {
    differences != [] ==> pending > 0.0 && LessOne(pending, differences[0]) && Turns(differences[0], differences[1..])
  }

  function End(pending: real, differences: seq<real>): real {
    if differences == [] then pending else differences[|differences| - 1]
  }

  function After(its: seq<Iteration>): real {
    if its == [] then 0.0 else End(its[|its| - 1].sum, its[|its| - 1].differences)
  }

  /** The operations of an iteration up to its inner loop, with the rate as a double and `before`
      pending. */
  ghost predicate Adds(i: Iteration, rateDouble: real, before: real) {
    && Rounded(i.passed as real / 1000000.0, i.seconds)
    && Rounded(i.seconds * rateDouble, i.amount)
    && Sum(before, i.amount, i.sum)
  }

  /** All operations of an iteration. */
  ghost predicate Operates(i: Iteration, rateDouble: real, before: real) {
    Adds(i, rateDouble, before) && Loop(i.sum, i.differences)
  }

  ghost predicate Run(its: seq<Iteration>, rateDouble: real) {
    its != [] ==>
      && Run(its[..|its| - 1], rateDouble)
      && Operates(its[|its| - 1], rateDouble, After(its[..|its| - 1]))
  }

  function Issued(its: seq<Iteration>): nat {
    if its == [] then 0 else Issued(its[..|its| - 1]) + |its[|its| - 1].differences|
  }

  function Counted(its: seq<Iteration>): nat {
    if its == [] then 0 else Counted(its[..|its| - 1]) + its[|its| - 1].passed
  }

  /** The exact number of writes due for a number of microseconds. */
  function Due(micros: nat, rate: nat): real {
    micros as real / 1000000.0 * rate as real
  }

  lemma DueAdds(m: nat, n: nat, rate: nat)
    ensures Due(m + n, rate) == Due(m, rate) + Due(n, rate)
  {
    Distribute(m as real / 1000000.0, n as real / 1000000.0, rate as real);
  }

  lemma Distribute(x: real, y: real, z: real)
    ensures (x + y) * z == x * z + y * z
  {
  }

  /** No iteration should add more than `most`. */
  ghost predicate AmountsUpTo(its: seq<Iteration>, rate: nat, most: real) {
    forall i | i in its :: Due(i.passed, rate) <= most
  }

  /** A bound on the error of every single operation. */
  function Epsilon(most: real): real {
    7.0 * most / 9007199254740992.0
  }

  /** What the errors of all additions and subtractions of a run can add up to. */
  function Drift(its: seq<Iteration>, most: real): real {
    Epsilon(most) * (|its| + Issued(its)) as real
  }

  // ---------------------------------------------------------------- single operations

  lemma ProductBetween(q: real, r: real, x: real, y: real, lo: real, hi: real)
    requires 0.0 <= q && 0.0 <= r && 0.0 <= lo
    requires lo * q <= x <= hi * q && lo * r <= y <= hi * r
    ensures lo * lo * (q * r) <= x * y <= hi * hi * (q * r)
  {
    assert 0.0 <= lo * q && 0.0 <= lo * r;
    Monotone(lo * q, x, lo * r, y);
    Monotone(x, hi * q, y, hi * r);
    Regroup(lo, q, r);
    Regroup(hi, q, r);
  }

  lemma Monotone(a: real, b: real, c: real, d: real)
    requires 0.0 <= a <= b && 0.0 <= c <= d
    ensures a * c <= b * d
  {
    assert a * c <= b * c;
    assert b * c <= b * d;
  }

  lemma Regroup(k: real, q: real, r: real)
    ensures (k * q) * (k * r) == k * k * (q * r)
  {
  }

  /** Conversion of the rate, division and multiplication together are off by at most five units. */
  lemma AmountError(i: Iteration, rate: nat, rateDouble: real)
    requires Rounded(rate as real, rateDouble)
    requires Rounded(i.passed as real / 1000000.0, i.seconds) && Rounded(i.seconds * rateDouble, i.amount)
    ensures Abs(i.amount - Due(i.passed, rate)) <= 5.0 * Due(i.passed, rate) / 9007199254740992.0
    ensures 0.0 <= Due(i.passed, rate)
  {
    hide Rounded;
    RoundedProduct(i.passed as real / 1000000.0, rate as real, i.seconds, rateDouble, i.seconds * rateDouble, i.amount);
  }

  lemma RoundedProduct(q: real, r: real, x: real, y: real, product: real, rounded: real)
    requires 0.0 <= q && 0.0 <= r && Rounded(q, x) && Rounded(r, y)
    requires product == x * y && Rounded(product, rounded)
    ensures 0.0 <= q * r && Abs(rounded - q * r) <= 5.0 * (q * r) / 9007199254740992.0
  {
    var u := 1.0 / 9007199254740992.0;
    ScaledBounds(q, x, u);
    ScaledBounds(r, y, u);
    ProductBetween(q, r, x, y, 1.0 - u, 1.0 + u);
    Monotone(0.0, q, 0.0, r);
    FiveUnits(q * r, product, rounded);
  }

  lemma ScaledBounds(x: real, y: real, u: real)
    requires 0.0 <= x && Rounded(x, y) && u == 1.0 / 9007199254740992.0
    ensures (1.0 - u) * x <= y <= (1.0 + u) * x
  {
  }

  lemma FiveUnits(exact: real, product: real, rounded: real)
    requires 0.0 <= exact && Rounded(product, rounded)
    requires (1.0 - 1.0 / 9007199254740992.0) * (1.0 - 1.0 / 9007199254740992.0) * exact <= product
    requires product <= (1.0 + 1.0 / 9007199254740992.0) * (1.0 + 1.0 / 9007199254740992.0) * exact
    ensures Abs(rounded - exact) <= 5.0 * exact / 9007199254740992.0
  {
  }

  // ---------------------------------------------------------------- down to bounded errors

  function SubErrors(pending: real, differences: seq<real>): (errors: seq<real>)
    ensures |errors| == |differences|
    decreases |differences|
  {
    if differences == [] then []
    else [differences[0] - (pending - 1.0)] + SubErrors(differences[0], differences[1..])
  }

  /** One iteration written with errors, `before` being pending. */
  function WithError(i: Iteration, rate: nat, before: real): Rounding.Iteration {
    Rounding.Iteration(Due(i.passed, rate), i.sum - (before + Due(i.passed, rate)), SubErrors(i.sum, i.differences))
  }

  /** The run with each operation written as the exact one plus an error. */
  function WithErrors(its: seq<Iteration>, rate: nat): (r: seq<Rounding.Iteration>)
    ensures |r| == |its|
  {
    if its == [] then []
    else
      var i, before := its[|its| - 1], its[..|its| - 1];
      WithErrors(before, rate) + [WithError(i, rate, After(before))]
  }

  /** The inner loop ends between minus one and zero: rounding never crosses minus one. */
  lemma {:induction false} LoopHasSmallErrors(pending: real, differences: seq<real>, most: real)
    requires 1.0 <= most && -1.0 <= pending <= 3.0 * most && Loop(pending, differences)
    ensures Rounding.Loop(pending, SubErrors(pending, differences), Epsilon(most))
    ensures Rounding.Subtract(pending, SubErrors(pending, differences)) == End(pending, differences)
    ensures -1.0 <= End(pending, differences) <= 0.0
    decreases |differences|
  {
    if differences != [] {
      var d := differences[0];
      LoopHasSmallErrors(d, differences[1..], most);
      var errors := SubErrors(pending, differences);
      assert errors[1..] == SubErrors(d, differences[1..]);
      assert pending - 1.0 + errors[0] == d;
      assert End(pending, differences) == End(d, differences[1..]);
      assert Rounding.Small(errors[0], Epsilon(most));
    }
  }

  lemma SumHasSmallError(i: Iteration, rate: nat, rateDouble: real, before: real, most: real)
    requires Rounded(rate as real, rateDouble) && Adds(i, rateDouble, before)
    requires 1.0 <= most && Due(i.passed, rate) <= most && -1.0 <= before <= 0.0
    ensures 0.0 <= Due(i.passed, rate)
    ensures Rounding.Small(i.sum - (before + Due(i.passed, rate)), Epsilon(most))
    ensures -1.0 <= i.sum <= 3.0 * most
  {
    AmountError(i, rate, rateDouble);
  }

  lemma IterationHasSmallErrors(i: Iteration, rate: nat, rateDouble: real, before: real, most: real)
    requires Rounded(rate as real, rateDouble) && Operates(i, rateDouble, before)
    requires 1.0 <= most && Due(i.passed, rate) <= most && -1.0 <= before <= 0.0
    ensures var e, eps := WithError(i, rate, before), Epsilon(most);
            && 0.0 <= e.amount && Rounding.Small(e.addError, eps)
            && before + e.amount + e.addError == i.sum
            && Rounding.Loop(i.sum, e.subErrors, eps)
            && Rounding.Subtract(i.sum, e.subErrors) == End(i.sum, i.differences)
            && |e.subErrors| == |i.differences| && -1.0 <= End(i.sum, i.differences) <= 0.0
  {
    SumHasSmallError(i, rate, rateDouble, before, most);
    LoopHasSmallErrors(i.sum, i.differences, most);
  }

  /** A run of doubles is a run with bounded errors, and its pending amount stays within [-1, 0]. */
  lemma {:induction false} RunHasSmallErrors(its: seq<Iteration>, rate: nat, rateDouble: real, most: real)
    requires Rounded(rate as real, rateDouble) && Run(its, rateDouble)
    requires 1.0 <= most && AmountsUpTo(its, rate, most)
    ensures var r := WithErrors(its, rate);
            && Rounding.Run(r, Epsilon(most))
            && Rounding.After(r) == After(its) && Rounding.Issued(r) == Issued(its)
    ensures -1.0 <= After(its) <= 0.0
  {
    hide Due, Epsilon, Rounded, Rounding.Loop, Rounding.Subtract;
    if its != [] {
      var i, before := its[|its| - 1], its[..|its| - 1];
      RunHasSmallErrors(before, rate, rateDouble, most);
      assert i in its;
      IterationHasSmallErrors(i, rate, rateDouble, After(before), most);
      Rounding.Append(WithErrors(before, rate), WithError(i, rate, After(before)), Epsilon(most));
    }
  }

  lemma NothingIsDue(rate: nat)
    ensures Due(0, rate) == 0.0
  {
  }

  lemma {:induction false} AmountIsCounted(its: seq<Iteration>, rate: nat)
    ensures Rounding.Amount(WithErrors(its, rate)) == Due(Counted(its), rate)
  {
    if its == [] {
      NothingIsDue(rate);
    } else {
      hide Due;
      var i, before := its[|its| - 1], its[..|its| - 1];
      AmountIsCounted(before, rate);
      Rounding.Append(WithErrors(before, rate), WithError(i, rate, After(before)), 0.0);
      DueAdds(Counted(before), i.passed, rate);
    }
  }

  lemma DriftInDoubles(its: seq<Iteration>, rate: nat, rateDouble: real, most: real)
    requires Rounded(rate as real, rateDouble) && Run(its, rateDouble)
    requires 1.0 <= most && AmountsUpTo(its, rate, most)
    ensures var drift := Rounding.Times(Epsilon(most), |its| + Issued(its));
            -drift <= Issued(its) as real - Rounding.Amount(WithErrors(its, rate)) <= 1.0 + drift
  {
    RunHasSmallErrors(its, rate, rateDouble, most);
    Rounding.RunDrift(WithErrors(its, rate), Epsilon(most));
  }

  /** In doubles, the number of writes is the rate times the counted time, or at most one more, up to
      seven units of the largest amount for every addition and subtraction made. */
  lemma PacedInDoubles(its: seq<Iteration>, rate: nat, rateDouble: real, most: real)
    requires Rounded(rate as real, rateDouble) && Run(its, rateDouble)
    requires 1.0 <= most && AmountsUpTo(its, rate, most)
    ensures -Drift(its, most) <= Issued(its) as real - Due(Counted(its), rate) <= 1.0 + Drift(its, most)
  {
    hide Due, Epsilon, AmountsUpTo, Run, Rounding.Times, Rounding.Amount, WithErrors;
    DriftInDoubles(its, rate, rateDouble, most);
    AmountIsCounted(its, rate);
    Rounding.TimesIsProduct(Epsilon(most), |its| + Issued(its));
  }

  // ---------------------------------------------------------------- termination of the inner loop

  lemma {:induction false} TurnsHaveSmallErrors(pending: real, differences: seq<real>, most: real)
    requires 1.0 <= most && -1.0 <= pending <= 3.0 * most && Turns(pending, differences)
    ensures Rounding.Turns(pending, SubErrors(pending, differences), Epsilon(most))
    decreases |differences|
  {
    if differences != [] {
      var d := differences[0];
      TurnsHaveSmallErrors(d, differences[1..], most);
      var errors := SubErrors(pending, differences);
      assert errors[1..] == SubErrors(d, differences[1..]);
      assert pending - 1.0 + errors[0] == d;
      assert Rounding.Small(errors[0], Epsilon(most));
    }
  }

  /** In doubles an inner loop ends: started from fewer than 3 * 2^50 writes, the subtractions it can
      have made at any time are bounded by what it started with. */
  lemma LoopEndsInDoubles(pending: real, differences: seq<real>, most: real)
    requires 1.0 <= most < 1125899906842624.0 && -1.0 <= pending <= 3.0 * most && Turns(pending, differences)
    ensures differences != [] ==> (1.0 - Epsilon(most)) * (|differences| - 1) as real < pending
    ensures Epsilon(most) < 1.0
  {
    TurnsHaveSmallErrors(pending, differences, most);
    Rounding.LoopIsShort(pending, SubErrors(pending, differences), Epsilon(most));
  }

  /** Some bound is needed: subtracting one may leave a positive double as it is exactly from
      2^53 + 1 on, and then a loop may turn any number of times. */
  lemma StandsStillIff(p: real)
    requires p > 0.0
    ensures LessOne(p, p) <==> p >= 9007199254740993.0
  {
  }

  lemma {:induction false} LargeLoopsMayTurnForEver(p: real, turns: nat)
    requires p >= 9007199254740993.0
    ensures Turns(p, seq(turns, _ => p))
  {
    if turns > 0 {
      StandsStillIff(p);
      LargeLoopsMayTurnForEver(p, turns - 1);
      assert seq(turns, _ => p)[1..] == seq(turns - 1, _ => p);
    }
  }

  lemma DueIsBounded(micros: uint32, rate: nat)
    requires rate < 0x8000_0000
    ensures Due(micros, rate) <= 17592186044416.0
  {
    var seconds, r := micros as real / 1000000.0, rate as real;
    Monotone(seconds, 4295.0, r, 2147483648.0);
  }

  /** For every rate that is a non-negative `int`, and so for every rate that can be given as decimal
      digits within `int` range, every inner loop of every iteration ends in doubles, whatever time
      was counted: at any time it has made at most twice as many turns as were pending, plus one. */
  lemma EveryInnerLoopEnds(i: Iteration, rate: nat, rateDouble: real, before: real)
    requires rate < 0x8000_0000 && Rounded(rate as real, rateDouble)
    requires -1.0 <= before <= 0.0 && Adds(i, rateDouble, before) && Turns(i.sum, i.differences)
    ensures i.sum <= 52776558133248.0
    ensures i.differences != [] ==> (|i.differences| - 1) as real <= 2.0 * i.sum
  {
    var most := 17592186044416.0;
    DueIsBounded(i.passed, rate);
    SumHasSmallError(i, rate, rateDouble, before, most);
    LoopEndsInDoubles(i.sum, i.differences, most);
    if i.differences != [] {
      var n := (|i.differences| - 1) as real;
      assert Epsilon(most) <= 0.5;
      Monotone(0.5, 1.0 - Epsilon(most), n, n);
    }
  }

  /** So no run of such a rate ever hangs in its next iteration. */
  lemma NoRunHangs(its: seq<Iteration>, i: Iteration, rate: nat, rateDouble: real)
    requires rate < 0x8000_0000 && Rounded(rate as real, rateDouble)
    requires Run(its, rateDouble) && Adds(i, rateDouble, After(its)) && Turns(i.sum, i.differences)
    ensures i.sum <= 52776558133248.0
    ensures i.differences != [] ==> (|i.differences| - 1) as real <= 2.0 * i.sum
  {
    forall j | j in its
      ensures Due(j.passed, rate) <= 17592186044416.0
    {
      DueIsBounded(j.passed, rate);
    }
    RunHasSmallErrors(its, rate, rateDouble, 17592186044416.0);
    EveryInnerLoopEnds(i, rate, rateDouble, After(its));
  }

  // ---------------------------------------------------------------- doubles against exact arithmetic

  lemma {:induction false} CountedByClock(its: seq<Iteration>, c: Pacing.Clock)
    requires forall i | 0 <= i < |its| :: its[i].passed == Pacing.Passed(c, i)
    ensures Counted(its) == Pacing.Counted(c, |its|)
  {
    if its != [] {
      CountedByClock(its[..|its| - 1], c);
    }
  }

  lemma DueInMillionths(micros: nat, rate: nat)
    ensures Due(micros, rate) * 1000000.0 == (rate * micros) as real
  {
    var x, r := micros as real, rate as real;
    assert Due(micros, rate) * 1000000.0 == x * r by {
      assert x / 1000000.0 * r == x * r / 1000000.0;
    }
    ProductAsReal(micros, rate);
  }

  lemma ProductAsReal(m: nat, n: nat)
    ensures m as real * n as real == (n * m) as real
  {
  }

  /** On the same clock, the count in doubles is the count of exact arithmetic, give or take one, at
      the end of every iteration until the rounding errors of all operations could add up to one. */
  lemma OffByAtMostOne(its: seq<Iteration>, c: Pacing.Clock, rate: nat, rateDouble: real, most: real)
    requires Rounded(rate as real, rateDouble) && Run(its, rateDouble)
    requires 1.0 <= most && AmountsUpTo(its, rate, most)
    requires forall i | 0 <= i < |its| :: its[i].passed == Pacing.Passed(c, i)
    requires Drift(its, most) < 1.0
    ensures -1 <= Issued(its) - Pacing.After(c, rate, |its|).issued <= 1
  {
    hide Due, Drift, Rounded, Run, AmountsUpTo, Issued, Counted, Pacing.After, Pacing.Counted, Pacing.Passed;
    PacedInDoubles(its, rate, rateDouble, most);
    CountedByClock(its, c);
    Pacing.PendingIsTheRest(c, rate, |its|);
    DueInMillionths(Counted(its), rate);
    WithinOne(Issued(its), Pacing.After(c, rate, |its|), Due(Counted(its), rate), rate * Counted(its),
              Drift(its, most));
  }

  lemma WithinOne(issued: nat, p: Pacing.Pacer, due: real, millionths: nat, drift: real)
    requires -drift <= issued as real - due <= 1.0 + drift && drift < 1.0
    requires due * 1000000.0 == millionths as real
    requires -Pacing.MILLION < p.pending <= 0 && p.pending + Pacing.MILLION * p.issued == millionths
    ensures -1 <= issued - p.issued <= 1
  {
    assert 1000000.0 * p.issued as real - 1000000.0 < millionths as real <= 1000000.0 * p.issued as real;
    assert -2.0 < issued as real - p.issued as real < 2.0;
  }
}
