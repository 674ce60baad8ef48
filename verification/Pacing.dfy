/** How many writes the benchmark issues over time. Time is in nanoseconds; amounts of writes
    waiting to be issued are exact, in millionths of a write. */
module Pacing {
  import opened Machine

  const MILLION: int := 1_000_000

  /** What `steady_clock::now()` answers: once before the loop, then once per iteration. */
  datatype Clock = Clock(start: int, reading: nat -> int)

  /** At least one millisecond of sleep separates readings `i` and `i + 1`. */
  ghost predicate Sleeps(c: Clock, i: nat) {
    c.reading(i) + MILLION <= c.reading(i + 1)
  }

  ghost predicate Steady(c: Clock) {
    c.start <= c.reading(0) && forall i: nat :: Sleeps(c, i)
  }

  function Previous(c: Clock, n: nat): int {
    if n == 0 then c.start else c.reading(n - 1)
  }

  /** The whole microseconds iteration `n` counts, as a 32-bit number. */
  function Passed(c: Clock, n: nat): uint32 {
    Wrap32((c.reading(n) - Previous(c, n)) / 1000)
  }

  /** All microseconds counted by the first `n` iterations. */
  function Counted(c: Clock, n: nat): nat {
    if n == 0 then 0 else Counted(c, n - 1) + Passed(c, n - 1)
  }

  // ---------------------------------------------------------------- the accumulator

  /** The pending amount and the writes issued so far. */
  datatype Pacer = Pacer(pending: int, issued: nat)

  /** The inner loop: one write for every started unit. */
  function Drain(p: Pacer): Pacer
    decreases p.pending
  {
    if p.pending > 0 then Drain(Pacer(p.pending - MILLION, p.issued + 1)) else p
  }

  /** The state after `n` iterations. */
  function After(c: Clock, rate: nat, n: nat): Pacer {
    if n == 0 then Pacer(0, 0)
    else
      var p := After(c, rate, n - 1);
      Drain(p.(pending := p.pending + Passed(c, n - 1) * rate))
  }

  /** One turn of the inner loop, and one of the outer loop. */
  lemma DrainOne(p: Pacer)
    ensures p.pending > 0 ==> Drain(p) == Drain(Pacer(p.pending - MILLION, p.issued + 1))
    ensures p.pending <= 0 ==> Drain(p) == p
    ensures p.pending - MILLION < p.pending
  {
  }

  lemma AfterOne(c: Clock, rate: nat, n: nat)
    ensures After(c, rate, n + 1)
            == Drain(Pacer(After(c, rate, n).pending + Passed(c, n) * rate, After(c, rate, n).issued))
  {
  }

  /** Draining conserves pending plus issued and stops with less than one write overdrawn. */
  lemma {:induction false} DrainConserves(p: Pacer)
    requires p.pending > -MILLION
    ensures var r := Drain(p);
            && r.pending + MILLION * r.issued == p.pending + MILLION * p.issued
            && -MILLION < r.pending <= 0
            && r.issued >= p.issued
    decreases p.pending
  {
    if p.pending > 0 {
      DrainConserves(Pacer(p.pending - MILLION, p.issued + 1));
    }
  }

  /** One iteration from a settled accumulator. */
  lemma IterationConserves(c: Clock, rate: nat, n: nat)
    requires n > 0 && -MILLION < After(c, rate, n - 1).pending
    ensures var p, r := After(c, rate, n - 1), After(c, rate, n);
            && r.pending + MILLION * r.issued == p.pending + Passed(c, n - 1) * rate + MILLION * p.issued
            && -MILLION < r.pending <= 0 && r.issued >= p.issued
  {
    var p := After(c, rate, n - 1);
    DrainConserves(p.(pending := p.pending + Passed(c, n - 1) * rate));
  }

  /** At the end of every iteration, pending plus issued is the counted time times the rate. */
  lemma {:induction false} PendingIsTheRest(c: Clock, rate: nat, n: nat)
    ensures var p := After(c, rate, n);
            -MILLION < p.pending <= 0 && p.pending + MILLION * p.issued == rate * Counted(c, n)
  {
    if n > 0 {
      PendingIsTheRest(c, rate, n - 1);
      IterationConserves(c, rate, n);
      Distribute(rate, Counted(c, n - 1), Passed(c, n - 1));
    }
  }

  lemma Distribute(rate: int, x: int, y: int)
    ensures rate * (x + y) == rate * x + y * rate
  {
  }

  /** The writes issued are the counted time times the rate, rounded up. */
  lemma IssuedIsCeiling(c: Clock, rate: nat, n: nat)
    ensures After(c, rate, n).issued == (rate * Counted(c, n) + MILLION - 1) / MILLION
  {
    PendingIsTheRest(c, rate, n);
    CeilingFromRest(rate * Counted(c, n), After(c, rate, n).pending, After(c, rate, n).issued);
  }

  lemma CeilingFromRest(x: int, pending: int, issued: int)
    requires -MILLION < pending <= 0 && pending + MILLION * issued == x
    ensures issued == (x + MILLION - 1) / MILLION
  {
  }

  lemma {:induction false} IssuedGrows(c: Clock, rate: nat, m: nat, n: nat)
    requires m <= n
    ensures After(c, rate, m).issued <= After(c, rate, n).issued
  {
    if m < n {
      IssuedGrows(c, rate, m, n - 1);
      PendingIsTheRest(c, rate, n - 1);
      IterationConserves(c, rate, n);
    }
  }

  /** Between the ends of any two iterations, the number of writes is off the rate by less than one. */
  lemma PacedOverAnyWindow(c: Clock, rate: nat, m: nat, n: nat)
    requires m <= n
    ensures var writes := After(c, rate, n).issued - After(c, rate, m).issued;
            var counted := Counted(c, n) - Counted(c, m);
            -MILLION < MILLION * writes - rate * counted < MILLION
  {
    PendingIsTheRest(c, rate, m);
    PendingIsTheRest(c, rate, n);
    var x: int, y: int := Counted(c, n), Counted(c, m);
    Distribute(rate, x, -y);
  }

  // ---------------------------------------------------------------- counted and elapsed time

  /** How often the 32-bit number of microseconds wraps in iteration `n`. */
  function Wraps(c: Clock, n: nat): int {
    (c.reading(n) - Previous(c, n)) / 1000 / WORD32
  }

  /** The nanoseconds that the first `n` iterations lose to wrapping. */
  function Lost(c: Clock, n: nat): int {
    if n == 0 then 0 else Lost(c, n - 1) + 1000 * WORD32 * Wraps(c, n - 1)
  }

  lemma {:induction false} ReadingsAdvance(c: Clock, n: nat)
    requires Steady(c)
    ensures c.start + n * MILLION <= c.reading(n)
    ensures Previous(c, n) <= c.reading(n)
  {
    if n > 0 {
      ReadingsAdvance(c, n - 1);
      assert Sleeps(c, n - 1);
    }
  }

  /** Nothing is lost exactly when every gap between readings is below 2^32 microseconds. */
  lemma {:induction false} NothingLostIff(c: Clock, n: nat)
    requires Steady(c)
    ensures Lost(c, n) >= 0
    ensures Lost(c, n) == 0 <==> forall i: nat | i < n :: GapFits(c, i)
  {
    if n > 0 {
      NothingLostIff(c, n - 1);
      ReadingsAdvance(c, n - 1);
      WrapsIff((c.reading(n - 1) - Previous(c, n - 1)) / 1000);
      assert Wraps(c, n - 1) >= 0 && (Wraps(c, n - 1) == 0 <==> GapFits(c, n - 1));
    }
  }

  /** The time since the previous reading is below 2^32 microseconds. */
  ghost predicate GapFits(c: Clock, i: nat) {
    (c.reading(i) - Previous(c, i)) / 1000 < WORD32
  }

  lemma WrapsIff(x: nat)
    ensures x / WORD32 >= 0 && (x / WORD32 == 0 <==> x < WORD32)
  {
  }

  /** Apart from wrapping, an iteration drops the microsecond it has not completed, and nothing else. */
  lemma PassedTruncates(c: Clock, n: nat)
    ensures 0 <= c.reading(n) - Previous(c, n) - 1000 * Passed(c, n) - 1000 * WORD32 * Wraps(c, n) < 1000
  {
    var gap := c.reading(n) - Previous(c, n);
    var micros := gap / 1000;
    assert micros == WORD32 * Wraps(c, n) + Passed(c, n);
  }

  /** Counted time is at most the elapsed time that was not lost, and short of it by less than a
      microsecond per iteration. */
  lemma {:induction false} CountedFallsShort(c: Clock, n: nat)
    ensures 0 <= Previous(c, n) - c.start - Lost(c, n) - 1000 * Counted(c, n) <= 1000 * n
    ensures n > 0 ==> Previous(c, n) - c.start - Lost(c, n) - 1000 * Counted(c, n) < 1000 * n
  {
    if n > 0 {
      CountedFallsShort(c, n - 1);
      PassedTruncates(c, n - 1);
    }
  }

  /** The shortfall against real elapsed time, at the last reading of `n` iterations, is below one
      thousandth of it plus one microsecond, plus what was lost to wrapping. */
  lemma ShortfallIsOnePerMille(c: Clock, n: nat)
    requires n > 0 && Steady(c)
    ensures var elapsed := c.reading(n - 1) - c.start;
            var shortfall := elapsed - Lost(c, n) - 1000 * Counted(c, n);
            0 <= shortfall < 1000 * n && 1000 * shortfall < elapsed + MILLION
  {
    CountedFallsShort(c, n);
    ReadingsAdvance(c, n - 1);
  }

  /** Hence the writes issued by then, against real elapsed time: less than one more than the rate
      times the time not lost, and at least the rate times 99.9 percent of the elapsed time less
      one microsecond and the time lost. Without a gap of 2^32 microseconds nothing is lost. */
  lemma PacedInRealTime(c: Clock, rate: nat, n: nat)
    requires n > 0 && Steady(c)
    ensures var elapsed := c.reading(n - 1) - c.start;
            var issued := After(c, rate, n).issued;
            && 1000 * MILLION * issued < rate * (elapsed - Lost(c, n)) + 1000 * MILLION
            && MILLION * MILLION * issued >= rate * (999 * elapsed - MILLION - 1000 * Lost(c, n))
  {
    var elapsed, counted := c.reading(n - 1) - c.start - Lost(c, n), Counted(c, n);
    ShortfallIsOnePerMille(c, n);
    PendingIsTheRest(c, rate, n);
    Scale(rate, 1000 * counted, elapsed);
    Scale(rate, 999 * (c.reading(n - 1) - c.start) - MILLION - 1000 * Lost(c, n), MILLION * counted);
    Regroup(rate, 1000, counted);
    Regroup(rate, MILLION, counted);
  }

  lemma Regroup(rate: int, k: int, x: int)
    ensures rate * (k * x) == k * (rate * x)
  {
  }

  lemma Scale(rate: nat, x: int, y: int)
    requires x <= y
    ensures rate * x <= rate * y
  {
  }

  /** A run of `seconds` has fewer than 1000 iterations per second, plus the last reading. */
  lemma RunsEnd(c: Clock, seconds: nat, n: nat)
    requires Steady(c) && c.reading(n) < c.start + seconds * 1000 * MILLION
    ensures n < 1000 * seconds
  {
    ReadingsAdvance(c, n);
  }

  // ---------------------------------------------------------------- finished runs

  /** The first `n` readings are less than so many seconds after the start. */
  ghost predicate StillRuns(c: Clock, seconds: nat, n: nat) {
    forall i: nat | i < n :: c.reading(i) - c.start < 1_000_000_000 * seconds
  }

  /** And reading `n` is not. */
  ghost predicate LastsFor(c: Clock, seconds: nat, n: nat) {
    StillRuns(c, seconds, n) && c.reading(n) - c.start >= 1_000_000_000 * seconds
  }

  lemma NotOverYet(c: Clock, seconds: nat)
    ensures StillRuns(c, seconds, 0)
  {
  }

  lemma RunsOn(c: Clock, seconds: nat, n: nat)
    requires StillRuns(c, seconds, n) && c.reading(n) < c.start + seconds * 1000 * MILLION
    ensures StillRuns(c, seconds, n + 1)
  {
  }

  /** Reading `i` comes at most `gap` nanoseconds after the previous one. */
  ghost predicate GapAtMost(c: Clock, i: nat, gap: nat) {
    c.reading(i) - Previous(c, i) <= gap
  }

  ghost predicate GapsAtMost(c: Clock, n: nat, gap: nat) {
    forall i: nat | i <= n :: GapAtMost(c, i, gap)
  }

  /** A finished run never makes more writes than the rate times its seconds. */
  lemma FinishedRunIsNotTooFast(c: Clock, rate: nat, seconds: nat, n: nat)
    requires Steady(c) && LastsFor(c, seconds, n)
    ensures After(c, rate, n).issued <= rate * seconds
  {
    if n > 0 {
      PacedInRealTime(c, rate, n);
      NothingLostIff(c, n);
      Scale(rate, c.reading(n - 1) - c.start - Lost(c, n), 1_000_000_000 * seconds);
      Regroup(rate, 1_000_000_000, seconds);
      AtMostWhole(After(c, rate, n).issued, rate * seconds);
    } else {
      Scale(rate, 0, seconds);
    }
  }

  /** And it misses of them at most those due within the largest gap between readings and a
      thousandth of its duration, plus a microsecond and what was lost to wrapping. */
  lemma FinishedRunIsNotTooSlow(c: Clock, rate: nat, seconds: nat, n: nat, gap: nat)
    requires Steady(c) && LastsFor(c, seconds, n) && GapsAtMost(c, n, gap)
    ensures MILLION * MILLION * After(c, rate, n).issued
            >= rate * (999 * (1_000_000_000 * seconds - gap) - MILLION - 1000 * Lost(c, n))
  {
    var lost, issued := Lost(c, n), After(c, rate, n).issued;
    assert GapAtMost(c, n, gap);
    if n > 0 {
      var elapsed := c.reading(n - 1) - c.start;
      assert MILLION * MILLION * issued >= rate * (999 * elapsed - MILLION - 1000 * lost) by {
        PacedInRealTime(c, rate, n);
      }
      StillAtLeast(rate, elapsed, 1_000_000_000 * seconds - gap, lost, MILLION * MILLION * issued);
    } else {
      NothingDue(rate, 999 * (1_000_000_000 * seconds - gap) - MILLION);
    }
  }

  lemma NothingDue(rate: nat, x: int)
    requires x <= 0
    ensures rate * x <= 0
  {
  }

  lemma StillAtLeast(rate: nat, elapsed: int, less: int, lost: int, z: int)
    requires less <= elapsed && rate * (999 * elapsed - MILLION - 1000 * lost) <= z
    ensures rate * (999 * less - MILLION - 1000 * lost) <= z
  {
    Scale(rate, 999 * less - MILLION - 1000 * lost, 999 * elapsed - MILLION - 1000 * lost);
  }

  /** Nothing is lost to wrapping if that gap is below 2^32 microseconds. */
  lemma SmallGapsLoseNothing(c: Clock, n: nat, gap: nat)
    requires Steady(c) && GapsAtMost(c, n, gap) && gap < 1000 * WORD32
    ensures Lost(c, n) == 0
  {
    forall i: nat | i < n
      ensures GapFits(c, i)
    {
      assert GapAtMost(c, i, gap);
    }
    NothingLostIff(c, n);
  }

  lemma AtMostWhole(x: int, y: int)
    requires 1_000_000_000 * x < 1_000_000_000 * y + 1_000_000_000
    ensures x <= y
  {
  }
}
