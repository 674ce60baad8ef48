/** What the parts guarantee together, for every clock, every stream of random numbers and every
    timer behaviour. */
module Compositions {
  import opened Machine
  import opened Journal
  import opened LastWriter
  import opened Config
  import opened Pacing
  import opened BlobCache
  import opened Traces
  import opened Backends
  import opened Benchmark
  import CommandLine
  import Jelly
  import RocksDBStore
  import SQLiteNode

  // ---------------------------------------------------------------- driver and nodes

  /** At every point of a run of at most 2^32 writes, SQLite has accepted every write, and the
      SQLite table, the RocksDB families and the last write to each key are the same data. */
  lemma NodesAgreeThroughout(p: Plan, n: nat, total: nat)
    requires Numbered(p) && During(p, n, total) && total <= WORD32
    ensures var ws := WritesOf(PartialTrace(p, n, total));
            && ws == Stream(p, 0, total)
            && SQLiteNode.Upserts(ws) == Some(SQLiteNode.LastWrites(ws))
            && RocksDBStore.SetAll(RocksDBStore.EMPTY, ws) == RocksDBStore.Split(SQLiteNode.LastWrites(ws))
  {
    TraceWritesDuring(p, n, total);
    StreamIsAccepted(p, total);
    SQLiteNode.AcceptedIffStrict(Stream(p, 0, total));
    RocksDBStore.CompleteRunRefinesRegister(Stream(p, 0, total));
  }

  /** No key is written twice with a later write whose wrapped number is not larger. */
  ghost predicate NumbersGrowPerKey(p: Plan, n: nat) {
    forall i: nat, j: nat | i < j < n && p.write(i).key == p.write(j).key :: Wrap32(i) < Wrap32(j)
  }

  lemma StreamIsStrictIff(p: Plan, n: nat)
    requires Numbered(p)
    ensures SQLiteNode.StrictPerKey(Stream(p, 0, n)) <==> NumbersGrowPerKey(p, n)
  {
    hide Stream, Wrap32;
    var ws := Stream(p, 0, n);
    StreamIndex(p, 0, n);
    if SQLiteNode.StrictPerKey(ws) {
      forall i: nat, j: nat | i < j < n && p.write(i).key == p.write(j).key
        ensures Wrap32(i) < Wrap32(j)
      {
        assert ws[i] == p.write(0 + i) && ws[j] == p.write(0 + j);
      }
    }
    if NumbersGrowPerKey(p, n) {
      forall i, j | 0 <= i < j < |ws| && ws[i].key == ws[j].key
        ensures ws[i].seqno < ws[j].seqno
      {
        assert ws[i] == p.write(0 + i) && ws[j] == p.write(0 + j);
      }
    }
  }

  /** Past 2^32 writes the numbers repeat, and SQLite accepts a run exactly when they still grow
      along the writes to each key. */
  lemma LongRunsAcceptedIff(p: Plan, n: nat)
    requires Numbered(p)
    ensures SQLiteNode.Upserts(Stream(p, 0, n)).Some? <==> NumbersGrowPerKey(p, n)
  {
    StreamIsStrictIff(p, n);
    SQLiteNode.AcceptedIffStrict(Stream(p, 0, n));
  }

  /** With a single key the limit is exact: accepted up to 2^32 writes, rejected at the next. */
  lemma SingleKeyRunsStopAtTheWrap(s: Settings, world: World, n: nat)
    requires Runnable(s) && s.blobKeyCount == 1
    ensures SQLiteNode.Upserts(Stream(PlanOf(s, world), 0, n)).Some? <==> n <= WORD32
  {
    var p := PlanOf(s, world);
    PlanIsNumbered(s, world);
    if n <= WORD32 {
      StreamIsAccepted(p, n);
    } else {
      LongRunsAcceptedIff(p, n);
      PlanWrites(s, world, 0);
      PlanWrites(s, world, WORD32);
      assert Wrap32(0) == 0 == Wrap32(WORD32);
    }
  }

  /** And whatever the key count, no run outlasts the sequence numbers of its keys. */
  lemma NoRunOutlastsItsKeys(s: Settings, world: World, n: nat)
    requires Runnable(s) && n > s.blobKeyCount * 0x1_0000_0000
    ensures SQLiteNode.Upserts(Stream(PlanOf(s, world), 0, n)).None?
  {
    var ws := Stream(PlanOf(s, world), 0, n);
    StreamIndex(PlanOf(s, world), 0, n);
    forall w | w in ws
      ensures w.key < s.blobKeyCount
    {
      StreamWrite(s, world, n, w);
    }
    if SQLiteNode.Upserts(ws).Some? {
      SQLiteNode.AcceptedListsAreShort(ws, s.blobKeyCount);
    }
  }

  // ---------------------------------------------------------------- command line and driver

  lemma DefaultsAreRunnable()
    ensures Runnable(DEFAULTS)
  {
  }

  /** An accepted argument list configures a benchmark that can run exactly when the last blob sizes
      it gives (or the defaults) are positive and in order, and the last counts are not zero. */
  lemma RunnableCommandLines(args: seq<string>, narrow: CommandLine.Narrowing)
    requires CommandLine.Parse(DEFAULTS, args, narrow).Some?
    ensures Runnable(CommandLine.Parse(DEFAULTS, args, narrow).value) <==>
            && 1 <= CommandLine.LastNumber(args, CommandLine.MinBlobSize, 5000, narrow)
                 <= CommandLine.LastNumber(args, CommandLine.MaxBlobSize, 15000, narrow)
            && CommandLine.LastNumber(args, CommandLine.RandomBlobCacheSize, 1000, narrow) != 0
            && CommandLine.LastNumber(args, CommandLine.BlobKeyCount, 10000, narrow) != 0
  {
    CommandLine.LastNumbersDecide(DEFAULTS, args, narrow);
  }

  // ---------------------------------------------------------------- duration and rate

  lemma WritesAreThoseIssued(s: Settings, world: World, n: nat)
    requires Runnable(s)
    ensures |WritesOf(Trace(PlanOf(s, world), n))| == After(world.clock, s.writeRate, n).issued
  {
    var p := PlanOf(s, world);
    PlanIsNumbered(s, world);
    TraceWrites(p, n);
    StreamIndex(p, 0, Issued(p, n));
  }

  /** A finished run makes at most the rate times its seconds of writes, and misses of them at most
      those due within the largest gap between readings and a thousandth of its duration, plus a
      microsecond and what was lost to wrapping. */
  lemma FinishedRunMeetsItsRate(s: Settings, world: World, n: nat, gap: nat)
    requires Runnable(s) && Steady(world.clock)
    requires LastsFor(world.clock, s.writeRunSeconds, n) && GapsAtMost(world.clock, n, gap)
    ensures var writes, lost := |WritesOf(Trace(PlanOf(s, world), n))|, Lost(world.clock, n);
            && writes <= s.writeRate * s.writeRunSeconds
            && MILLION * MILLION * writes
               >= s.writeRate * (999 * (1_000_000_000 * s.writeRunSeconds - gap) - MILLION - 1000 * lost)
            && (gap < 1000 * WORD32 ==> lost == 0)
  {
    hide *;
    WritesAreThoseIssued(s, world, n);
    FinishedRunIsNotTooFast(world.clock, s.writeRate, s.writeRunSeconds, n);
    FinishedRunIsNotTooSlow(world.clock, s.writeRate, s.writeRunSeconds, n, gap);
    if gap < 1000 * WORD32 {
      SmallGapsLoseNothing(world.clock, n, gap);
    }
  }

  /** In numbers, for the settings of the program without arguments and readings at most two
      milliseconds apart: ten seconds, and at most 119 writes short of 100000. */
  lemma RunWithoutArguments(s: Settings, world: World, n: nat, narrow: CommandLine.Narrowing)
    requires CommandLine.Parse(DEFAULTS, [], narrow).Some?
    requires s == CommandLine.Overridden(CommandLine.Parse(DEFAULTS, [], narrow).value)
    requires Steady(world.clock) && LastsFor(world.clock, s.writeRunSeconds, n)
    requires GapsAtMost(world.clock, n, 2_000_000)
    ensures world.clock.reading(n) - world.clock.start >= 10_000_000_000
    ensures forall i: nat | i < n :: world.clock.reading(i) - world.clock.start < 10_000_000_000
    ensures Runnable(s) && 99_881 <= |WritesOf(Trace(PlanOf(s, world), n))| <= 100_000
  {
    hide Trace, WritesOf, PlanOf;
    FinishedRunMeetsItsRate(s, world, n, 2_000_000);
  }

  /** And for the documented command line, whatever backend and rate it gives: two minutes, and at
      most 1219 writes short of 1200000. */
  lemma DocumentedRun(s: Settings, world: World, n: nat, backend: string, rate: string, narrow: CommandLine.Narrowing)
    requires !CommandLine.IsFlag(backend) && !CommandLine.IsFlag(rate)
    requires CommandLine.Parse(DEFAULTS, CommandLine.Documented(backend, rate), narrow).Some?
    requires var parsed := CommandLine.Parse(DEFAULTS, CommandLine.Documented(backend, rate), narrow);
             s == CommandLine.Overridden(parsed.value)
    requires Steady(world.clock) && LastsFor(world.clock, s.writeRunSeconds, n)
    requires GapsAtMost(world.clock, n, 2_000_000)
    ensures world.clock.reading(n) - world.clock.start >= 120_000_000_000
    ensures forall i: nat | i < n :: world.clock.reading(i) - world.clock.start < 120_000_000_000
    ensures Runnable(s) && 1_198_781 <= |WritesOf(Trace(PlanOf(s, world), n))| <= 1_200_000
  {
    hide Trace, WritesOf, PlanOf, CommandLine.Parse, CommandLine.Documented, CommandLine.Atoi;
    CommandLine.DocumentedSettings(backend, rate, narrow);
    FinishedRunMeetsItsRate(s, world, n, 2_000_000);
  }

  // ---------------------------------------------------------------- pacer and group commit

  /** The number of iterations up to and including the last one, of the first `n`, whose `Update`
      flushed. */
  function LastFlush(p: Plan, n: nat): (m: nat)
    ensures m <= n
  {
    if n == 0 then 0 else if p.expired(n - 1) then n else LastFlush(p, n - 1)
  }

  /** Like `LastFlush`, for the `d`-th last flushing iteration. */
  function FlushBack(p: Plan, n: nat, d: nat): (m: nat)
    ensures m <= n
    ensures d == 1 ==> m == LastFlush(p, n)
  {
    if d == 0 || n == 0 then n
    else if p.expired(n - 1) then if d == 1 then n else FlushBack(p, n - 1, d - 1)
    else FlushBack(p, n - 1, d)
  }

  lemma {:induction false} SetCallsFlushNothing(p: Plan, n: nat, total: nat, d: nat)
    requires Issued(p, n) <= total && d > 0
    ensures FlushedBefore(PartialTrace(p, n, total), d) == FlushedBefore(Trace(p, n), d)
    decreases total
  {
    if total == Issued(p, n) {
      NextRound(p, n);
    } else {
      SetCallsFlushNothing(p, n, total - 1, d);
      NextCall(p, n, total - 1);
      assert Front(PartialTrace(p, n, total - 1) + [SetCall(p.write(total - 1))]) == PartialTrace(p, n, total - 1);
    }
  }

  /** The writes before the `d`-th last flush are those issued by that iteration. */
  lemma {:induction false} FlushedBeforeAreThoseIssued(p: Plan, n: nat, d: nat)
    requires d > 0
    ensures FlushedBefore(Trace(p, n), d) == Issued(p, FlushBack(p, n, d))
  {
    hide Trace, PartialTrace;
    if n > 0 {
      var total := Issued(p, n);
      NextRound(p, n - 1);
      var before := PartialTrace(p, n - 1, total);
      assert Front(before + [UpdateCall(p.expired(n - 1))]) == before;
      TraceWritesDuring(p, n - 1, total);
      if d > 1 || !p.expired(n - 1) {
        var rest := if p.expired(n - 1) then d - 1 else d;
        SetCallsFlushNothing(p, n - 1, total, rest);
        FlushedBeforeAreThoseIssued(p, n - 1, rest);
      }
    } else {
      NothingYet(p);
    }
  }

  /** The committed writes are those issued by the last flushing iteration. */
  lemma FlushedAreThoseIssuedByLastFlush(p: Plan, n: nat, total: nat)
    requires Issued(p, n) <= total
    ensures FlushedCount(Trace(p, n)) == FlushedCount(PartialTrace(p, n, total)) == Issued(p, LastFlush(p, n))
  {
    FlushedOnce(Trace(p, n));
    FlushedOnce(PartialTrace(p, n, total));
    SetCallsFlushNothing(p, n, total, 1);
    FlushedBeforeAreThoseIssued(p, n, 1);
  }

  /** At any point of a run, the writes a crash would lose are fewer than one more than the rate
      times the time counted since the last flushing iteration. */
  lemma UncommittedBatchIsBounded(p: Plan, n: nat, total: nat)
    requires During(p, n, total)
    ensures var history, m := PartialTrace(p, n, total), LastFlush(p, n);
            var uncommitted := |WritesOf(history)| - FlushedCount(history);
            && uncommitted == total - Issued(p, m)
            && MILLION * uncommitted < p.rate * (Counted(p.clock, n + 1) - Counted(p.clock, m)) + MILLION
  {
    var m := LastFlush(p, n);
    TraceWritesDuring(p, n, total);
    FlushedAreThoseIssuedByLastFlush(p, n, total);
    PacedOverAnyWindow(p.clock, p.rate, m, n + 1);
  }

  /** The same at the end of an iteration, where the current iteration's time is counted already. */
  lemma UncommittedBatchBetweenIterations(p: Plan, n: nat)
    ensures var m := LastFlush(p, n);
            var uncommitted := |WritesOf(Trace(p, n))| - FlushedCount(Trace(p, n));
            MILLION * uncommitted < p.rate * (Counted(p.clock, n) - Counted(p.clock, m)) + MILLION
  {
    TraceWrites(p, n);
    StreamIndex(p, 0, Issued(p, n));
    FlushedAreThoseIssuedByLastFlush(p, n, Issued(p, n));
    PacedOverAnyWindow(p.clock, p.rate, LastFlush(p, n), n);
  }

  /** What survives a crash of the SQLite benchmark at any point: exactly the writes issued by the
      last flushing iteration, each key with its last one. */
  lemma CrashKeepsWholeIterations(b: SQLiteWrite, p: Plan, n: nat, total: nat)
    requires During(p, n, total)
    requires b.Valid() && b.history == PartialTrace(p, n, total)
    ensures var durable := Issued(p, LastFlush(p, n));
            && durable <= total
            && b.node.db.committed == Run(Stream(p, 0, durable)) == SQLiteNode.LastWrites(Stream(p, 0, durable))
            && b.node.db.working == Run(Stream(p, 0, total)) == SQLiteNode.LastWrites(Stream(p, 0, total))
  {
    var durable := Issued(p, LastFlush(p, n));
    TraceWritesDuring(p, n, total);
    FlushedAreThoseIssuedByLastFlush(p, n, total);
    IssuedGrows(p.clock, p.rate, LastFlush(p, n), n);
    StreamConcat(p, 0, durable, total);
    StreamIndex(p, 0, durable);
    assert Stream(p, 0, total)[..durable] == Stream(p, 0, durable);
    SQLiteNode.AcceptedIffStrict(Stream(p, 0, durable));
    SQLiteNode.AcceptedIffStrict(Stream(p, 0, total));
  }

  /** At any point of a run, the writes since the `d`-th last flush, in the same terms. */
  lemma WritesSinceFlushBack(p: Plan, n: nat, total: nat, d: nat)
    requires During(p, n, total) && d > 0
    ensures var recent, m := total - FlushedBefore(PartialTrace(p, n, total), d), FlushBack(p, n, d);
            && recent == total - Issued(p, m)
            && MILLION * recent < p.rate * (Counted(p.clock, n + 1) - Counted(p.clock, m)) + MILLION
  {
    SetCallsFlushNothing(p, n, total, d);
    FlushedBeforeAreThoseIssued(p, n, d);
    PacedOverAnyWindow(p.clock, p.rate, FlushBack(p, n, d), n + 1);
  }

  /** What a loss of power leaves of the RocksDB benchmark at any point, whichever put after the last
      flush it takes effect at: the writes up to some point not before those issued by the last
      flushing iteration, complete but for the number of at most one; so it loses fewer than one
      more than the rate times the time counted since. */
  lemma PowerLossKeepsFlushedWrites(b: RocksDBWrite, p: Plan, n: nat, total: nat, i: nat)
    returns (m: nat, torn: bool)
    requires During(p, n, total)
    requires b.Valid() && b.history == PartialTrace(p, n, total)
    requires b.node.synced <= i < |b.node.durable|
    ensures Issued(p, LastFlush(p, n)) <= m <= total && (torn ==> m < total)
    ensures var kept := RocksDBStore.Split(Run(Stream(p, 0, m)));
            b.node.durable[i] == if torn then RocksDBStore.PutBlob(kept, p.write(m)) else kept
    ensures MILLION * (total - m) < p.rate * (Counted(p.clock, n + 1) - Counted(p.clock, LastFlush(p, n))) + MILLION
  {
    hide Trace, PartialTrace, WritesOf, FlushedCount, LastFlush, Issued, Counted, RocksDBStore.States;
    var ws := Stream(p, 0, total);
    TraceWritesDuring(p, n, total);
    StreamIndex(p, 0, total);
    FlushedAreThoseIssuedByLastFlush(p, n, total);
    UncommittedBatchIsBounded(p, n, total);
    m, torn := RocksDBStore.SurvivorShape(ws, FlushedCount(b.history), i);
    StreamPrefix(p, m, total);
    RocksDBStore.CompleteRunRefinesRegister(Stream(p, 0, m));
  }

  lemma StreamPrefix(p: Plan, m: nat, n: nat)
    requires m <= n
    ensures |Stream(p, 0, n)| == n && Stream(p, 0, n)[..m] == Stream(p, 0, m)
    ensures m < n ==> Stream(p, 0, n)[m] == p.write(m)
  {
    StreamConcat(p, 0, m, n);
    StreamIndex(p, 0, m);
    StreamIndex(p, 0, n);
    assert m < n ==> Stream(p, 0, n)[m] == p.write(0 + m);
  }

  /** The jelly backend over any node that completes each request within `d` of its steps: at any
      point of a run, the vector holds all writes since the last reaping iteration and none before
      the `d`-th last one, so fewer than one more than the rate times the time counted since. */
  lemma RequestPoolIsPaced(b: Jelly.JellyWrite, p: Plan, n: nat, total: nat)
    requires During(p, n, total)
    requires b.Valid() && b.node.patience > 0 && b.history == PartialTrace(p, n, total)
    ensures var m := FlushBack(p, n, b.node.patience);
            && total - Issued(p, LastFlush(p, n)) <= |b.requests| <= total - Issued(p, m)
            && MILLION * |b.requests| < p.rate * (Counted(p.clock, n + 1) - Counted(p.clock, m)) + MILLION
  {
    hide PartialTrace, Trace, WritesOf, FlushedCount, FlushedBefore, FlushBack, LastFlush, Counted;
    b.PoolIsBounded();
    TraceWritesDuring(p, n, total);
    FlushedAreThoseIssuedByLastFlush(p, n, total);
    WritesSinceFlushBack(p, n, total, b.node.patience);
  }

  // ---------------------------------------------------------------- cache and accounting

  /** Every write of a run has a key below the key count, a blob of a size within the configured
      bounds, and bytes below 64. */
  lemma WritesAreBounded(s: Settings, world: World, k: nat)
    requires Runnable(s)
    ensures var w := NthWrite(s, world, k);
            && w.key < s.blobKeyCount
            && s.minBlobSize <= |w.blob| <= s.maxBlobSize
            && forall x | x in w.blob :: x < 64
  {
    BlobsAreBounded(world.entropy, 0, s.minBlobSize, s.maxBlobSize, s.randomBlobCacheSize);
  }

  /** At every point of a run, the byte count of the history, which is what every backend reports,
      is the sum of the sizes of all writes submitted, dropped ones included, and lies within the
      bounds that the cache sets, as long as the upper bound fits the counter. */
  lemma BytesStayWithinBounds(s: Settings, world: World, n: nat, total: nat)
    requires Runnable(s) && Issued(PlanOf(s, world), n) <= total
    ensures total * s.maxBlobSize < WORD64 ==>
              var bytes := LogicalBytes(PartialTrace(PlanOf(s, world), n, total));
              && bytes == TotalBytes(Stream(PlanOf(s, world), 0, total))
              && total * s.minBlobSize <= bytes <= total * s.maxBlobSize
  {
    TraceWritesDuring(PlanOf(s, world), n, total);
    StreamBytes(s, world, total);
    if total * s.maxBlobSize < WORD64 {
      LogicalBytesFit(PartialTrace(PlanOf(s, world), n, total), total * s.maxBlobSize);
    }
  }

  lemma LogicalBytesFit(history: seq<Event>, bound: nat)
    requires TotalBytes(WritesOf(history)) <= bound < WORD64
    ensures LogicalBytes(history) == TotalBytes(WritesOf(history))
  {
  }

  lemma StreamBytes(s: Settings, world: World, total: nat)
    requires Runnable(s)
    ensures total * s.minBlobSize <= TotalBytes(Stream(PlanOf(s, world), 0, total)) <= total * s.maxBlobSize
  {
    var ws := Stream(PlanOf(s, world), 0, total);
    StreamIndex(PlanOf(s, world), 0, total);
    forall w | w in ws
      ensures s.minBlobSize <= |w.blob| <= s.maxBlobSize
    {
      StreamWrite(s, world, total, w);
    }
    TotalBytesBounds(ws, s.minBlobSize, s.maxBlobSize);
  }

  lemma {:induction false} StreamWrite(s: Settings, world: World, n: nat, w: Write)
    requires Runnable(s)
    ensures w in Stream(PlanOf(s, world), 0, n) ==>
              s.minBlobSize <= |w.blob| <= s.maxBlobSize && w.key < s.blobKeyCount
  {
    if n > 0 {
      PlanWrites(s, world, n - 1);
      WritesAreBounded(s, world, n - 1);
      StreamWrite(s, world, n - 1, w);
    }
  }
}
