/** The calls a benchmark run makes on its backend, iteration by iteration, for any clock, any
    choice of keys and blobs, and any timer behaviour. */
module Traces {
  import opened Machine
  import opened Journal
  import opened Pacing
  import SQLiteNode

  /** What determines a run: `write(k)` are the arguments of the `k`-th `Set`, and `expired(i)` is
      what the backend's timer answers in the `i`-th `Update`. */
  datatype Plan = Plan(clock: Clock, rate: nat, write: nat -> Write, expired: nat -> bool)

  /** Sequence numbers count the writes, in 32 bits. */
  ghost predicate Numbered(p: Plan) {
    forall k: nat :: p.write(k).seqno == Wrap32(k)
  }

  /** Writes issued by the first `n` iterations. */
  function Issued(p: Plan, n: nat): nat {
    After(p.clock, p.rate, n).issued
  }

  /** Writes `m` to `n` of a run. */
  function Stream(p: Plan, m: nat, n: nat): seq<Write>
    requires m <= n
  {
    if m == n then [] else Stream(p, m, n - 1) + [p.write(n - 1)]
  }

  /** Their `Set` calls. */
  function SetCalls(p: Plan, m: nat, n: nat): seq<Event>
    requires m <= n
  {
    if m == n then [] else SetCalls(p, m, n - 1) + [SetCall(p.write(n - 1))]
  }

  /** All calls of the first `n` iterations. */
  function Trace(p: Plan, n: nat): seq<Event> {
    if n == 0 then []
    else
      IssuedGrows(p.clock, p.rate, n - 1, n);
      Trace(p, n - 1) + SetCalls(p, Issued(p, n - 1), Issued(p, n)) + [UpdateCall(p.expired(n - 1))]
  }

  /** Iteration `n` interrupted when `total` writes have been issued. */
  function PartialTrace(p: Plan, n: nat, total: nat): seq<Event>
    requires Issued(p, n) <= total
  {
    Trace(p, n) + SetCalls(p, Issued(p, n), total)
  }

  /** `total` is a number of writes issued while iteration `n` is under way. */
  ghost predicate During(p: Plan, n: nat, total: nat) {
    Issued(p, n) <= total <= Issued(p, n + 1)
  }

  // ---------------------------------------------------------------- one step

  /** Before the first iteration. */
  lemma NothingYet(p: Plan)
    ensures After(p.clock, p.rate, 0) == Pacer(0, 0) && Trace(p, 0) == [] && Wrap32(0) == 0
  {
  }

  /** One iteration: the accumulator drains the newly counted time, and the trace grows by the
      writes issued and the `Update` that follows them. */
  lemma NextRound(p: Plan, n: nat)
    ensures var a, b := After(p.clock, p.rate, n), After(p.clock, p.rate, n + 1);
            && b == Drain(Pacer(a.pending + Passed(p.clock, n) * p.rate, a.issued))
            && Issued(p, n) == a.issued <= b.issued == Issued(p, n + 1)
            && Trace(p, n + 1) == PartialTrace(p, n, b.issued) + [UpdateCall(p.expired(n))]
            && PartialTrace(p, n, a.issued) == Trace(p, n)
  {
    AfterOne(p.clock, p.rate, n);
    IssuedGrows(p.clock, p.rate, n, n + 1);
  }

  /** One write. */
  lemma NextCall(p: Plan, n: nat, total: nat)
    requires Issued(p, n) <= total
    ensures PartialTrace(p, n, total + 1) == PartialTrace(p, n, total) + [SetCall(p.write(total))]
  {
  }

  lemma NextSeqno(total: nat)
    ensures Wrap32(Wrap32(total) + 1) == Wrap32(total + 1)
  {
  }

  // ---------------------------------------------------------------- the writes of a trace

  lemma {:induction false} StreamIndex(p: Plan, m: nat, n: nat)
    requires m <= n
    ensures |Stream(p, m, n)| == n - m
    ensures forall k | 0 <= k < n - m :: Stream(p, m, n)[k] == p.write(m + k)
  {
    if m < n {
      StreamIndex(p, m, n - 1);
    }
  }

  lemma {:induction false} StreamConcat(p: Plan, l: nat, m: nat, n: nat)
    requires l <= m <= n
    ensures Stream(p, l, m) + Stream(p, m, n) == Stream(p, l, n)
  {
    if m < n {
      StreamConcat(p, l, m, n - 1);
    }
  }

  lemma {:induction false} WritesOfSetCalls(p: Plan, m: nat, n: nat)
    requires m <= n
    ensures WritesOf(SetCalls(p, m, n)) == Stream(p, m, n)
    ensures FlushedCount(SetCalls(p, m, n)) == 0
  {
    if m < n {
      WritesOfSetCalls(p, m, n - 1);
      AppendSet(SetCalls(p, m, n - 1), p.write(n - 1));
    }
  }

  lemma PartialWrites(p: Plan, n: nat, total: nat)
    requires Issued(p, n) <= total
    requires WritesOf(Trace(p, n)) == Stream(p, 0, Issued(p, n))
    ensures WritesOf(PartialTrace(p, n, total)) == Stream(p, 0, total)
  {
    var m := Issued(p, n);
    WritesOfAppend(Trace(p, n), SetCalls(p, m, total));
    WritesOfSetCalls(p, m, total);
    StreamConcat(p, 0, m, total);
  }

  lemma RoundWrites(p: Plan, n: nat)
    requires WritesOf(Trace(p, n)) == Stream(p, 0, Issued(p, n))
    ensures WritesOf(Trace(p, n + 1)) == Stream(p, 0, Issued(p, n + 1))
  {
    hide Trace, PartialTrace, WritesOf, FlushedCount;
    NextRound(p, n);
    PartialWrites(p, n, Issued(p, n + 1));
    AppendUpdate(PartialTrace(p, n, Issued(p, n + 1)), p.expired(n));
  }

  lemma NothingWrittenYet(p: Plan)
    ensures WritesOf(Trace(p, 0)) == [] == Stream(p, 0, Issued(p, 0))
  {
  }

  /** However the calls are spread over iterations, the writes are the numbered stream. */
  lemma {:induction false} TraceWrites(p: Plan, n: nat)
    ensures WritesOf(Trace(p, n)) == Stream(p, 0, Issued(p, n))
  {
    hide Trace, WritesOf, Stream;
    if n > 0 {
      TraceWrites(p, n - 1);
      RoundWrites(p, n - 1);
    } else {
      NothingWrittenYet(p);
    }
  }

  lemma TraceWritesDuring(p: Plan, n: nat, total: nat)
    requires Issued(p, n) <= total
    ensures WritesOf(PartialTrace(p, n, total)) == Stream(p, 0, total)
    ensures |WritesOf(PartialTrace(p, n, total))| == total
  {
    TraceWrites(p, n);
    PartialWrites(p, n, total);
    StreamIndex(p, 0, total);
  }

  /** Sequence numbers do not repeat within the first 2^32 writes, so SQLite accepts all of them. */
  lemma StreamIsAccepted(p: Plan, n: nat)
    requires Numbered(p) && n <= WORD32
    ensures SQLiteNode.Upserts(Stream(p, 0, n)).Some?
  {
    var ws := Stream(p, 0, n);
    StreamIndex(p, 0, n);
    assert SQLiteNode.StrictPerKey(ws) by {
      forall k | 0 <= k < n
        ensures ws[k].seqno == k
      {
        SmallNumbersDoNotWrap(k);
      }
    }
    SQLiteNode.AcceptedIffStrict(ws);
  }
}
