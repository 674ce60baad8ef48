/** The jelly backend: requests owned by a vector, lent as raw pointers to the blob node, and
    reaped by an in-place swap-remove once the node has completed them. */
module Jelly {
  import opened Machine
  import opened Journal

  // ---------------------------------------------------------------- swap-remove on values

  lemma ConcatAssociative<T>(a: seq<T>, b: seq<T>, c: seq<T>)
    ensures a + b + c == a + (b + c)
  {
  }

  /** Fill slot `i` from the back and drop the last slot. */
  function SwapRemove<T>(s: seq<T>, i: nat): (r: seq<T>)
    requires i < |s|
    ensures |r| == |s| - 1
    ensures r[..i] == s[..i]
  {
    if i + 1 < |s| then s[i := s[|s| - 1]][..|s| - 1] else s[..|s| - 1]
  }

  /** Everything from slot `i` on survives, except the element removed there. */
  lemma SwapRemoveKeepsTheRest<T>(s: seq<T>, i: nat)
    requires i < |s|
    ensures multiset(SwapRemove(s, i)[i..]) == multiset(s[i..]) - multiset{s[i]}
  {
    var last := |s| - 1;
    if i < last {
      var mid := s[i + 1..last];
      assert s[i..] == [s[i]] + mid + [s[last]];
      assert SwapRemove(s, i)[i..] == [s[last]] + mid;
    } else {
      assert s[i..] == [s[i]];
      assert SwapRemove(s, i)[i..] == [];
    }
  }

  /** One element moves, from the last slot to slot `i`; all others stay where they are. */
  lemma SwapRemoveAt<T>(s: seq<T>, i: nat)
    requires i < |s|
    ensures forall j | 0 <= j < |s| - 1 :: SwapRemove(s, i)[j] == if j == i then s[|s| - 1] else s[j]
  {
  }

  /** The cyclic remove in pieces: what stands before slot `i`, between it and the last slot, and last. */
  lemma SwapRemovePieces<T>(s: seq<T>, i: nat) returns (front: seq<T>, middle: seq<T>, last: seq<T>)
    requires i < |s|
    ensures s == front + [s[i]] + middle + last && SwapRemove(s, i) == front + last + middle
  {
    front := s[..i];
    if i + 1 < |s| {
      middle, last := s[i + 1..|s| - 1], [s[|s| - 1]];
    } else {
      middle, last := [], [];
    }
  }

  lemma Exchange<T>(front: seq<T>, x: T, middle: seq<T>, last: seq<T>)
    ensures multiset(front + last + middle) == multiset(front + [x] + middle + last) - multiset{x}
  {
  }

  lemma SwapRemoveMultiset<T>(s: seq<T>, i: nat)
    requires i < |s|
    ensures multiset(SwapRemove(s, i)) == multiset(s) - multiset{s[i]}
  {
    hide SwapRemove;
    var front, middle, last := SwapRemovePieces(s, i);
    Exchange(front, s[i], middle, last);
  }

  lemma SwapRemoveMembers<T>(s: seq<T>, i: nat)
    requires i < |s|
    ensures forall x | x in SwapRemove(s, i) :: x in s
    ensures forall x | x in s && x != s[i] :: x in SwapRemove(s, i)
  {
    SwapRemoveMultiset(s, i);
    forall x | x in s && x != s[i]
      ensures x in SwapRemove(s, i)
    {
      assert multiset(SwapRemove(s, i))[x] > 0;
    }
  }

  /** One question put to a request, and its answer. */
  datatype Poll<T> = Poll(req: T, completed: bool)

  function Polled<T>(log: seq<Poll<T>>): seq<T> {
    if log == [] then [] else Polled(Front(log)) + [Last(log).req]
  }

  /** The requests whose poll was answered with `completed`, in polling order. */
  function Answered<T>(log: seq<Poll<T>>, completed: bool): seq<T> {
    if log == [] then []
    else if Last(log).completed == completed then Answered(Front(log), completed) + [Last(log).req]
    else Answered(Front(log), completed)
  }

  lemma AnsweredSnoc<T>(log: seq<Poll<T>>, p: Poll<T>, c: bool)
    ensures Answered(log + [p], c) == Answered(log, c) + if p.completed == c then [p.req] else []
  {
    assert Front(log + [p]) == log;
  }

  lemma {:induction false} AnswersPartitionPolls<T>(log: seq<Poll<T>>)
    ensures multiset(Answered(log, true)) + multiset(Answered(log, false)) == multiset(Polled(log))
    ensures |Polled(log)| == |log|
  {
    if log != [] {
      AnswersPartitionPolls(Front(log));
    }
  }

  /** What a scan did: its polls in order, and the vector it leaves. */
  datatype Outcome<T> = Outcome(log: seq<Poll<T>>, left: seq<T>)

  /** The scan on values, from slot `i` on, for any list of answers to its polls. */
  function Scan<T>(s: seq<T>, i: nat, answers: seq<bool>): Outcome<T>
    requires i <= |s| && |answers| == |s| - i
    decreases |answers|
  {
    if i == |s| then Outcome([], s)
    else
      var rest := if answers[0] then Scan(SwapRemove(s, i), i, answers[1..]) else Scan(s, i + 1, answers[1..]);
      Outcome([Poll(s[i], answers[0])] + rest.log, rest.left)
  }

  /** Whatever the answers, a scan asks about every element exactly once. */
  lemma {:induction false} ScanPollsEachOnce<T>(s: seq<T>, i: nat, answers: seq<bool>)
    requires i <= |s| && |answers| == |s| - i
    ensures multiset(Polled(Scan(s, i, answers).log)) == multiset(s[i..])
    decreases |answers|
  {
    if i < |s| {
      var rest, next := if answers[0] then SwapRemove(s, i) else s, if answers[0] then i else i + 1;
      ScanPollsEachOnce(rest, next, answers[1..]);
      LogCons(Poll(s[i], answers[0]), Scan(rest, next, answers[1..]).log);
      RestAfterPoll(s, i, answers[0]);
    }
  }

  /** The `t`-th poll takes the `t`-th answer. */
  lemma {:induction false} ScanTakesAnswersInOrder<T>(s: seq<T>, i: nat, answers: seq<bool>)
    requires i <= |s| && |answers| == |s| - i
    ensures var log := Scan(s, i, answers).log;
            |log| == |answers| && forall t | 0 <= t < |answers| :: log[t].completed == answers[t]
    decreases |answers|
  {
    if i < |s| {
      var rest, next := if answers[0] then SwapRemove(s, i) else s, if answers[0] then i else i + 1;
      ScanTakesAnswersInOrder(rest, next, answers[1..]);
    }
  }

  /** A scan leaves exactly the elements whose one poll answered false, in polling order. */
  lemma {:induction false} ScanLeavesTheIncomplete<T>(s: seq<T>, i: nat, answers: seq<bool>)
    requires i <= |s| && |answers| == |s| - i
    ensures Scan(s, i, answers).left == s[..i] + Answered(Scan(s, i, answers).log, false)
    decreases |answers|
  {
    if i == |s| {
      assert s[..i] == s;
    } else {
      var rest, next := if answers[0] then SwapRemove(s, i) else s, if answers[0] then i else i + 1;
      var o := Scan(rest, next, answers[1..]);
      ScanLeavesTheIncomplete(rest, next, answers[1..]);
      LogCons(Poll(s[i], answers[0]), o.log);
      RestAfterPoll(s, i, answers[0]);
      ConcatAssociative(s[..i], if answers[0] then [] else [s[i]], Answered(o.log, false));
    }
  }

  /** Where the scan goes: up to the first completed element it polls the slots in order; the next
      poll is of the element that was in the last slot, and the rest follows from there. */
  lemma {:induction false} ScanOrder<T>(s: seq<T>, i: nat, answers: seq<bool>, first: nat)
    requires i <= |s| && |answers| == |s| - i && first < |answers|
    requires answers[first] && forall t | 0 <= t < first :: !answers[t]
    ensures var log := Scan(s, i, answers).log;
            && |log| == |answers|
            && (forall t | 0 <= t <= first :: log[t].req == s[i + t])
            && (first + 1 < |answers| ==> log[first + 1].req == s[|s| - 1])
    decreases first
  {
    if first > 0 {
      ScanOrder(s, i + 1, answers[1..], first - 1);
    } else if |answers| > 1 {
      var rest := SwapRemove(s, i);
      SwapRemoveAt(s, i);
      ScanTakesAnswersInOrder(rest, i, answers[1..]);
      assert Scan(rest, i, answers[1..]).log[0].req == rest[i];
    }
  }

  /** If every poll answers true, the elements are reaped from the back, after the first. */
  lemma {:induction false} AllCompletedReapedFromTheBack<T>(s: seq<T>, i: nat, answers: seq<bool>)
    requires i < |s| && |answers| == |s| - i && forall t | 0 <= t < |answers| :: answers[t]
    ensures var o := Scan(s, i, answers);
            && o.left == s[..i] && |o.log| == |answers| && o.log[0].req == s[i]
            && forall t | 0 < t < |answers| :: o.log[t].req == s[|s| - t]
    decreases |answers|
  {
    var rest := SwapRemove(s, i);
    SwapRemoveAt(s, i);
    if i < |rest| {
      AllCompletedReapedFromTheBack(rest, i, answers[1..]);
    } else {
      assert rest == s[..i];
    }
  }

  /** What a poll of slot `i` leaves to be scanned, and what it has settled. */
  lemma RestAfterPoll<T>(s: seq<T>, i: nat, a: bool)
    requires i < |s|
    ensures var s', i' := if a then SwapRemove(s, i) else s, if a then i else i + 1;
            && multiset{s[i]} + multiset(s'[i'..]) == multiset(s[i..])
            && s'[..i'] == s[..i] + if a then [] else [s[i]]
  {
    if a {
      SwapRemoveKeepsTheRest(s, i);
      assert s[i] in multiset(s[i..]) by { assert s[i..][0] == s[i]; }
    } else {
      assert s[i..] == [s[i]] + s[i + 1..];
    }
  }

  /** An outcome preceded by the polls in `log`. */
  function Then<T>(log: seq<Poll<T>>, o: Outcome<T>): Outcome<T> {
    Outcome(log + o.log, o.left)
  }

  /** A scan of `before` that took `answers` and made the polls in `log` has reached slot `i` of `s`. */
  ghost predicate Reached<T>(before: seq<T>, answers: seq<bool>, log: seq<Poll<T>>, s: seq<T>, i: nat) {
    && i <= |s| && |answers| + |s| - i == |before|
    && forall rest: seq<bool> | |rest| == |s| - i ::
         Scan(before, 0, answers + rest) == Then(log, Scan(s, i, rest))
  }

  lemma ScanStarts<T>(s: seq<T>)
    ensures Reached(s, [], [], s, 0)
  {
    forall rest: seq<bool> | |rest| == |s|
      ensures Scan(s, 0, [] + rest) == Then([], Scan(s, 0, rest))
    {
      assert [] + rest == rest;
    }
  }

  /** One more poll, answered `a`. */
  lemma ScanSteps<T>(before: seq<T>, answers: seq<bool>, log: seq<Poll<T>>, s: seq<T>, i: nat, a: bool)
    requires Reached(before, answers, log, s, i) && i < |s|
    ensures Reached(before, answers + [a], log + [Poll(s[i], a)],
                    if a then SwapRemove(s, i) else s, if a then i else i + 1)
  {
    var s', i' := if a then SwapRemove(s, i) else s, if a then i else i + 1;
    forall rest: seq<bool> | |rest| == |s'| - i'
      ensures Scan(before, 0, answers + [a] + rest) == Then(log + [Poll(s[i], a)], Scan(s', i', rest))
    {
      assert answers + [a] + rest == answers + ([a] + rest);
      assert Scan(before, 0, answers + ([a] + rest)) == Then(log, Scan(s, i, [a] + rest));
      ScanOnePoll(log, s, i, a, rest);
    }
  }

  lemma ScanOnePoll<T>(log: seq<Poll<T>>, s: seq<T>, i: nat, a: bool, rest: seq<bool>)
    requires i < |s| && |rest| == |s| - i - 1
    ensures Then(log, Scan(s, i, [a] + rest))
            == Then(log + [Poll(s[i], a)], Scan(if a then SwapRemove(s, i) else s, if a then i else i + 1, rest))
  {
    assert ([a] + rest)[1..] == rest;
    var o := Scan(if a then SwapRemove(s, i) else s, if a then i else i + 1, rest);
    ConcatAssociative(log, [Poll(s[i], a)], o.log);
  }

  lemma ScanEnds<T>(before: seq<T>, answers: seq<bool>, log: seq<Poll<T>>, s: seq<T>)
    requires Reached(before, answers, log, s, |s|)
    ensures Scan(before, 0, answers) == Outcome(log, s)
  {
    assert answers + [] == answers && log + [] == log;
    assert Scan(before, 0, answers + []) == Then(log, Scan(s, |s|, []));
  }

  lemma {:induction false} LogCons<T>(p: Poll<T>, log: seq<Poll<T>>)
    ensures Polled([p] + log) == [p.req] + Polled(log)
    ensures forall c :: Answered([p] + log, c) == (if p.completed == c then [p.req] else []) + Answered(log, c)
  {
    if log == [] {
      assert [p] + log == [p] && Front([p]) == [];
    } else {
      LogCons(p, Front(log));
      assert Front([p] + log) == [p] + Front(log);
    }
  }

  // ---------------------------------------------------------------- objects

  class Request {
    const write: Write
    const born: nat        // the node's step count when the request was submitted
    ghost const rank: nat  // its place among all requests submitted
    var completed: bool

    constructor (write: Write, born: nat, ghost rank: nat)
      ensures this.write == write && this.born == born && this.rank == rank && !completed
    {
      this.write, this.born, this.rank := write, born, rank;
      completed := false;
    }

    method IsCompleted() returns (answer: bool)
      ensures answer == completed
    {
      answer := completed;
    }
  }

  /** What the node does in its `tick`-th step with the requests it holds: which it completes, and
      which it forgets without completing. */
  type Schedule = (nat, set<Request>) -> (set<Request>, set<Request>)

  /** The blob node, reduced to the raw request pointers it holds. Whatever it does, it stops
      using a pointer no later than it marks the request completed. A node with a `patience` forgets
      nothing and completes every request within that many of its steps; one with patience 0
      promises nothing. */
  class BlobNode {
    const schedule: Schedule
    const patience: nat
    var tick: nat
    var held: set<Request>

    constructor (schedule: Schedule, patience: nat)
      ensures held == {} && tick == 0 && this.schedule == schedule && this.patience == patience
    {
      this.schedule, this.patience := schedule, patience;
      tick, held := 0, {};
    }

    /** What a step does with the requests held: which are completed, and which are forgotten. */
    function Effect(tick: nat, held: set<Request>): (set<Request>, set<Request>) {
      var (done, forgotten) := schedule(tick, held);
      if patience == 0 then (done, forgotten)
      else (done + (set r | r in held && r.born + patience <= tick + 1), {})
    }

    method Set(req: Request)
      modifies this`held
      ensures held == old(held) + {req}
    {
      held := held + {req};
    }

    /** Teardown: afterwards the node holds nothing. */
    method Reset()
      modifies this`held
      ensures held == {}
    {
      held := {};
    }

    /** One step of `ProcessRequests`, of a WAL flush, or of anything else that may complete requests. */
    method Advance()
      modifies this, held
      ensures var (done, forgotten) := Effect(old(tick), old(held));
              && held == old(held) - done - forgotten && tick == old(tick) + 1
              && forall r: Request | r in old(held) :: r.completed == (old(r.completed) || r in done)
    {
      var (done, forgotten) := Effect(tick, held);
      forall r | r in held && r in done {
        r.completed := true;
      }
      held := held - done - forgotten;
      tick := tick + 1;
    }
  }

  /** The removal inside the reaping loop, on owning slots: move assignment deletes what slot `i`
      owned and leaves null behind, dropping the last slot deletes what it still owns. The index
      is unsigned: it wraps below zero and the loop's increment brings it back. */
  method CyclicRemove(slots: seq<Request?>, i: uint64)
    returns (left: seq<Request?>, deleted: seq<Request?>, next: uint64)
    requires i < |slots| < WORD64 && null !in slots
    ensures left == SwapRemove(slots, i) && deleted == [slots[i]] && next == i
    ensures forall j | 0 <= j < |slots| - 1 :: left[j] == if j == i then slots[|slots| - 1] else slots[j]
  {
    left, deleted, next := slots, [], i;
    if Wrap64(next + 1) < |left| {
      deleted := deleted + [left[next]];
      left := left[next := left[|left| - 1]][|left| - 1 := null];
    }
    if left[|left| - 1] != null {
      deleted := deleted + [left[|left| - 1]];
    }
    left := left[..|left| - 1];
    next := Wrap64(next - 1);
    next := Wrap64(next + 1);
  }

  // ---------------------------------------------------------------- the backend

  ghost predicate NoDuplicates<T>(s: seq<T>) {
    forall i, j | 0 <= i < j < |s| :: s[i] != s[j]
  }

  /** Every request created is either owned by a slot or was deleted, and that only once. */
  ghost predicate Accounted(submitted: seq<Request>, destroyed: seq<Request?>, requests: seq<Request?>) {
    && NoDuplicates(submitted)
    && multiset(destroyed) + multiset(requests) == multiset(submitted)
  }

  lemma AccountedAfterRemoval(submitted: seq<Request>, destroyed: seq<Request?>, requests: seq<Request?>, i: nat)
    requires Accounted(submitted, destroyed, requests) && i < |requests|
    ensures Accounted(submitted, destroyed + [requests[i]], SwapRemove(requests, i))
  {
    SwapRemoveMultiset(requests, i);
    assert requests[i] in multiset(requests);
    calc {
      multiset(destroyed + [requests[i]]) + multiset(SwapRemove(requests, i));
      multiset(destroyed) + (multiset{requests[i]} + multiset(SwapRemove(requests, i)));
      multiset(destroyed) + multiset(requests);
    }
  }

  lemma AccountedAfterGrowth(submitted: seq<Request>, destroyed: seq<Request?>, requests: seq<Request?>, r: Request)
    requires Accounted(submitted, destroyed, requests) && r !in submitted
    ensures Accounted(submitted + [r], destroyed, requests + [r])
  {
  }

  lemma {:induction false} NoDuplicatesCounts<T>(s: seq<T>, x: T)
    requires NoDuplicates(s)
    ensures multiset(s)[x] == if x in s then 1 else 0
  {
    if s != [] {
      assert s == Front(s) + [Last(s)];
      NoDuplicatesCounts(Front(s), x);
    }
  }

  /** No double delete and no leak: a request ever created was deleted once and has no owner left,
      or was never deleted and has exactly one. */
  lemma OwnedOrDeletedOnce(submitted: seq<Request>, destroyed: seq<Request?>, requests: seq<Request?>, r: Request)
    requires Accounted(submitted, destroyed, requests) && r in submitted
    ensures multiset(destroyed)[r] + multiset(requests)[r] == 1
    ensures r in requests <==> r !in destroyed
  {
    NoDuplicatesCounts(submitted, r);
    assert (multiset(destroyed) + multiset(requests))[r] == 1;
    assert r in requests <==> r in multiset(requests);
    assert r in destroyed <==> r in multiset(destroyed);
  }

  /** A list of distinct members of another is no longer than it. */
  lemma DistinctMembersAreFewer<T>(xs: seq<T>, ys: seq<T>)
    requires forall x | x in xs :: x in ys && multiset(xs)[x] == 1
    ensures |xs| <= |ys|
  {
    assert multiset(xs) <= multiset(ys) by {
      forall x | x in multiset(xs)
        ensures multiset(xs)[x] <= multiset(ys)[x]
      {
        assert x in xs && x in multiset(ys);
      }
    }
    assert multiset(ys) == multiset(xs) + (multiset(ys) - multiset(xs));
    assert |multiset(xs)| == |xs| && |multiset(ys)| == |ys|;
  }

  function WritesOfRequests(rs: seq<Request>): seq<Write> {
    seq(|rs|, i requires 0 <= i < |rs| => rs[i].write)
  }

  lemma WritesOfGrowth(rs: seq<Request>, r: Request)
    ensures WritesOfRequests(rs + [r]) == WritesOfRequests(rs) + [r.write]
  {
  }

  /** A request has outlived fewer reapings, and `more` of them, than the node has patience. */
  ghost predicate Young(r: Request?, patience: nat, history: seq<Event>, more: nat) {
    r != null && (patience > 0 ==> ReapsSince(history, r.rank) + more < patience)
  }

  class JellyWrite {
    const node: BlobNode
    var requests: seq<Request?>         // owning slots; a slot is null once moved from
    var logicalWriteBytes: uint64

    ghost var submitted: seq<Request>   // every request ever created
    ghost var destroyed: seq<Request?>  // every request ever deleted, in order
    ghost var polls: seq<Poll<Request?>>  // every poll of the reaping loop, with what the request said
    ghost var history: seq<Event>
    ghost var Repr: set<object>

    /** Every pointer the node holds is to a live request owned by a slot, or by the local variable
        `local` of a `Set` in progress; every request that entered the vector is owned by exactly
        one slot or was deleted exactly once, and only when completed. */
    ghost predicate Ownership(local: Request?)
      reads this, node, Repr, local
    {
      && null !in requests
      && (forall r | r in submitted :: r in Repr)
      && (forall r | r in requests :: r in Repr)
      && (forall r | r in node.held :: (r in requests || r == local) && (r in Repr || r == local))
      && (forall r | r in node.held && r in Repr :: !r.completed)
      && Accounted(submitted, destroyed, requests)
      && (forall r | r in destroyed :: r != null && r in Repr && r.completed)
      && |requests| < WORD64
    }

    ghost predicate Bookkeeping()
      reads this
    {
      && WritesOfRequests(submitted) == WritesOf(history)
      && logicalWriteBytes == LogicalBytes(history)
    }

    /** A node with a patience holds every request that is not completed, and none for too long. */
    ghost predicate NothingForgotten()
      reads this, node, Repr
    {
      node.patience > 0 ==>
        && (forall r: Request | r in requests && r in Repr :: r in node.held || r.completed)
        && (forall r | r in node.held :: node.tick < r.born + node.patience)
    }

    /** The node has made a step for every reaping that a held request has lived through, and `k` more. */
    ghost predicate Aged(k: nat)
      reads this, node
    {
      forall r | r in node.held :: r.born + ReapsSince(history, r.rank) + k <= node.tick
    }

    /** What holds between any two steps, also while requests are being reaped. */
    ghost predicate Consistent()
      reads this, node, Repr
    {
      && this in Repr && node in Repr && Ownership(null) && Bookkeeping() && NothingForgotten()
      && forall j | 0 <= j < |submitted| :: submitted[j].rank == j
    }

    ghost predicate Valid()
      reads this, node, Repr
    {
      && Consistent() && Aged(0)
      && (forall r | r in requests :: Young(r, node.patience, history, 0))
      && |requests| >= |WritesOf(history)| - FlushedCount(history)
    }

    constructor (schedule: Schedule, patience: nat)
      ensures Valid() && fresh(Repr) && history == []
      ensures node.schedule == schedule && node.patience == patience
    {
      node := new BlobNode(schedule, patience);
      requests, logicalWriteBytes := [], 0;
      submitted, destroyed, polls, history := [], [], [], [];
      new;
      Repr := {this, node};
    }

    /** Fails only when the vector cannot grow any further. */
    method Set(aKey: uint32, aSeq: uint32, aBlob: Blob) returns (ok: bool)
      requires Valid()
      modifies Repr
      ensures Valid() && fresh(Repr - old(Repr))
      ensures ok == (old(|requests|) + 1 < WORD64)
      ensures ok ==> history == old(history) + [SetCall(Write(aKey, aSeq, aBlob))]
      ensures !ok ==> history == old(history)
      ensures destroyed == old(destroyed)
      ensures ok ==> |requests| == old(|requests|) + 1 && requests[..old(|requests|)] == old(requests)
                     && submitted == old(submitted) + [Last(requests)]
                     && node.held == old(node.held) + {Last(requests)}
      ensures node.tick == old(node.tick)
    {
      hide Accounted, WritesOfRequests, WritesOf, LogicalBytes, FlushedCount, ReapsSince;
      ok := |requests| + 1 < WORD64;
      if !ok {
        return;
      }
      SubmittedAreWritten();
      var req := new Request(Write(aKey, aSeq, aBlob), node.tick, |submitted|);
      node.Set(req);
      PushBack(req);
      Account(req.write);
      assert Consistent() && Aged(0);
    }

    /** The requests submitted are as many as the writes received, and each knows its place. */
    lemma SubmittedAreWritten()
      requires Consistent()
      ensures |submitted| == |WritesOf(history)|
      ensures forall r | r in submitted :: r.rank < |submitted|
      ensures forall r | r in requests || r in node.held :: r in submitted
    {
      forall r | r in requests
        ensures r in submitted
      {
        assert r in multiset(requests);
        assert r in multiset(destroyed) + multiset(requests);
      }
    }

    /** Byte accounting for a write that has been submitted. */
    method Account(w: Write)
      requires logicalWriteBytes == LogicalBytes(history)
      modifies this`logicalWriteBytes, this`history
      ensures history == old(history) + [SetCall(w)] && WritesOf(history) == WritesOf(old(history)) + [w]
      ensures FlushedCount(history) == FlushedCount(old(history))
      ensures ReapsSince(history, old(|WritesOf(history)|)) == 0
      ensures forall j: nat | j < old(|WritesOf(history)|) :: ReapsSince(history, j) == ReapsSince(old(history), j)
      ensures logicalWriteBytes == LogicalBytes(history)
    {
      AppendSet(history, w);
      AppendBytes(history, w);
      ReapsAfterSet(history, w);
      logicalWriteBytes := Wrap64(logicalWriteBytes + |w.blob|);
      history := history + [SetCall(w)];
    }

    /** The vector takes over the request from the local variable that owned it. */
    method PushBack(req: Request)
      requires this in Repr && node in Repr && Ownership(req) && NothingForgotten()
      requires req in node.held && req !in Repr && !req.completed && |requests| + 1 < WORD64
      requires req.rank == |submitted| && forall j | 0 <= j < |submitted| :: submitted[j].rank == j
      modifies this`requests, this`submitted, this`Repr
      ensures this in Repr && node in Repr && Ownership(null) && NothingForgotten() && Repr == old(Repr) + {req}
      ensures requests == old(requests) + [req] && submitted == old(submitted) + [req]
      ensures WritesOfRequests(submitted) == WritesOfRequests(old(submitted)) + [req.write]
      ensures forall j | 0 <= j < |submitted| :: submitted[j].rank == j
    {
      AccountedAfterGrowth(submitted, destroyed, requests, req);
      WritesOfGrowth(submitted, req);
      requests := requests + [req];
      submitted := submitted + [req];
      Repr := Repr + {req};
    }

    /** Slot `i` is given up, with everything it owned deleted. The node must not hold it any more. */
    method GiveUpSlot(i: uint64) returns (next: uint64)
      requires Consistent() && i < |requests| && requests[i].completed && requests[i] !in node.held
      modifies this`requests, this`destroyed
      ensures Consistent()
      ensures next == i && requests == SwapRemove(old(requests), i)
      ensures forall j | 0 <= j < |requests| ::
                requests[j] == if j == i then Last(old(requests)) else old(requests)[j]
      ensures destroyed == old(destroyed) + [old(requests)[i]]
    {
      hide Accounted, WritesOfRequests, WritesOf, LogicalBytes;
      AccountedAfterRemoval(submitted, destroyed, requests, i);
      SwapRemoveMembers(requests, i);
      ghost var gone := requests[i];
      var left, deleted, after := CyclicRemove(requests, i);
      assert forall r | r in destroyed + deleted :: r in destroyed || r == gone;
      requests, next := left, after;
      destroyed := destroyed + deleted;
    }

    /** The body of the reaping loop: poll slot `i`, give it up if and only if its request is
        completed, and return the index of the next slot. `early` are requests already completed. */
    method PollSlot(i: uint64, ghost early: set<Request>) returns (completed: bool, next: uint64)
      requires Consistent() && Aged(1) && i < |requests|
      requires forall r: Request | r in early :: r in Repr && r.completed
      modifies Repr
      ensures Consistent() && Aged(1) && node.tick == old(node.tick) + 1
      ensures Repr == old(Repr) && history == old(history) && submitted == old(submitted)
      ensures completed == old(requests)[i].completed
      ensures polls == old(polls) + [Poll(old(requests)[i], completed)]
      ensures next == if completed then i else i + 1
      ensures requests == if completed then SwapRemove(old(requests), i) else old(requests)
      ensures destroyed == if completed then old(destroyed) + [old(requests)[i]] else old(destroyed)
      ensures forall r: Request | r in early :: r.completed
      ensures !completed ==> Young(old(requests)[i], node.patience, history, 1)
    {
      hide Accounted, WritesOfRequests, WritesOf, LogicalBytes, SwapRemove, ReapsSince;
      node.Advance();
      completed := requests[i].IsCompleted();
      polls := polls + [Poll(requests[i], completed)];
      if completed {
        next := GiveUpSlot(i);
      } else {
        next := Wrap64(i + 1);
      }
    }

    /** The reaping loop. The node may act before every poll, so answers may change while the scan
        is under way; `answers` are what the requests said when polled. A request completed at entry
        never survives, and only completed ones are deleted. */
    method UpdateRequests() returns (ghost answers: seq<bool>)
      requires Consistent() && Aged(1)
      modifies Repr
      ensures Consistent() && Aged(1)
      ensures Repr == old(Repr) && history == old(history) && submitted == old(submitted)
      ensures |answers| == |old(requests)| && node.tick == old(node.tick) + |answers|
      ensures polls == old(polls) + Scan(old(requests), 0, answers).log
      ensures requests == Scan(old(requests), 0, answers).left
      ensures destroyed == old(destroyed) + Answered(Scan(old(requests), 0, answers).log, true)
      ensures forall r: Request | r in old(Repr) && r in old(requests) && old(r.completed) :: r !in requests
      ensures forall r | r in requests :: Young(r, node.patience, history, 1)
    {
      hide Accounted, WritesOfRequests, WritesOf, LogicalBytes, SwapRemove, ReapsSince, Young;
      ghost var log: seq<Poll<Request?>> := [];
      ghost var before := requests;
      ghost var early := set r: Request | r in Repr && r in requests && r.completed;
      answers := [];
      var i: uint64 := 0;
      ScanStarts(before);
      while i < |requests|
        invariant Reached(before, answers, log, requests, i)
        invariant Consistent() && Aged(1) && node.tick == old(node.tick) + |answers|
        invariant Repr == old(Repr) && history == old(history) && submitted == old(submitted)
        invariant polls == old(polls) + log && destroyed == old(destroyed) + Answered(log, true)
        invariant forall r: Request | r in early :: r in Repr && r.completed
        invariant forall r | r in Answered(log, false) :: r !in early && Young(r, node.patience, history, 1)
        decreases |requests| - i
      {
        ScanSteps(before, answers, log, requests, i, true);
        ScanSteps(before, answers, log, requests, i, false);
        ghost var req := requests[i];
        var completed, next := PollSlot(i, early);
        AnsweredSnoc(log, Poll(req, completed), true);
        AnsweredSnoc(log, Poll(req, completed), false);
        ConcatAssociative(old(polls), log, [Poll(req, completed)]);
        ghost var reaped := if completed then [req] else [];
        ConcatAssociative(old(destroyed), Answered(log, true), reaped);
        log, answers := log + [Poll(req, completed)], answers + [completed];
        i := next;
      }
      ScanEnds(before, answers, log, requests);
      ScanLeavesTheIncomplete(before, 0, answers);
      assert requests == Answered(log, false);
    }

    /** `ProcessRequests`, then the reaping loop. A request that stays has lived through one more
        reaping, and the node's patience with it is not exhausted. */
    method ProcessAndReap()
      requires Consistent() && Aged(0)
      modifies Repr
      ensures Consistent() && Aged(1)
      ensures Repr == old(Repr) && history == old(history) && submitted == old(submitted)
      ensures old(destroyed) <= destroyed && node.tick == old(node.tick) + 1 + |old(requests)|
      ensures forall r: Request | r in old(Repr) && r in old(requests) && old(r.completed) :: r !in requests
      ensures forall r | r in requests :: Young(r, node.patience, history, 1)
    {
      hide Accounted, WritesOfRequests, WritesOf, LogicalBytes, ReapsSince;
      node.Advance();
      var _ := UpdateRequests();
    }

    /** The housekeeping events of one `Update`; each is one step of the node. */
    method Housekeep(events: nat, ghost k: nat)
      requires Consistent() && Aged(k)
      modifies Repr
      ensures Consistent() && Aged(k) && Repr == old(Repr) && history == old(history) && submitted == old(submitted)
      ensures requests == old(requests) && destroyed == old(destroyed)
      ensures node.tick == old(node.tick) + events && node.held <= old(node.held)
    {
      hide Accounted, WritesOfRequests, WritesOf, LogicalBytes, ReapsSince;
      for n := 0 to events
        invariant Consistent() && Aged(k) && Repr == old(Repr) && history == old(history) && submitted == old(submitted)
        invariant requests == old(requests) && destroyed == old(destroyed)
        invariant node.tick == old(node.tick) + n && node.held <= old(node.held)
      {
        node.Advance();
      }
    }

    /** One round of the benchmark: reap if the timer has expired, so that no request completed
        before stays in the vector, then serve the housekeeping events, each with a step of the node. */
    method Update(expired: bool, events: nat)
      requires Valid()
      modifies Repr
      ensures Valid() && Repr == old(Repr)
      ensures history == old(history) + [UpdateCall(expired)] && submitted == old(submitted)
      ensures old(destroyed) <= destroyed
      ensures !expired ==> requests == old(requests) && destroyed == old(destroyed)
      ensures expired ==> forall r: Request | r in old(Repr) && r in old(requests) && old(r.completed) :: r !in requests
      ensures node.tick == old(node.tick) + events + if expired then 1 + |old(requests)| else 0
      ensures 0 < node.patience <= events ==>
                node.held == {} && forall r: Request | r in requests && r in Repr :: r.completed
    {
      if expired {
        ProcessAndReap();
      }
      Housekeep(events, if expired then 1 else 0);
      SubmittedAreWritten();
      AppendUpdate(history, expired);
      ReapsAfterUpdate(history, expired);
      history := history + [UpdateCall(expired)];
    }

    /** Deletes the request in the last slot. The node must not hold it any more. */
    method DropLast()
      requires requests != [] && Last(requests) !in node.held && Accounted(submitted, destroyed, requests)
      modifies this`requests, this`destroyed
      ensures requests == Front(old(requests)) && destroyed == old(destroyed) + [Last(old(requests))]
      ensures Accounted(submitted, destroyed, requests)
    {
      AccountedAfterRemoval(submitted, destroyed, requests, |requests| - 1);
      destroyed := destroyed + [Last(requests)];
      requests := Front(requests);
    }

    /** The destructor. The node goes first, so that each deletion meets its obligation towards the
        node; in the end every request ever created has been deleted exactly once. */
    method Destroy()
      requires Valid()
      modifies Repr
      ensures node.held == {} && requests == []
      ensures submitted == old(submitted) && Accounted(submitted, destroyed, [])
      ensures old(destroyed) <= destroyed
    {
      node.Reset();
      while requests != []
        invariant node.held == {}
        invariant submitted == old(submitted) && Accounted(submitted, destroyed, requests)
        invariant old(destroyed) <= destroyed
        decreases |requests|
      {
        DropLast();
      }
    }

    /** The statement of safety in one place: nothing the node holds has been deleted, and what
        has been deleted is gone from the vector. */
    lemma NoDanglingRequest(r: Request)
      requires Consistent()
      ensures r in node.held ==> r in requests && r !in destroyed && multiset(requests)[r] == 1
      ensures r in destroyed ==> r !in node.held && r !in requests && multiset(destroyed)[r] == 1
    {
      if r in node.held || r in destroyed {
        assert r in multiset(destroyed) + multiset(requests) by {
          assert r in requests ==> r in multiset(requests);
          assert r in destroyed ==> r in multiset(destroyed);
        }
        assert r in multiset(submitted);
        OwnedOrDeletedOnce(submitted, destroyed, requests, r);
      }
    }

    /** The requests in the vector are writes received, among them all since the last `Update` whose
        timer had expired, and with a node of patience `d` none before the `d`-th last. */
    lemma PoolIsBounded()
      requires Valid()
      ensures |WritesOf(history)| - FlushedCount(history) <= |requests| <= |WritesOf(history)|
      ensures node.patience > 0 ==> |requests| <= |WritesOf(history)| - FlushedBefore(history, node.patience)
    {
      SubmittedAreWritten();
      assert |multiset(destroyed)| + |multiset(requests)| == |multiset(submitted)|;
      if node.patience > 0 {
        var from := FlushedBefore(history, node.patience);
        forall r | r in requests
          ensures r in submitted[from..] && multiset(requests)[r] == 1
        {
          assert Young(r, node.patience, history, 0);
          ReapsSinceIff(history, r.rank, node.patience);
          assert submitted[from..][r.rank - from] == r;
          OwnedOrDeletedOnce(submitted, destroyed, requests, r);
        }
        DistinctMembersAreFewer(requests, submitted[from..]);
      }
    }
  }
}
