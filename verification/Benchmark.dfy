/** The write benchmark: pacing, random choice of key and blob, and sequence numbering, driving
    one backend through its interface. */
module Benchmark {
  import opened Machine
  import opened Journal
  import opened Config
  import opened Pacing
  import opened Traces
  import opened BlobCache
  import opened Backends

  /** Everything the benchmark does not control: the clock, the random numbers, the backend's
      timer in each `Update`, and the number of housekeeping events served there. */
  datatype World = World(clock: Clock, entropy: Entropy, expired: nat -> bool, events: nat -> nat)

  /** What the code relies on: a distribution over a non-empty range, a non-empty cache, blobs that
      have a first byte to point at, and a key count to divide by. */
  predicate Runnable(s: Settings) {
    1 <= s.minBlobSize <= s.maxBlobSize && 0 < s.randomBlobCacheSize && 0 < s.blobKeyCount
  }

  // ---------------------------------------------------------------- the calls a run makes

  lemma RemainderIsSmaller(x: nat, m: nat)
    requires m > 0
    ensures x % m <= x
  {
  }

  /** A random word reduced to a key; a 32-bit word stays one, whatever the key count. */
  function KeyOf(word: uint32, keyCount: uint64): (key: uint32)
    requires keyCount > 0
    ensures key < keyCount
  {
    RemainderIsSmaller(word, keyCount);
    var x: nat, m: nat := word, keyCount;
    x % m
  }

  /** Every key is drawn for some word: a word below the key count is its own key. */
  lemma SmallWordsAreTheirKeys(word: uint32, keyCount: uint64)
    requires word < keyCount
    ensures KeyOf(word, keyCount) == word
  {
  }

  /** And the words of a key are those that are multiples of the key count apart. */
  lemma SameKeyIff(word: uint32, other: uint32, keyCount: uint64)
    requires keyCount > 0
    ensures KeyOf(word, keyCount) == KeyOf(other, keyCount) <==> exists k: int :: word - other == k * keyCount
  {
    var w: int, o: int, m: int := word, other, keyCount;
    if exists k: int :: w - o == k * m {
      var k: int :| w - o == k * m;
      RemaindersAreUnique(m, w / m - o / m - k, w % m, o % m);
    }
    if KeyOf(word, keyCount) == KeyOf(other, keyCount) {
      assert w - o == (w / m - o / m) * m;
    }
  }

  /** Remainders that differ by a multiple of the divisor are equal. */
  lemma RemaindersAreUnique(m: nat, q: int, r: nat, t: nat)
    requires r < m && t < m && r + q * m == t
    ensures r == t
  {
    Multiples(q, m);
  }

  lemma Multiples(q: int, m: nat)
    ensures q >= 1 ==> q * m >= m
    ensures q <= -1 ==> q * m + m <= 0
  {
  }

  /** The `k`-th write of a run; sequence numbers are 32-bit and wrap. */
  function NthWrite(s: Settings, world: World, k: nat): Write
    requires Runnable(s)
  {
    var (blobs, at) := Blobs(world.entropy, 0, s.minBlobSize, s.maxBlobSize, s.randomBlobCacheSize);
    BlobsAreBounded(world.entropy, 0, s.minBlobSize, s.maxBlobSize, s.randomBlobCacheSize);
    Write(KeyOf(Wrap32(world.entropy(at + 2 * k + 1)), s.blobKeyCount), Wrap32(k),
          blobs[UniformAt(world.entropy, at + 2 * k, 0, |blobs| - 1)])
  }

  /** The run that these settings and this world determine. */
  function PlanOf(s: Settings, world: World): Plan
    requires Runnable(s)
  {
    Plan(world.clock, s.writeRate, (k: nat) => NthWrite(s, world, k), world.expired)
  }

  lemma PlanWrites(s: Settings, world: World, k: nat)
    requires Runnable(s)
    ensures PlanOf(s, world).write(k) == NthWrite(s, world, k)
  {
  }

  lemma PlanIsNumbered(s: Settings, world: World)
    requires Runnable(s)
    ensures var p := PlanOf(s, world);
            p.clock == world.clock && p.rate == s.writeRate && p.expired == world.expired && Numbered(p)
  {
  }

  // ---------------------------------------------------------------- what can be written

  /** A pool of blobs, and for each write its place there and its key. */
  datatype Choices = Choices(blobs: seq<Blob>, pick: nat -> nat, key: nat -> nat)

  ghost predicate Admissible(s: Settings, c: Choices) {
    && |c.blobs| == s.randomBlobCacheSize && InRange(c.blobs, s.minBlobSize, s.maxBlobSize)
    && forall k: nat :: c.pick(k) < |c.blobs| && c.key(k) < s.blobKeyCount && c.key(k) < WORD32
  }

  /** The write that these choices make the `k`-th. */
  function ChosenWrite(s: Settings, c: Choices, k: nat): Write
    requires Admissible(s, c)
  {
    assert c.pick(k) < |c.blobs|;
    Write(c.key(k), Wrap32(k), c.blobs[c.pick(k)])
  }

  /** A stream that makes them: first the pool, then for each write its blob and its key. */
  function EntropyFor(s: Settings, c: Choices): Entropy
    requires Admissible(s, c)
  {
    var draws := DrawsOf(c.blobs, s.minBlobSize);
    (i: nat) =>
      if i < |draws| then draws[i]
      else if (i - |draws|) % 2 == 0 then c.pick((i - |draws|) / 2)
      else c.key((i - |draws|) / 2)
  }

  /** Whatever pool, blobs and keys one chooses within range, some stream of random numbers makes a
      run write exactly those. */
  lemma EveryChoiceIsDrawn(s: Settings, world: World, c: Choices, k: nat)
    requires Runnable(s) && Admissible(s, c)
    ensures NthWrite(s, world.(entropy := EntropyFor(s, c)), k) == ChosenWrite(s, c, k)
  {
    hide EntropyFor, Blobs, DrawsOf, UniformAt, KeyOf;
    var entropy, from := EntropyFor(s, c), |DrawsOf(c.blobs, s.minBlobSize)|;
    EntropyStands(s, c, k);
    EveryCacheIsDrawn(entropy, 0, c.blobs, s.minBlobSize, s.maxBlobSize);
    InRangeDraw(entropy, from + 2 * k, 0, |c.blobs| - 1, c.pick(k));
    SmallNumbersDoNotWrap(c.key(k));
    SmallWordsAreTheirKeys(c.key(k), s.blobKeyCount);
  }

  lemma EntropyStands(s: Settings, c: Choices, k: nat)
    requires Admissible(s, c)
    ensures var entropy, draws := EntropyFor(s, c), DrawsOf(c.blobs, s.minBlobSize);
            && Stands(entropy, 0, draws)
            && entropy(|draws| + 2 * k) == c.pick(k) < |c.blobs|
            && entropy(|draws| + 2 * k + 1) == c.key(k) < s.blobKeyCount
            && c.key(k) < WORD32
  {
    assert (2 * k) % 2 == 0 && (2 * k) / 2 == k && (2 * k + 1) % 2 == 1 && (2 * k + 1) / 2 == k;
    assert c.pick(k) < |c.blobs|;
  }

  /** The choices that a stream makes. */
  function ChoicesOf(s: Settings, world: World): Choices
    requires Runnable(s)
  {
    var (blobs, at) := Blobs(world.entropy, 0, s.minBlobSize, s.maxBlobSize, s.randomBlobCacheSize);
    Choices(blobs, (k: nat) => UniformAt(world.entropy, at + 2 * k, 0, s.randomBlobCacheSize - 1),
            (k: nat) => KeyOf(Wrap32(world.entropy(at + 2 * k + 1)), s.blobKeyCount))
  }

  /** And every stream makes a run write some such choice. */
  lemma EveryDrawIsAChoice(s: Settings, world: World, k: nat)
    requires Runnable(s)
    ensures Admissible(s, ChoicesOf(s, world)) && NthWrite(s, world, k) == ChosenWrite(s, ChoicesOf(s, world), k)
  {
    hide Blobs, UniformAt, KeyOf, Wrap32;
    BlobsAreBounded(world.entropy, 0, s.minBlobSize, s.maxBlobSize, s.randomBlobCacheSize);
  }

  /** The housekeeping events of the first `n` iterations. */
  function Served(events: nat -> nat, n: nat): nat {
    if n == 0 then 0 else Served(events, n - 1) + events(n - 1)
  }

  lemma ServedOne(events: nat -> nat, n: nat)
    ensures Served(events, 0) == 0 && Served(events, n + 1) == Served(events, n) + events(n)
  {
  }

  // ---------------------------------------------------------------- the benchmark

  /** The cache holds the blobs of this run, and `total` writes have been drawn since it was filled. */
  ghost predicate Drawn(config: Settings, world: World, cache: RandomBlobCache, random: Generator, total: nat)
    requires Runnable(config)
    reads cache, random
  {
    var (blobs, at) := Blobs(world.entropy, 0, config.minBlobSize, config.maxBlobSize, config.randomBlobCacheSize);
    cache.blobs == blobs && random.entropy == world.entropy && random.drawn == at + 2 * total
  }

  /** Draws the blob and the key of the next write. */
  method DrawWrite(config: Settings, world: World, cache: RandomBlobCache, random: Generator,
                   seqno: uint32, ghost total: nat) returns (key: uint32, blob: Blob)
    requires Runnable(config) && seqno == Wrap32(total)
    requires Drawn(config, world, cache, random, total)
    modifies random
    ensures Drawn(config, world, cache, random, total + 1)
    ensures Write(key, seqno, blob) == NthWrite(config, world, total)
  {
    BlobsAreBounded(world.entropy, 0, config.minBlobSize, config.maxBlobSize, config.randomBlobCacheSize);
    blob := cache.GetRandomBlob(random);
    var word := random.Word();
    key := KeyOf(word, config.blobKeyCount);
  }

  /** The inner loop: issue writes while any amount is pending. `target` is where the accumulator
      must end up. */
  method IssuePending(config: Settings, backend: Backend, world: World, cache: RandomBlobCache, random: Generator,
                      amount: int, issued: uint32, ghost rounds: nat, ghost start: nat, ghost target: Pacer)
    returns (pending: int, numWrites: uint32, ok: bool, ghost total: nat)
    requires Runnable(config) && issued == Wrap32(start) && start == Issued(PlanOf(config, world), rounds)
    requires Drawn(config, world, cache, random, start)
    requires Drain(Pacer(amount, start)) == target
    requires backend.Valid() && random !in backend.Footprint() && cache !in backend.Footprint()
    requires backend.History() == PartialTrace(PlanOf(config, world), rounds, start)
    modifies random, backend.Footprint()
    ensures backend.Valid() && fresh(backend.Footprint() - old(backend.Footprint()))
    ensures start <= total && backend.History() == PartialTrace(PlanOf(config, world), rounds, total)
    ensures backend.Steps() == old(backend.Steps())
    ensures ok ==> Pacer(pending, total) == target
                   && numWrites == Wrap32(total) && Drawn(config, world, cache, random, total)
    ensures !ok ==> total < target.issued
                    && backend.MayRefuse(WritesOf(backend.History()), NthWrite(config, world, total))
  {
    hide Backend.Valid, Backend.History, Drawn, NthWrite, PlanOf, Issued, PartialTrace, Drain, Wrap32;
    pending, numWrites, total := amount, issued, start;
    ok := true;
    ghost var p := PlanOf(config, world);
    DrainOne(Pacer(pending, total));
    while pending > 0
      invariant backend.Valid() && fresh(backend.Footprint() - old(backend.Footprint()))
      invariant random !in backend.Footprint() && cache !in backend.Footprint()
      invariant start <= total && Drawn(config, world, cache, random, total) && numWrites == Wrap32(total)
      invariant Drain(Pacer(pending, total)) == target && (pending <= 0 ==> Pacer(pending, total) == target)
      invariant backend.History() == PartialTrace(p, rounds, total) && backend.Steps() == old(backend.Steps())
      decreases pending
    {
      var seqno := numWrites;
      var key, randomBlob := DrawWrite(config, world, cache, random, seqno, total);
      DrainIssues(Pacer(pending, total));
      ok := backend.Set(key, seqno, randomBlob);
      if !ok {
        return;
      }
      PlanWrites(config, world, total);
      NextCall(p, rounds, total);
      NextSeqno(total);
      DrainOne(Pacer(pending, total));
      pending := pending - MILLION;
      numWrites := Wrap32(numWrites + 1);
      total := total + 1;
      DrainOne(Pacer(pending, total));
    }
  }

  lemma {:induction false} DrainIssues(p: Pacer)
    ensures Drain(p).issued >= p.issued
    ensures p.pending > 0 ==> Drain(p).issued > p.issued
    decreases p.pending
  {
    if p.pending > 0 {
      DrainIssues(Pacer(p.pending - MILLION, p.issued + 1));
    }
  }

  /** A refused write comes after at least 2^32 accepted ones. */
  lemma RefusalsComeLate(p: Plan, n: nat, total: nat, backend: Backend)
    requires Numbered(p) && Issued(p, n) <= total
    requires backend.MayRefuse(WritesOf(PartialTrace(p, n, total)), p.write(total))
    ensures |WritesOf(PartialTrace(p, n, total))| == total >= WORD32
  {
    TraceWritesDuring(p, n, total);
    if total < WORD32 {
      StreamIsAccepted(p, total + 1);
    }
  }

  /** Everything is where the run stands after `rounds` iterations and `total` writes. */
  ghost predicate Ready(config: Settings, backend: Backend, world: World, cache: RandomBlobCache, random: Generator,
                        pending: int, prevTime: int, numWrites: uint32, rounds: nat, total: nat)
    requires Runnable(config)
    reads cache, random, if backend.JellyBackend? then {backend.jelly} else {}, backend.Footprint()
  {
    && backend.Valid() && random !in backend.Footprint() && cache !in backend.Footprint()
    && Drawn(config, world, cache, random, total)
    && Pacer(pending, total) == After(world.clock, config.writeRate, rounds) && numWrites == Wrap32(total)
    && backend.History() == Trace(PlanOf(config, world), rounds)
    && prevTime == Previous(world.clock, rounds)
  }

  /** What is known of the calls when the run stops there. */
  lemma ReadyToStop(config: Settings, backend: Backend, world: World, cache: RandomBlobCache, random: Generator,
                    pending: int, prevTime: int, numWrites: uint32, rounds: nat, total: nat)
    requires Runnable(config)
    requires Ready(config, backend, world, cache, random, pending, prevTime, numWrites, rounds, total)
    ensures backend.Valid() && backend.History() == Trace(PlanOf(config, world), rounds)
    ensures numWrites == Wrap32(Issued(PlanOf(config, world), rounds))
  {
    PlanIsNumbered(config, world);
  }

  /** The random engine of a run, and the cache filled from it. */
  method Prepare(config: Settings, backend: Backend, world: World)
    returns (random: Generator, cache: RandomBlobCache)
    requires Runnable(config) && backend.Valid() && backend.History() == []
    ensures fresh(random) && fresh(cache) && Ready(config, backend, world, cache, random, 0, world.clock.start, 0, 0, 0)
  {
    hide Backend.Valid, Backend.History;
    ghost var footprint := backend.Footprint();  // older than both
    random := new Generator(world.entropy);
    cache := new RandomBlobCache(config, random);
    NothingYet(PlanOf(config, world));
  }

  /** A `Set` ended the process in iteration `n`, which its first 2^32 writes cannot do. */
  ghost predicate RefusedIn(config: Settings, backend: Backend, world: World, n: nat)
    requires Runnable(config)
    reads if backend.JellyBackend? then {backend.jelly} else {}, backend.Footprint()
  {
    var p, total := PlanOf(config, world), |WritesOf(backend.History())|;
    && Issued(p, n) <= total < Issued(p, n + 1)
    && backend.History() == PartialTrace(p, n, total)
    && backend.MayRefuse(WritesOf(backend.History()), NthWrite(config, world, total))
    && total >= WORD32
  }

  /** The rest of an iteration that starts at `currentTime`: count the time passed since `prevTime`,
      accumulate, issue, update. */
  method Iterate(config: Settings, backend: Backend, world: World, cache: RandomBlobCache, random: Generator,
                 before: int, prevTime: int, currentTime: int, issued: uint32, round: nat, ghost start: nat)
    returns (pending: int, numWrites: uint32, ok: bool, ghost total: nat)
    requires Runnable(config) && currentTime == world.clock.reading(round)
    requires Ready(config, backend, world, cache, random, before, prevTime, issued, round, start)
    modifies random, backend.Footprint()
    ensures backend.Valid() && fresh(backend.Footprint() - old(backend.Footprint()))
    ensures ok ==> Ready(config, backend, world, cache, random, pending, currentTime, numWrites, round + 1, total)
    ensures ok && backend.JellyBackend? ==> backend.Steps() >= old(backend.Steps()) + world.events(round)
    ensures !ok ==> RefusedIn(config, backend, world, round)
  {
    hide Backend.Valid, Backend.History, Backend.MayRefuse, Drawn, NthWrite, PlanOf, Numbered, Runnable;
    hide Issued, Trace, PartialTrace, Drain, Wrap32, After;
    ghost var p := PlanOf(config, world);
    PlanIsNumbered(config, world);
    NextRound(p, round);
    var passed := Wrap32((currentTime - prevTime) / 1000);
    var amount := before + passed * config.writeRate;
    ghost var target := After(world.clock, config.writeRate, round + 1);
    pending, numWrites, ok, total :=
      IssuePending(config, backend, world, cache, random, amount, issued, round, start, target);
    if ok {
      backend.Update(world.expired(round), world.events(round));
    } else {
      PlanWrites(config, world, total);
      RefusalsComeLate(p, round, total, backend);
    }
  }

  /** Runs to the end, unless a `Set` ends the process first (`finished` is false). `rounds` is the
      number of completed iterations. */
  method WriteBenchmark(config: Settings, backend: Backend, world: World)
    returns (numWrites: uint32, finished: bool, rounds: nat)
    requires Runnable(config) && Steady(world.clock)
    requires backend.Valid() && backend.History() == []
    modifies backend.Footprint()
    ensures backend.Valid()
    ensures rounds <= 1000 * config.writeRunSeconds
    ensures StillRuns(world.clock, config.writeRunSeconds, rounds)
    ensures finished ==>
              && backend.History() == Trace(PlanOf(config, world), rounds)
              && numWrites == Wrap32(Issued(PlanOf(config, world), rounds))
              && LastsFor(world.clock, config.writeRunSeconds, rounds)
    ensures finished && backend.JellyBackend? ==> backend.Steps() >= old(backend.Steps()) + Served(world.events, rounds)
    ensures !finished ==> RefusedIn(config, backend, world, rounds)
  {
    hide Backend.Valid, Backend.History, Backend.Steps, Ready, PlanOf, Runnable, RefusedIn;
    hide Issued, Trace, Wrap32, Steady, StillRuns, Served;
    ServedOne(world.events, 0);
    NotOverYet(world.clock, config.writeRunSeconds);
    var random, randomBlobCache := Prepare(config, backend, world);

    var pending := 0;
    var prevTime := world.clock.start;
    var endTime := world.clock.start + config.writeRunSeconds * 1000 * MILLION;
    numWrites, rounds := 0, 0;
    ghost var total := 0;
    while true
      invariant fresh(backend.Footprint() - old(backend.Footprint()))
      invariant Ready(config, backend, world, randomBlobCache, random, pending, prevTime, numWrites, rounds, total)
      invariant backend.JellyBackend? ==> backend.Steps() >= old(backend.Steps()) + Served(world.events, rounds)
      invariant StillRuns(world.clock, config.writeRunSeconds, rounds) && rounds <= 1000 * config.writeRunSeconds
      decreases 1000 * config.writeRunSeconds - rounds
    {
      var currentTime := world.clock.reading(rounds);
      if currentTime >= endTime {
        finished := true;
        ReadyToStop(config, backend, world, randomBlobCache, random, pending, prevTime, numWrites, rounds, total);
        return;
      }
      ServedOne(world.events, rounds);
      RunsOn(world.clock, config.writeRunSeconds, rounds);
      RunsEnd(world.clock, config.writeRunSeconds, rounds);

      var ok;
      pending, numWrites, ok, total := Iterate(config, backend, world, randomBlobCache, random, pending, prevTime,
                                               currentTime, numWrites, rounds, total);
      prevTime := currentTime;
      if !ok {
        finished := false;
        return;
      }
      rounds := rounds + 1;
    }
  }
}
