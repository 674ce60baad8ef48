/** The durable contents of the RocksDB node, two column families written by two separate puts,
    and what survives when a run of `Set` calls stops between any two puts. */
module RocksDBStore {
  import opened Machine
  import opened Journal
  import opened LastWriter

  /** `blobs[k]` is the write whose blob is stored for `k`; only its blob is visible to the
      database. `seqs[k]` is the sequence number recorded in the other column family. */
  datatype Store = Store(blobs: map<uint32, Write>, seqs: map<uint32, uint32>)

  const EMPTY := Store(map[], map[])

  /** The read guard of `Set`. */
  predicate Fresh(st: Store, w: Write) {
    w.key !in st.seqs || st.seqs[w.key] < w.seqno
  }

  function PutBlob(st: Store, w: Write): Store {
    st.(blobs := st.blobs[w.key := w])
  }

  function PutSeq(st: Store, w: Write): Store {
    st.(seqs := st.seqs[w.key := w.seqno])
  }

  function Set(st: Store, w: Write): Store {
    if Fresh(st, w) then PutSeq(PutBlob(st, w), w) else st
  }

  /** The durable states that one `Set` passes through, one per put. */
  function SetSteps(st: Store, w: Write): seq<Store> {
    if Fresh(st, w) then [PutBlob(st, w), PutSeq(PutBlob(st, w), w)] else []
  }

  function SetAll(st: Store, ws: seq<Write>): Store {
    if ws == [] then st else Set(SetAll(st, Front(ws)), Last(ws))
  }

  /** Every durable state of a run of `Set` calls, the initial one first. */
  function States(st: Store, ws: seq<Write>): (r: seq<Store>)
    ensures r != []
  {
    if ws == [] then [st]
    else States(st, Front(ws)) + SetSteps(SetAll(st, Front(ws)), Last(ws))
  }

  /** The two column families of a register: the same keys in both. */
  function Split(r: Register): Store {
    Store(r, map k | k in r :: r[k].seqno)
  }

  lemma {:induction false} StatesEnd(st: Store, ws: seq<Write>)
    ensures Last(States(st, ws)) == SetAll(st, ws)
  {
    if ws != [] {
      StatesEnd(st, Front(ws));
    }
  }

  lemma {:induction false} SetAllAppend(st: Store, xs: seq<Write>, ys: seq<Write>)
    ensures SetAll(st, xs + ys) == SetAll(SetAll(st, xs), ys)
  {
    if ys == [] {
      assert xs + ys == xs;
    } else {
      SetAllAppend(st, xs, Front(ys));
      assert Front(xs + ys) == xs + Front(ys);
    }
  }

  // ---------------------------------------------------------------- complete runs

  /** Complete `Set` calls keep both families in step, as the last-writer-wins register. */
  lemma {:induction false} CompleteRunRefinesRegister(ws: seq<Write>)
    ensures SetAll(EMPTY, ws) == Split(Run(ws))
  {
    if ws == [] {
      assert Split(map[]) == EMPTY;
    } else {
      CompleteRunRefinesRegister(Front(ws));
      var r, w := Run(Front(ws)), Last(ws);
      assert Split(r[w.key := w]).seqs == Split(r).seqs[w.key := w.seqno];
    }
  }

  // ---------------------------------------------------------------- interruption and replay

  /** Nothing in `ws` would pass the read guard. */
  ghost predicate Covered(st: Store, ws: seq<Write>) {
    forall w | w in ws :: !Fresh(st, w)
  }

  lemma {:induction false} RunCoversItself(st: Store, ws: seq<Write>)
    ensures Covered(SetAll(st, ws), ws)
    ensures forall w | !Fresh(st, w) :: !Fresh(SetAll(st, ws), w)
  {
    if ws != [] {
      RunCoversItself(st, Front(ws));
      assert ws == Front(ws) + [Last(ws)];
    }
  }

  lemma {:induction false} CoveredRunIsNoOp(st: Store, ws: seq<Write>)
    requires Covered(st, ws)
    ensures SetAll(st, ws) == st
  {
    if ws != [] {
      assert ws == Front(ws) + [Last(ws)];
      CoveredRunIsNoOp(st, Front(ws));
    }
  }

  /** Each durable state is a complete prefix, possibly followed by the blob put of the next write. */
  lemma {:induction false} StateShape(st: Store, ws: seq<Write>, i: nat) returns (m: nat, torn: bool)
    requires i < |States(st, ws)|
    ensures if torn
            then m < |ws| && Fresh(SetAll(st, ws[..m]), ws[m])
                 && States(st, ws)[i] == PutBlob(SetAll(st, ws[..m]), ws[m])
            else m <= |ws| && States(st, ws)[i] == SetAll(st, ws[..m])
  {
    if ws == [] {
      m, torn := 0, false;
    } else if i < |States(st, Front(ws))| {
      m, torn := StateShape(st, Front(ws), i);
      assert Front(ws)[..m] == ws[..m];
    } else {
      torn := i == |States(st, Front(ws))|;
      m := if torn then |ws| - 1 else |ws|;
      assert ws[..m] == if torn then Front(ws) else ws;
    }
  }

  /** The durable states that the last write adds. */
  lemma StatesOfLast(st: Store, ws: seq<Write>, i: nat)
    requires ws != [] && i < |States(st, ws)|
    ensures var before := States(st, Front(ws));
            if i < |before| then States(st, ws)[i] == before[i]
            else if i == |before| then States(st, ws)[i] == PutBlob(SetAll(st, Front(ws)), Last(ws))
            else States(st, ws)[i] == SetAll(st, ws)
  {
  }

  /** A durable state not before the end of the first `flushed` calls holds at least those. */
  lemma {:induction false} SurvivorShape(ws: seq<Write>, flushed: nat, i: nat) returns (m: nat, torn: bool)
    requires flushed <= |ws| && |States(EMPTY, ws[..flushed])| - 1 <= i < |States(EMPTY, ws)|
    ensures flushed <= m <= |ws| && (torn ==> m < |ws|)
    ensures States(EMPTY, ws)[i]
            == if torn then PutBlob(SetAll(EMPTY, ws[..m]), ws[m]) else SetAll(EMPTY, ws[..m])
    decreases |ws|
  {
    hide States, SetAll, PutBlob;
    if flushed == |ws| {
      assert ws[..flushed] == ws;
      StatesEnd(EMPTY, ws);
      m, torn := flushed, false;
    } else {
      StatesOfLast(EMPTY, ws, i);
      if i < |States(EMPTY, Front(ws))| {
        assert Front(ws)[..flushed] == ws[..flushed];
        m, torn := SurvivorShape(Front(ws), flushed, i);
        assert Front(ws)[..m] == ws[..m];
      } else {
        torn := i == |States(EMPTY, Front(ws))|;
        m := if torn then |ws| - 1 else |ws|;
        assert ws[..m] == if torn then Front(ws) else ws;
      }
    }
  }

  /** A state with the recorded numbers of a complete prefix ignores a replay of that prefix. */
  lemma PrefixIsIgnored(st: Store, pre: seq<Write>, post: seq<Write>, survivor: Store)
    requires survivor.seqs == SetAll(st, pre).seqs
    ensures SetAll(survivor, pre + post) == SetAll(survivor, post)
  {
    RunCoversItself(st, pre);
    CoveredRunIsNoOp(survivor, pre);
    SetAllAppend(survivor, pre, post);
  }

  /** A blob put alone does not change what the replay of its write and all later ones does. */
  lemma TornHeadIsRedone(mid: Store, w: Write, rest: seq<Write>)
    requires Fresh(mid, w)
    ensures SetAll(PutBlob(mid, w), [w] + rest) == SetAll(mid, [w] + rest)
  {
    var torn := PutBlob(mid, w);
    SetAllAppend(torn, [w], rest);
    SetAllAppend(mid, [w], rest);
    assert Front([w]) == [];
    assert SetAll(torn, [w]) == Set(torn, w) == Set(mid, w) == SetAll(mid, [w]) by {
      assert PutBlob(torn, w) == torn;
    }
  }

  /** Replaying the list from its beginning, on whatever state an interrupted run left behind,
      ends exactly where the uninterrupted run ends; `st` need not be empty or consistent. */
  lemma ReplayConverges(st: Store, ws: seq<Write>, i: nat)
    requires i < |States(st, ws)|
    ensures SetAll(States(st, ws)[i], ws) == SetAll(st, ws)
  {
    hide States, SetAll, Fresh;
    var m, torn := StateShape(st, ws, i);
    var pre, post := ws[..m], ws[m..];
    assert ws == pre + post;
    PrefixIsIgnored(st, pre, post, States(st, ws)[i]);
    SetAllAppend(st, pre, post);
    if torn {
      assert post == [ws[m]] + ws[m + 1..];
      TornHeadIsRedone(SetAll(st, pre), ws[m], ws[m + 1..]);
    }
  }

  /** The state left by a series of attempts, each restarted from the beginning of the list and
      stopped after `stops[n]` puts (or after the last one, when the list has fewer). */
  function Attempts(st: Store, ws: seq<Write>, stops: seq<nat>): Store {
    if stops == [] then st
    else
      var states := States(Attempts(st, ws, Front(stops)), ws);
      states[if Last(stops) < |states| then Last(stops) else |states| - 1]
  }

  /** Any number of interruptions, at any puts, are repaired by one complete replay. */
  lemma {:induction false} InterruptedReplaysConverge(st: Store, ws: seq<Write>, stops: seq<nat>)
    ensures SetAll(Attempts(st, ws, stops), ws) == SetAll(st, ws)
  {
    if stops != [] {
      var before := Attempts(st, ws, Front(stops));
      InterruptedReplaysConverge(st, ws, Front(stops));
      var n := |States(before, ws)|;
      ReplayConverges(before, ws, if Last(stops) < n then Last(stops) else n - 1);
    }
  }

  /** The order of the two puts is what makes this work. With the sequence number put first, a write
      torn between its puts is lost for good: no replay of writes up to its number brings a blob. */
  lemma {:induction false} SeqFirstLosesTheBlob(st: Store, w: Write, ws: seq<Write>)
    requires forall v | v in ws && v.key == w.key :: v.seqno <= w.seqno
    ensures var r := SetAll(PutSeq(st, w), ws);
            && (w.key in r.blobs <==> w.key in st.blobs)
            && (w.key in r.blobs ==> r.blobs[w.key] == st.blobs[w.key])
            && w.key in r.seqs && r.seqs[w.key] == w.seqno
  {
    StaleKeyIsUntouched(PutSeq(st, w), ws, w.key);
  }

  /** For one, a write torn on the empty store leaves its key without a blob for ever, where the
      actual order of the puts recovers it. */
  lemma SeqFirstWitness()
    ensures var w := Write(0, 0, [1]);
            && w.key !in SetAll(PutSeq(EMPTY, w), [w]).blobs
            && w.key in SetAll(PutBlob(EMPTY, w), [w]).blobs
  {
    var w := Write(0, 0, [1]);
    SeqFirstLosesTheBlob(EMPTY, w, [w]);
    assert Front([w]) == [];
    assert SetAll(PutBlob(EMPTY, w), [w]) == Set(SetAll(PutBlob(EMPTY, w), []), w);
  }

  /** A key whose recorded number no write of the list exceeds is left alone. */
  lemma {:induction false} StaleKeyIsUntouched(st: Store, ws: seq<Write>, k: uint32)
    requires k in st.seqs
    requires forall w | w in ws && w.key == k :: !Fresh(st, w)
    ensures var r := SetAll(st, ws);
            && k in r.seqs && r.seqs[k] == st.seqs[k]
            && (k in r.blobs <==> k in st.blobs)
            && (k in st.blobs ==> r.blobs[k] == st.blobs[k])
  {
    if ws != [] {
      assert ws == Front(ws) + [Last(ws)];
      StaleKeyIsUntouched(st, Front(ws), k);
    }
  }

  // ---------------------------------------------------------------- torn writes among unrelated ones

  /** One `Set` call of a run that may be interrupted: complete, or stopped after its blob put. */
  datatype Step = Complete(w: Write) | Torn(w: Write)

  function StepTo(st: Store, s: Step): Store {
    match s
    case Complete(w) => Set(st, w)
    case Torn(w) => if Fresh(st, w) then PutBlob(st, w) else st
  }

  function RunSteps(st: Store, steps: seq<Step>): Store {
    if steps == [] then st else StepTo(RunSteps(st, Front(steps)), Last(steps))
  }

  /** A recorded sequence number never exceeds the one the stored blob was written with, and
      never stands without a blob. */
  ghost predicate SeqTrailsBlob(st: Store) {
    forall k | k in st.seqs :: k in st.blobs && st.blobs[k].key == k && st.seqs[k] <= st.blobs[k].seqno
  }

  lemma {:induction false} TornRunsKeepSeqBehindBlob(st: Store, steps: seq<Step>)
    requires SeqTrailsBlob(st)
    ensures SeqTrailsBlob(RunSteps(st, steps))
  {
    if steps != [] {
      TornRunsKeepSeqBehindBlob(st, Front(steps));
    }
  }

  /** Every durable state of every run of `Set` calls is the end of such a run of steps, so what
      holds after all step runs holds at every put. */
  lemma {:induction false} DurableStatesAreStepRuns(st: Store, ws: seq<Write>, i: nat) returns (steps: seq<Step>)
    requires i < |States(st, ws)|
    ensures RunSteps(st, steps) == States(st, ws)[i]
    ensures forall s | s in steps :: s.w in ws
  {
    if ws == [] {
      steps := [];
    } else if i < |States(st, Front(ws))| {
      steps := DurableStatesAreStepRuns(st, Front(ws), i);
    } else {
      var n := |States(st, Front(ws))|;
      steps := DurableStatesAreStepRuns(st, Front(ws), n - 1);
      StatesEnd(st, Front(ws));
      var s := if i == n then Torn(Last(ws)) else Complete(Last(ws));
      assert Front(steps + [s]) == steps;
      steps := steps + [s];
    }
  }

  // ---------------------------------------------------------------- what a tear costs

  /** The writes of a history that were completed. */
  function CompletedOf(steps: seq<Step>): seq<Write> {
    if steps == [] then []
    else match Last(steps)
      case Complete(w) => CompletedOf(Front(steps)) + [w]
      case Torn(_) => CompletedOf(Front(steps))
  }

  lemma {:induction false} CompletedAre(steps: seq<Step>)
    ensures forall w :: w in CompletedOf(steps) <==> Complete(w) in steps
  {
    if steps != [] {
      CompletedAre(Front(steps));
      assert steps == Front(steps) + [Last(steps)];
    }
  }

  /** The recorded numbers are exactly those of the completed writes alone: a tear leaves no mark. */
  lemma {:induction false} RecordedAreCompleted(steps: seq<Step>)
    ensures RunSteps(EMPTY, steps).seqs == Split(Run(CompletedOf(steps))).seqs
  {
    if steps != [] {
      RecordedAreCompleted(Front(steps));
      var s, done := Last(steps), CompletedOf(Front(steps));
      if s.Complete? {
        assert Front(done + [s.w]) == done;
        assert CompletedOf(steps) == done + [s.w];
      }
    }
  }

  /** Step `i` of a history exceeds every number completed for its key before it. */
  ghost predicate Lands(steps: seq<Step>, i: int) {
    && 0 <= i < |steps|
    && forall c | 0 <= c < i && steps[c].Complete? && steps[c].w.key == steps[i].w.key ::
         steps[c].w.seqno < steps[i].w.seqno
  }

  /** A write passes the read guard after a history exactly when it exceeds every number completed
      for its key. */
  lemma {:induction false} FreshIff(steps: seq<Step>, w: Write)
    ensures Fresh(RunSteps(EMPTY, steps), w) <==>
            forall c | 0 <= c < |steps| && steps[c].Complete? && steps[c].w.key == w.key :: steps[c].w.seqno < w.seqno
  {
    var done := CompletedOf(steps);
    RecordedAreCompleted(steps);
    CompletedAre(steps);
    var i := WinnerOf(done, w.key);
    if w.key in Run(done) {
      assert done[i] in done;
      assert Complete(done[i]) in steps;
      forall c | 0 <= c < |steps| && steps[c].Complete? && steps[c].w.key == w.key
        ensures steps[c].w.seqno <= done[i].seqno
      {
        assert steps[c] == Complete(steps[c].w);
        assert steps[c].w in done;
      }
    } else {
      forall c | 0 <= c < |steps| && steps[c].Complete?
        ensures steps[c].w.key != w.key
      {
        assert steps[c] == Complete(steps[c].w);
        assert steps[c].w in done;
        assert Mentions(done, steps[c].w.key);
      }
    }
  }

  /** Step `i` is the last one on `k` to land. */
  ghost predicate LandsLast(steps: seq<Step>, k: uint32, i: int) {
    && Lands(steps, i) && steps[i].w.key == k
    && forall j | i < j < |steps| && steps[j].w.key == k :: !Lands(steps, j)
  }

  lemma LandsInPrefix(steps: seq<Step>)
    requires steps != []
    ensures forall j | 0 <= j < |steps| - 1 :: steps[j] == Front(steps)[j]
    ensures forall j | 0 <= j < |steps| - 1 :: Lands(steps, j) <==> Lands(Front(steps), j)
    ensures Lands(steps, |steps| - 1) <==>
            forall c | 0 <= c < |Front(steps)| && Front(steps)[c].Complete?
                       && Front(steps)[c].w.key == Last(steps).w.key ::
              Front(steps)[c].w.seqno < Last(steps).w.seqno
  {
    assert forall j | 0 <= j < |steps| - 1 :: steps[j] == Front(steps)[j];
  }

  /** The stored blob is the one of the last step on its key that exceeded all numbers completed
      before it, torn or not; a key that any step wrote to has one. */
  lemma {:induction false} StoredIsLastLanding(steps: seq<Step>, k: uint32) returns (i: int)
    ensures k in RunSteps(EMPTY, steps).blobs <==> exists j :: 0 <= j < |steps| && steps[j].w.key == k
    ensures k in RunSteps(EMPTY, steps).blobs ==>
              LandsLast(steps, k, i) && RunSteps(EMPTY, steps).blobs[k] == steps[i].w
  {
    if steps == [] {
      i := -1;
    } else {
      var pre, n := Front(steps), |steps| - 1;
      i := StoredIsLastLanding(pre, k);
      LandsInPrefix(steps);
      FreshIff(pre, steps[n].w);
      if steps[n].w.key == k {
        assert Fresh(RunSteps(EMPTY, pre), steps[n].w) <==> Lands(steps, n);
        if Lands(steps, n) {
          i := n;
        } else {
          var c :| 0 <= c < n && steps[c].Complete? && steps[c].w.key == k && steps[c].w.seqno >= steps[n].w.seqno;
          assert pre[c].w.key == k;
        }
      }
    }
  }

  lemma LandsLastIsUnique(steps: seq<Step>, k: uint32, i: int, j: int)
    requires LandsLast(steps, k, i) && LandsLast(steps, k, j)
    ensures i == j
  {
  }

  /** The next step takes the blob of its key back to an older write exactly when it exceeds every
      number completed for the key but not the number of the last write that landed there. */
  lemma StaleOverwriteWindow(steps: seq<Step>, s: Step, i: int)
    requires LandsLast(steps, s.w.key, i)
    ensures var k, before, after := s.w.key, RunSteps(EMPTY, steps), RunSteps(EMPTY, steps + [s]);
            && k in before.blobs && k in after.blobs && before.blobs[k] == steps[i].w
            && (after.blobs[k].seqno < before.blobs[k].seqno <==>
                  Lands(steps + [s], |steps|) && s.w.seqno < steps[i].w.seqno)
            && forall j | j in before.blobs && j != k :: j in after.blobs && after.blobs[j] == before.blobs[j]
  {
    var l := StoredIsLastLanding(steps, s.w.key);
    LandsLastIsUnique(steps, s.w.key, i, l);
    FreshIff(steps, s.w);
    assert Front(steps + [s]) == steps;
    assert forall c | 0 <= c < |steps| :: (steps + [s])[c] == steps[c];
  }

  /** No step on the key of step `i` carries a larger number. */
  ghost predicate Greatest(steps: seq<Step>, i: int) {
    && 0 <= i < |steps|
    && forall j | 0 <= j < |steps| && steps[j].w.key == steps[i].w.key :: steps[j].w.seqno <= steps[i].w.seqno
  }

  /** The greatest number submitted for `k` was completed once, or its last tear was followed by no
      write to `k` above all numbers completed before that write. */
  ghost predicate GreatestIsSafe(steps: seq<Step>, k: uint32) {
    exists i :: Greatest(steps, i) && steps[i].w.key == k
                && (steps[i].Complete? || forall j | i < j < |steps| && steps[j].w.key == k :: !Lands(steps, j))
  }

  /** After any history, a key holds a write with the greatest number ever submitted for it if and
      only if that number was completed, or nothing landed after it. */
  lemma KeepsGreatestIff(steps: seq<Step>, k: uint32)
    requires k in RunSteps(EMPTY, steps).blobs
    ensures (forall s | s in steps && s.w.key == k :: s.w.seqno <= RunSteps(EMPTY, steps).blobs[k].seqno)
            <==> GreatestIsSafe(steps, k)
  {
    var l := StoredIsLastLanding(steps, k);
    var stored := RunSteps(EMPTY, steps).blobs[k];
    if forall s | s in steps && s.w.key == k :: s.w.seqno <= stored.seqno {
      assert forall j | 0 <= j < |steps| :: steps[j] in steps;
      assert Greatest(steps, l);
    }
    if GreatestIsSafe(steps, k) {
      var i :| Greatest(steps, i) && steps[i].w.key == k
               && (steps[i].Complete? || forall j | i < j < |steps| && steps[j].w.key == k :: !Lands(steps, j));
      GreatestIsStored(steps, k, i, l);
    }
  }

  lemma {:induction false} GreatestIsStored(steps: seq<Step>, k: uint32, i: int, l: int)
    requires Greatest(steps, i) && steps[i].w.key == k && LandsLast(steps, k, l)
    requires steps[i].Complete? || forall j | i < j < |steps| && steps[j].w.key == k :: !Lands(steps, j)
    ensures forall s | s in steps && s.w.key == k :: s.w.seqno <= steps[l].w.seqno
    decreases i
  {
    assert l <= i;
    if Lands(steps, i) {
      assert l == i;
      forall s | s in steps && s.w.key == k
        ensures s.w.seqno <= steps[l].w.seqno
      {
        var j :| 0 <= j < |steps| && steps[j] == s;
      }
    } else {
      var c :| 0 <= c < i && steps[c].Complete? && steps[c].w.key == k && steps[c].w.seqno >= steps[i].w.seqno;
      assert Greatest(steps, c);
      GreatestIsStored(steps, k, c, l);
    }
  }

  /** The window is real: a tear lets a stale write win, although its number is below the torn one. */
  lemma TearLetsStaleWriteWin()
    ensures var steps := [Torn(Write(0, 5, [1])), Complete(Write(0, 3, [2]))];
            var r := RunSteps(EMPTY, steps);
            && 0 in r.blobs && r.blobs[0] == Write(0, 3, [2]) && 0 in r.seqs && r.seqs[0] == 3
            && !GreatestIsSafe(steps, 0)
  {
    var steps := [Torn(Write(0, 5, [1])), Complete(Write(0, 3, [2]))];
    assert Front(steps) == [steps[0]] && Front([steps[0]]) == [];
    assert RunSteps(EMPTY, [steps[0]]) == StepTo(RunSteps(EMPTY, []), steps[0]);
    assert RunSteps(EMPTY, steps) == StepTo(RunSteps(EMPTY, [steps[0]]), steps[1]);
    KeepsGreatestIff(steps, 0);
    assert steps[0] in steps;
  }

  /** A key with no tear has no such window: without torn steps the recorded number is exact. */
  lemma {:induction false} UntornKeysAreExact(st: Store, steps: seq<Step>, k: uint32)
    requires SeqTrailsBlob(st)
    requires k in st.blobs ==> k in st.seqs && st.seqs[k] == st.blobs[k].seqno
    requires forall s | s in steps && s.Torn? :: s.w.key != k
    ensures var r := RunSteps(st, steps); k in r.blobs ==> k in r.seqs && r.seqs[k] == r.blobs[k].seqno
  {
    if steps != [] {
      assert steps == Front(steps) + [Last(steps)];
      UntornKeysAreExact(st, Front(steps), k);
    }
  }

  /** One key after a run: untouched, or holding some write of the run in both families. */
  lemma {:induction false} SetAllAt(st: Store, ws: seq<Write>, k: uint32)
    ensures var r := SetAll(st, ws);
            || ((k in r.blobs <==> k in st.blobs) && (k in r.seqs <==> k in st.seqs)
                && (k in st.blobs ==> r.blobs[k] == st.blobs[k]) && (k in st.seqs ==> r.seqs[k] == st.seqs[k]))
            || (k in r.blobs && k in r.seqs && r.blobs[k] in ws && r.blobs[k].key == k
                && r.seqs[k] == r.blobs[k].seqno)
  {
    if ws != [] {
      SetAllAt(st, Front(ws), k);
      assert ws == Front(ws) + [Last(ws)];
    }
  }

  /** Every stored blob was submitted. */
  lemma {:induction false} BlobsAreSubmitted(steps: seq<Step>, ws: seq<Write>)
    requires forall s | s in steps :: s.w in ws
    ensures forall k | k in RunSteps(EMPTY, steps).blobs ::
              RunSteps(EMPTY, steps).blobs[k] in ws && RunSteps(EMPTY, steps).blobs[k].key == k
    ensures SeqTrailsBlob(RunSteps(EMPTY, steps))
  {
    TornRunsKeepSeqBehindBlob(EMPTY, steps);
    if steps != [] {
      assert steps == Front(steps) + [Last(steps)];
      BlobsAreSubmitted(Front(steps), ws);
    }
  }

  /** One complete replay of the submitted writes repairs every key of a torn store. */
  lemma RepairedAt(st: Store, ws: seq<Write>, k: uint32)
    requires TopWritesAgree(ws) && SeqTrailsBlob(st)
    requires forall j | j in st.blobs :: st.blobs[j] in ws && st.blobs[j].key == j
    ensures var r := SetAll(st, ws);
            && (k in r.blobs <==> k in Run(ws)) && (k in r.seqs <==> k in Run(ws))
            && (k in Run(ws) ==> r.blobs[k] == Run(ws)[k] && r.seqs[k] == Run(ws)[k].seqno)
  {
    var r := SetAll(st, ws);
    SetAllAt(st, ws, k);
    RunCoversItself(st, ws);
    var i := WinnerOf(ws, k);
    if k in Run(ws) {
      assert ws[i] in ws;
      assert k in r.seqs && r.seqs[k] >= ws[i].seqno;
      var j :| 0 <= j < |ws| && ws[j] == r.blobs[k];
      assert Top(ws, ws[i]);
      assert Top(ws, ws[j]);
    }
  }

  lemma Repaired(steps: seq<Step>, ws: seq<Write>)
    requires TopWritesAgree(ws) && forall s | s in steps :: s.w in ws
    ensures SetAll(RunSteps(EMPTY, steps), ws) == Split(Run(ws))
  {
    var st := RunSteps(EMPTY, steps);
    BlobsAreSubmitted(steps, ws);
    forall k {
      RepairedAt(st, ws, k);
    }
    assert SetAll(st, ws).blobs == Run(ws);
    assert SetAll(st, ws).seqs == Split(Run(ws)).seqs;
  }

  /** Two different top writes of one key: one of them, submitted first, defeats the replay. */
  lemma TiesDefeatReplay(ws: seq<Write>) returns (steps: seq<Step>)
    requires !TopWritesAgree(ws)
    ensures forall s | s in steps :: s.w in ws
    ensures SetAll(RunSteps(EMPTY, steps), ws) != Split(Run(ws))
  {
    var i, j :| 0 <= i < |ws| && 0 <= j < |ws| && ws[i].key == ws[j].key
                && Top(ws, ws[i]) && Top(ws, ws[j]) && ws[i] != ws[j];
    assert Mentions(ws, ws[i].key);
    var w := WinnerOf(ws, ws[i].key);
    var x := if ws[w] == ws[i] then ws[j] else ws[i];
    TieIsNotRepaired(ws, x);
    steps := [Complete(x)];
  }

  /** Recovery from any history at all: writes submitted in any order, any number of times, each
      complete or torn. Replaying the journal restores the last-writer-wins store after every such
      history exactly when the top writes of each key agree. */
  lemma ReplayRepairsTornRuns(ws: seq<Write>)
    ensures TopWritesAgree(ws) <==>
            forall steps: seq<Step> | (forall s | s in steps :: s.w in ws) ::
              SetAll(RunSteps(EMPTY, steps), ws) == Split(Run(ws))
  {
    if TopWritesAgree(ws) {
      forall steps: seq<Step> | forall s | s in steps :: s.w in ws
        ensures SetAll(RunSteps(EMPTY, steps), ws) == Split(Run(ws))
      {
        Repaired(steps, ws);
      }
    } else {
      var steps := TiesDefeatReplay(ws);
    }
  }

  /** A tied top write that got in first is never replaced. */
  lemma TieIsNotRepaired(ws: seq<Write>, x: Write)
    requires x in ws && Top(ws, x)
    ensures var r := SetAll(RunSteps(EMPTY, [Complete(x)]), ws); x.key in r.blobs && r.blobs[x.key] == x
  {
    assert Front([Complete(x)]) == [];
    assert RunSteps(EMPTY, [Complete(x)]) == StepTo(RunSteps(EMPTY, []), Complete(x));
    StaleKeyIsUntouched(RunSteps(EMPTY, [Complete(x)]), ws, x.key);
  }
}
