/** What a storage backend is asked to do: single writes, and the stream of interface calls
    (`Set` and `Update`) that the benchmark loop issues. */
module Journal {
  import opened Machine

  type Blob = seq<uint8>

  /** The arguments of one `Set` call. */
  datatype Write = Write(key: uint32, seqno: uint32, blob: Blob)

  /** One call on the backend interface; `expired` is what the backend's timer answers. */
  datatype Event = SetCall(write: Write) | UpdateCall(expired: bool)

  function Last<T>(s: seq<T>): T
    requires s != []
  {
    s[|s| - 1]
  }

  function Front<T>(s: seq<T>): seq<T>
    requires s != []
  {
    s[..|s| - 1]
  }

  /** The writes of a call history, in order. */
  function WritesOf(history: seq<Event>): seq<Write> {
    if history == [] then []
    else match Last(history)
      case SetCall(w) => WritesOf(Front(history)) + [w]
      case UpdateCall(_) => WritesOf(Front(history))
  }

  /** How many of the writes precede the last `Update` whose timer had expired. */
  function FlushedCount(history: seq<Event>): (n: nat)
    ensures n <= |WritesOf(history)|
  {
    if history == [] then 0
    else if Last(history) == UpdateCall(true) then |WritesOf(history)|
    else FlushedCount(Front(history))
  }

  /** How many of the writes precede the `d`-th last `Update` whose timer had expired. */
  function FlushedBefore(history: seq<Event>, d: nat): (n: nat)
    ensures n <= |WritesOf(history)|
  {
    if d == 0 then |WritesOf(history)|
    else if history == [] then 0
    else FlushedBefore(Front(history), if Last(history) == UpdateCall(true) then d - 1 else d)
  }

  /** How many expired `Update` calls follow write number `j`. */
  function ReapsSince(history: seq<Event>, j: nat): nat {
    if history == [] || j >= |WritesOf(history)| then 0
    else ReapsSince(Front(history), j) + if Last(history) == UpdateCall(true) then 1 else 0
  }

  lemma {:induction false} FlushedOnce(history: seq<Event>)
    ensures FlushedBefore(history, 1) == FlushedCount(history)
  {
    if history != [] && Last(history) != UpdateCall(true) {
      FlushedOnce(Front(history));
    }
  }

  /** Fewer than `d` expired updates follow a write exactly when it is not before the `d`-th last one. */
  lemma {:induction false} ReapsSinceIff(history: seq<Event>, j: nat, d: nat)
    requires j < |WritesOf(history)|
    ensures ReapsSince(history, j) < d <==> j >= FlushedBefore(history, d)
  {
    if d > 0 && j < |WritesOf(Front(history))| {
      ReapsSinceIff(Front(history), j, if Last(history) == UpdateCall(true) then d - 1 else d);
    }
  }

  /** Bytes handed over by a list of writes. */
  function TotalBytes(ws: seq<Write>): nat {
    if ws == [] then 0 else TotalBytes(Front(ws)) + |Last(ws).blob|
  }

  lemma {:induction false} WritesOfAppend(xs: seq<Event>, ys: seq<Event>)
    ensures WritesOf(xs + ys) == WritesOf(xs) + WritesOf(ys)
  {
    if ys == [] {
      assert xs + ys == xs;
    } else {
      WritesOfAppend(xs, Front(ys));
      assert Front(xs + ys) == xs + Front(ys);
    }
  }

  /** What one more `Set` adds to a history. */
  lemma AppendSet(history: seq<Event>, w: Write)
    ensures WritesOf(history + [SetCall(w)]) == WritesOf(history) + [w]
    ensures FlushedCount(history + [SetCall(w)]) == FlushedCount(history)
    ensures TotalBytes(WritesOf(history) + [w]) == TotalBytes(WritesOf(history)) + |w.blob|
  {
    assert Front(history + [SetCall(w)]) == history;
    assert Front(WritesOf(history) + [w]) == WritesOf(history);
  }

  /** A new write is followed by nothing, and older ones by what followed them before. */
  lemma ReapsAfterSet(history: seq<Event>, w: Write)
    ensures ReapsSince(history + [SetCall(w)], |WritesOf(history)|) == 0
    ensures forall j: nat | j < |WritesOf(history)| :: ReapsSince(history + [SetCall(w)], j) == ReapsSince(history, j)
  {
    AppendSet(history, w);
    assert Front(history + [SetCall(w)]) == history;
  }

  lemma ReapsAfterUpdate(history: seq<Event>, expired: bool)
    ensures forall j: nat | j < |WritesOf(history)| ::
              ReapsSince(history + [UpdateCall(expired)], j) == ReapsSince(history, j) + if expired then 1 else 0
  {
    AppendUpdate(history, expired);
    assert Front(history + [UpdateCall(expired)]) == history;
  }

  /** The byte count a backend reports, a `size_t`, after a history. */
  function LogicalBytes(history: seq<Event>): uint64 {
    Wrap64(TotalBytes(WritesOf(history)))
  }

  /** Adding each blob size as it comes, in machine arithmetic, keeps that count. */
  lemma AppendBytes(history: seq<Event>, w: Write)
    ensures LogicalBytes(history + [SetCall(w)]) == Wrap64(LogicalBytes(history) + |w.blob|)
  {
    AppendSet(history, w);
    Wrap64Add(TotalBytes(WritesOf(history)), |w.blob|);
  }

  /** What one more `Update` adds to a history. */
  lemma AppendUpdate(history: seq<Event>, expired: bool)
    ensures WritesOf(history + [UpdateCall(expired)]) == WritesOf(history)
    ensures FlushedCount(history + [UpdateCall(expired)])
            == if expired then |WritesOf(history)| else FlushedCount(history)
  {
    assert Front(history + [UpdateCall(expired)]) == history;
  }

  lemma OneMore(n: nat, x: nat)
    ensures (n + 1) * x == n * x + x
  {
  }

  /** Bounds on single blobs add up to bounds on the whole journal. */
  lemma {:induction false} TotalBytesBounds(ws: seq<Write>, lo: nat, hi: nat)
    requires forall w | w in ws :: lo <= |w.blob| <= hi
    ensures |ws| * lo <= TotalBytes(ws) <= |ws| * hi
  {
    if ws != [] {
      TotalBytesBounds(Front(ws), lo, hi);
      assert Last(ws) in ws;
      OneMore(|Front(ws)|, lo);
      OneMore(|Front(ws)|, hi);
    }
  }
}
