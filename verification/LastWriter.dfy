/** The reference meaning of all stores: per key, a register that a write replaces exactly when
    its sequence number is larger. A register remembers the whole winning write. */
module LastWriter {
  import opened Machine
  import opened Journal

  type Register = map<uint32, Write>

  predicate Supersedes(r: Register, w: Write) {
    w.key !in r || r[w.key].seqno < w.seqno
  }

  function Apply(r: Register, w: Write): Register {
    if Supersedes(r, w) then r[w.key := w] else r
  }

  /** The registers after a list of writes, starting empty. */
  function Run(ws: seq<Write>): Register {
    if ws == [] then map[] else Apply(Run(Front(ws)), Last(ws))
  }

  /** Write `i` is the first one that carries the largest sequence number of its key. */
  ghost predicate Wins(ws: seq<Write>, i: int) {
    0 <= i < |ws| &&
    forall j | 0 <= j < |ws| && ws[j].key == ws[i].key ::
      ws[j].seqno <= ws[i].seqno && (j < i ==> ws[j].seqno < ws[i].seqno)
  }

  ghost predicate Mentions(ws: seq<Write>, k: uint32) {
    exists i :: 0 <= i < |ws| && ws[i].key == k
  }

  /** The winning write of one key, if the key was written at all. */
  lemma {:induction false} WinnerOf(ws: seq<Write>, k: uint32) returns (i: int)
    ensures k in Run(ws) <==> Mentions(ws, k)
    ensures k in Run(ws) ==> Wins(ws, i) && ws[i].key == k && Run(ws)[k] == ws[i]
  {
    if ws == [] {
      i := -1;
    } else {
      var pre, w := Front(ws), Last(ws);
      i := WinnerOf(pre, k);
      assert forall j | 0 <= j < |pre| :: ws[j] == pre[j];
      if w.key == k && Supersedes(Run(pre), w) {
        i := |pre|;
        assert Mentions(ws, k);
        forall j | 0 <= j < |pre| && pre[j].key == k
          ensures pre[j].seqno < w.seqno
        {
          assert Mentions(pre, k);
        }
      } else if k in Run(pre) {
        assert Mentions(ws, k) by { assert ws[i].key == k; }
      } else {
        assert forall j | 0 <= j < |pre| :: pre[j].key != k;
      }
    }
  }

  /** Exactly the keys written are present, and each holds the first submitted write with the
      largest sequence number ever submitted for it. */
  lemma RunIsFirstMaximum(ws: seq<Write>)
    ensures forall k :: k in Run(ws) <==> Mentions(ws, k)
    ensures forall i | Wins(ws, i) :: ws[i].key in Run(ws) && Run(ws)[ws[i].key] == ws[i]
    ensures forall k | k in Run(ws) :: exists i :: Wins(ws, i) && ws[i].key == k
  {
    forall k
      ensures k in Run(ws) <==> Mentions(ws, k)
      ensures k in Run(ws) ==> exists i :: Wins(ws, i) && ws[i].key == k
    {
      var i := WinnerOf(ws, k);
    }
    forall i | Wins(ws, i)
      ensures ws[i].key in Run(ws) && Run(ws)[ws[i].key] == ws[i]
    {
      WinnerIs(ws, i);
    }
  }

  lemma WinnerIs(ws: seq<Write>, i: int)
    requires Wins(ws, i)
    ensures ws[i].key in Run(ws) && Run(ws)[ws[i].key] == ws[i]
  {
    assert Mentions(ws, ws[i].key);
    var j := WinnerOf(ws, ws[i].key);
    assert i == j;
  }

  /** A later write never lowers a stored sequence number and never removes a key. */
  lemma {:induction false} RunNeverRegresses(xs: seq<Write>, ys: seq<Write>, k: uint32)
    requires k in Run(xs)
    ensures k in Run(xs + ys) && Run(xs)[k].seqno <= Run(xs + ys)[k].seqno
  {
    MergeOfRuns(xs, ys);
  }

  // ---------------------------------------------------------------- merging

  /** Keywise maximum by sequence number; a tie goes to the left operand. */
  function Merge(a: Register, b: Register): Register {
    map k | k in a.Keys + b.Keys ::
      if k !in b then a[k]
      else if k !in a then b[k]
      else if a[k].seqno >= b[k].seqno then a[k] else b[k]
  }

  /** Running a concatenation is merging the two runs. */
  lemma {:induction false} MergeOfRuns(xs: seq<Write>, ys: seq<Write>)
    ensures Run(xs + ys) == Merge(Run(xs), Run(ys))
  {
    if ys == [] {
      assert xs + ys == xs;
      assert Merge(Run(xs), Run(ys)) == Run(xs);
    } else {
      var w := Last(ys);
      MergeOfRuns(xs, Front(ys));
      assert Front(xs + ys) == xs + Front(ys);
      MergeApply(Run(xs), Run(Front(ys)), w);
    }
  }

  /** Merging commutes with applying one more write to the right operand. */
  lemma MergeApply(a: Register, b: Register, w: Write)
    ensures Apply(Merge(a, b), w) == Merge(a, Apply(b, w))
  {
    var l, r := Apply(Merge(a, b), w), Merge(a, Apply(b, w));
    assert l.Keys == r.Keys;
  }

  lemma MergeAssociative(a: Register, b: Register, c: Register)
    ensures Merge(Merge(a, b), c) == Merge(a, Merge(b, c))
  {
    var l, r := Merge(Merge(a, b), c), Merge(a, Merge(b, c));
    assert l.Keys == r.Keys == a.Keys + b.Keys + c.Keys;
    forall k | k in l
      ensures l[k] == r[k]
    {
      var ab, bc := Merge(a, b), Merge(b, c);
      assert k in ab <==> k in a || k in b;
      assert k in bc <==> k in b || k in c;
    }
  }

  lemma MergeIdempotent(a: Register)
    ensures Merge(a, a) == a
  {
    assert Merge(a, a).Keys == a.Keys;
  }

  // ---------------------------------------------------------------- order independence

  /** All writes that carry the largest sequence number of their key are the same write. */
  ghost predicate TopWritesAgree(ws: seq<Write>) {
    forall i, j | 0 <= i < |ws| && 0 <= j < |ws| && ws[i].key == ws[j].key
                  && Top(ws, ws[i]) && Top(ws, ws[j]) :: ws[i] == ws[j]
  }

  ghost predicate Top(ws: seq<Write>, w: Write) {
    forall v | v in ws && v.key == w.key :: v.seqno <= w.seqno
  }

  /** Sequence numbers are never reused for a key. */
  ghost predicate DistinctPerKey(ws: seq<Write>) {
    forall i, j | 0 <= i < j < |ws| && ws[i].key == ws[j].key :: ws[i].seqno != ws[j].seqno
  }

  /** Lists with the same elements leave the same registers, in whatever order and however
      often each write is submitted, when the top writes of every key agree. */
  lemma SameElementsSameRun(xs: seq<Write>, ys: seq<Write>)
    requires TopWritesAgree(xs)
    requires forall w :: w in xs <==> w in ys
    ensures Run(xs) == Run(ys)
  {
    assert forall k | k in Run(xs) :: k in Run(ys) by {
      forall k | k in Run(xs) ensures k in Run(ys) { SameElementsSameKeys(xs, ys, k); }
    }
    assert forall k | k in Run(ys) :: k in Run(xs) by {
      forall k | k in Run(ys) ensures k in Run(xs) { SameElementsSameKeys(ys, xs, k); }
    }
    forall k | k in Run(xs)
      ensures Run(xs)[k] == Run(ys)[k]
    {
      SameElementsSameWinner(xs, ys, k);
    }
  }

  lemma SameElementsSameKeys(xs: seq<Write>, ys: seq<Write>, k: uint32)
    requires k in Run(xs)
    requires forall w :: w in xs ==> w in ys
    ensures k in Run(ys)
  {
    var i := WinnerOf(xs, k);
    assert xs[i] in ys;
    var j := WinnerOf(ys, k);
  }

  lemma SameElementsSameWinner(xs: seq<Write>, ys: seq<Write>, k: uint32)
    requires TopWritesAgree(xs)
    requires forall w :: w in xs <==> w in ys
    requires k in Run(xs) && k in Run(ys)
    ensures Run(xs)[k] == Run(ys)[k]
  {
    var i := WinnerOf(xs, k);
    var j := WinnerOf(ys, k);
    assert ys[j] in xs && xs[i] in ys;
    var i' :| 0 <= i' < |xs| && xs[i'] == ys[j];
    assert Top(xs, xs[i]);
    assert Top(xs, xs[i']) by {
      forall v | v in xs && v.key == k ensures v.seqno <= ys[j].seqno { assert v in ys; }
    }
  }

  /** Order does not matter exactly when the top writes of every key agree. */
  lemma OrderIndependence(xs: seq<Write>)
    ensures TopWritesAgree(xs) <==>
            forall ys: seq<Write> | multiset(ys) == multiset(xs) :: Run(ys) == Run(xs)
  {
    if TopWritesAgree(xs) {
      forall ys: seq<Write> | multiset(ys) == multiset(xs)
        ensures Run(ys) == Run(xs)
      {
        assert forall w :: w in xs <==> w in multiset(xs);
        assert forall w :: w in ys <==> w in multiset(ys);
        SameElementsSameRun(xs, ys);
      }
    } else {
      var i, j :| 0 <= i < |xs| && 0 <= j < |xs| && xs[i].key == xs[j].key
                  && Top(xs, xs[i]) && Top(xs, xs[j]) && xs[i] != xs[j];
      var a, b := ToFront(xs, i), ToFront(xs, j);
      MovedToFrontWins(xs, i);
      MovedToFrontWins(xs, j);
      assert Run(a) != Run(b);
    }
  }

  function ToFront(ws: seq<Write>, i: nat): seq<Write>
    requires i < |ws|
  {
    [ws[i]] + ws[..i] + ws[i + 1..]
  }

  lemma MovedToFrontWins(ws: seq<Write>, i: nat)
    requires i < |ws| && Top(ws, ws[i])
    ensures multiset(ToFront(ws, i)) == multiset(ws)
    ensures ws[i].key in Run(ToFront(ws, i)) && Run(ToFront(ws, i))[ws[i].key] == ws[i]
  {
    var a := ToFront(ws, i);
    assert ws == ws[..i] + [ws[i]] + ws[i + 1..];
    assert multiset(a) == multiset(ws);
    assert forall w :: w in a ==> w in multiset(a);
    assert forall w :: w in multiset(ws) ==> w in ws;
    assert Wins(a, 0);
    WinnerIs(a, 0);
  }

  /** In particular, permutations agree when no key reuses a sequence number. */
  lemma DistinctWritesCommute(xs: seq<Write>, ys: seq<Write>)
    requires multiset(xs) == multiset(ys) && DistinctPerKey(xs)
    ensures Run(xs) == Run(ys)
  {
    forall i, j | 0 <= i < |xs| && 0 <= j < |xs| && xs[i].key == xs[j].key
                  && Top(xs, xs[i]) && Top(xs, xs[j])
      ensures xs[i] == xs[j]
    {
      assert xs[i] in xs && xs[j] in xs;
      assert xs[i].seqno == xs[j].seqno;
    }
    OrderIndependence(xs);
  }
}
