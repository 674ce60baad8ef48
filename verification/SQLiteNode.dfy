/** The SQLite node: an upsert that a NOT NULL constraint turns into a guarded write, and the group
    commit built on BEGIN and COMMIT. */
module SQLiteNode {
  import opened Machine
  import opened Journal
  import opened LastWriter

  // ---------------------------------------------------------------- the prepared statement

  /** One execution of the prepared upsert; `None` is the constraint error for a NULL `data`. */
  function Upsert(table: Register, w: Write): Option<Register> {
    if w.key !in table then Some(table[w.key := w])
    else
      var data := if w.seqno > table[w.key].seqno then Some(w.blob) else None;
      match data
      case Some(blob) => Some(table[w.key := Write(w.key, w.seqno, blob)])
      case None => None
  }

  /** A list of upserts on the empty table; `None` as soon as one of them fails. */
  function Upserts(ws: seq<Write>): Option<Register> {
    if ws == [] then Some(map[])
    else match Upserts(Front(ws))
      case None => None
      case Some(table) => Upsert(table, Last(ws))
  }

  /** Along the list, the sequence numbers of each key strictly increase. */
  ghost predicate StrictPerKey(ws: seq<Write>) {
    forall i, j | 0 <= i < j < |ws| && ws[i].key == ws[j].key :: ws[i].seqno < ws[j].seqno
  }

  /** The last write to each key. */
  function LastWrites(ws: seq<Write>): Register {
    if ws == [] then map[] else LastWrites(Front(ws))[Last(ws).key := Last(ws)]
  }

  /** One more write keeps a list strict exactly when it supersedes what its key holds. */
  lemma StrictIffLastSupersedes(ws: seq<Write>)
    requires ws != [] && StrictPerKey(Front(ws))
    ensures StrictPerKey(ws) <==> Supersedes(Run(Front(ws)), Last(ws))
  {
    var pre, w := Front(ws), Last(ws);
    var i := WinnerOf(pre, w.key);
    if StrictPerKey(ws) && w.key in Run(pre) {
      assert ws[i].seqno < ws[|pre|].seqno;
    }
    if Supersedes(Run(pre), w) {
      forall a, b | 0 <= a < b < |ws| && ws[a].key == ws[b].key
        ensures ws[a].seqno < ws[b].seqno
      {
        assert ws[a] == pre[a];
        if b < |pre| {
          assert ws[b] == pre[b];
        } else {
          assert Mentions(pre, w.key);
        }
      }
    }
  }

  lemma StrictPrefix(ws: seq<Write>)
    requires ws != [] && StrictPerKey(ws)
    ensures StrictPerKey(Front(ws))
  {
    assert forall a | 0 <= a < |Front(ws)| :: Front(ws)[a] == ws[a];
  }

  /** A list is accepted exactly when sequence numbers strictly increase per key, and then the
      table agrees with the last-writer-wins registers and with the plain last writes. */
  lemma {:induction false} AcceptedIffStrict(ws: seq<Write>)
    ensures Upserts(ws).Some? <==> StrictPerKey(ws)
    ensures Upserts(ws).Some? ==> Upserts(ws).value == Run(ws) == LastWrites(ws)
  {
    if ws != [] {
      AcceptedIffStrict(Front(ws));
      if StrictPerKey(Front(ws)) {
        StrictIffLastSupersedes(ws);
      } else if StrictPerKey(ws) {
        StrictPrefix(ws);
      }
    }
  }

  /** Prefixes of accepted lists are accepted. */
  lemma {:induction false} AcceptedPrefix(ws: seq<Write>, n: nat)
    requires Upserts(ws).Some? && n <= |ws|
    ensures Upserts(ws[..n]).Some?
  {
    if n < |ws| {
      AcceptedPrefix(Front(ws), n);
      assert Front(ws)[..n] == ws[..n];
    } else {
      assert ws[..n] == ws;
    }
  }

  /** A rejected list has a first rejected write; up to and including it, the table equals the
      registers, which ignore the very same write. */
  lemma {:induction false} FirstRejection(ws: seq<Write>) returns (n: nat)
    requires Upserts(ws).None?
    ensures n < |ws| && Upserts(ws[..n]).Some? && Upsert(Upserts(ws[..n]).value, ws[n]).None?
    ensures Upserts(ws[..n]).value == Run(ws[..n]) == Run(ws[..n + 1])
  {
    if Upserts(Front(ws)).None? {
      n := FirstRejection(Front(ws));
      assert Front(ws)[..n] == ws[..n] && Front(ws)[..n + 1] == ws[..n + 1];
    } else {
      n := |ws| - 1;
      AcceptedIffStrict(ws[..n]);
      assert ws[..n + 1] == ws;
    }
  }

  /** How many sequence numbers the first `keys` keys of a table have used up. */
  function Spent(table: Register, keys: nat): nat {
    if keys == 0 then 0
    else Spent(table, keys - 1) + if keys - 1 in table then table[keys - 1].seqno + 1 else 0
  }

  lemma {:induction false} SpentIsBounded(table: Register, keys: nat)
    ensures Spent(table, keys) <= keys * 0x1_0000_0000
  {
    if keys > 0 {
      SpentIsBounded(table, keys - 1);
    }
  }

  lemma {:induction false} WriteSpends(table: Register, w: Write, keys: nat)
    requires Supersedes(table, w)
    ensures Spent(table[w.key := w], keys) >= Spent(table, keys) + if w.key < keys then 1 else 0
  {
    if keys > 0 {
      WriteSpends(table, w, keys - 1);
    }
  }

  lemma {:induction false} AcceptedWritesSpend(ws: seq<Write>, keys: nat)
    requires Upserts(ws).Some? && forall w | w in ws :: w.key < keys
    ensures |ws| <= Spent(Run(ws), keys)
  {
    if ws != [] {
      assert ws == Front(ws) + [Last(ws)];
      AcceptedWritesSpend(Front(ws), keys);
      AcceptedIffStrict(ws);
      AcceptedIffStrict(Front(ws));
      WriteSpends(Run(Front(ws)), Last(ws), keys);
    }
  }

  /** Each key can be written at most 2^32 times, so no list longer than that per key is accepted. */
  lemma AcceptedListsAreShort(ws: seq<Write>, keys: nat)
    requires Upserts(ws).Some? && forall w | w in ws :: w.key < keys
    ensures |ws| <= keys * 0x1_0000_0000
  {
    AcceptedWritesSpend(ws, keys);
    SpentIsBounded(Run(ws), keys);
  }

  // ---------------------------------------------------------------- the SQL layer

  /** A connection with one table. Statements outside a transaction commit on their own. */
  class Database {
    var working: Register    // what statements see
    var committed: Register  // what survives the process
    var open: bool           // inside a transaction
    ghost var misuses: nat   // BEGINs inside a transaction and COMMITs outside one

    constructor ()
      ensures working == map[] && committed == map[] && !open && misuses == 0
    {
      working, committed, open, misuses := map[], map[], false, 0;
    }

    /** BEGIN is an error inside a transaction. */
    method Begin() returns (ok: bool)
      modifies this
      ensures ok == !old(open) && open
      ensures misuses == old(misuses) + if ok then 0 else 1
      ensures working == old(working) && committed == old(committed)
    {
      ok := !open;
      if open {
        misuses := misuses + 1;
      }
      open := true;
    }

    /** COMMIT is an error outside a transaction. */
    method Commit() returns (ok: bool)
      modifies this
      ensures ok == old(open) && !open
      ensures misuses == old(misuses) + if ok then 0 else 1
      ensures working == old(working)
      ensures committed == if ok then working else old(committed)
    {
      ok := open;
      if open {
        committed := working;
      } else {
        misuses := misuses + 1;
      }
      open := false;
    }

    /** One step of the prepared statement; a failing statement leaves no trace. */
    method StepUpsert(w: Write) returns (ok: bool)
      modifies this
      ensures open == old(open) && misuses == old(misuses)
      ensures ok == Upsert(old(working), w).Some?
      ensures working == if ok then Upsert(old(working), w).value else old(working)
      ensures committed == if old(open) then old(committed) else if ok then working else old(committed)
    {
      var result := Upsert(working, w);
      ok := result.Some?;
      if ok {
        working := result.value;
        if !open {
          committed := working;
        }
      }
    }
  }

  // ---------------------------------------------------------------- the node

  class SQLiteBlobNode {
    const db: Database
    var batching: bool

    ghost var written: seq<Write>  // accepted writes
    ghost var flushed: nat         // how many of them precede the last `Flush`

    /** A transaction is open exactly while batching, and no BEGIN was ever issued inside one nor a
        COMMIT outside one; the working table is the outcome of all
        accepted writes, the committed one of those before the last `Flush`. */
    ghost predicate Valid()
      reads this, db
    {
      && batching == db.open && db.misuses == 0
      && flushed <= |written|
      && (!batching ==> flushed == |written|)
      && Upserts(written) == Some(db.working)
      && Upserts(written[..flushed]) == Some(db.committed)
    }

    constructor ()
      ensures Valid() && fresh(db) && written == [] && flushed == 0
    {
      db := new Database();
      batching, written, flushed := false, [], 0;
    }

    /** `ok` is false when a check on an SQLite result fails, which ends the process. The only
        result that can fail is the step, for a stale sequence number: BEGIN never does. */
    method Set(aKey: uint32, aSeq: uint32, aBlob: Blob) returns (ok: bool)
      requires Valid()
      modifies this, db
      ensures Valid() && batching
      ensures ok == (aKey !in old(db.working) || old(db.working)[aKey].seqno < aSeq)
      ensures written == if ok then old(written) + [Write(aKey, aSeq, aBlob)] else old(written)
      ensures flushed == old(flushed) && db.committed == old(db.committed)
      ensures !ok ==> db.working == old(db.working)
    {
      var w := Write(aKey, aSeq, aBlob);
      assert written[..|written|] == written;
      if !batching {
        var begun := db.Begin();
        if !begun {
          assert false;
        }
        batching := true;
      }
      ok := db.StepUpsert(w);
      if ok {
        assert Front(written + [w]) == written;
        assert (written + [w])[..flushed] == written[..flushed];
        written := written + [w];
      }
    }

    /** `ok` is false when COMMIT fails, which never happens. */
    method Flush() returns (ok: bool)
      requires Valid()
      modifies this, db
      ensures Valid() && !batching && ok
      ensures written == old(written) && flushed == |written|
      ensures db.working == old(db.working) == db.committed
    {
      ok := true;
      assert written[..|written|] == written;
      if batching {
        ok := db.Commit();
        batching := false;
        flushed := |written|;
      }
    }
  }
}
