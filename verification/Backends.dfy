/** The write backends over the two synchronous nodes, and the interface all three share. Each
    backend remembers the calls it has received; its state is a function of them. */
module Backends {
  import opened Machine
  import opened Journal
  import opened LastWriter
  import opened Jelly
  import Encoding
  import RocksDBNode
  import RocksDBStore
  import SQLiteNode

  class RocksDBWrite {
    const node: RocksDBNode.RocksDBBlobNode
    var logicalWriteBytes: uint64
    ghost var history: seq<Event>

    /** Stale writes that the node drops are counted like all others. The log is synced up to the
        writes before the last `Update` whose timer had expired. */
    ghost predicate Valid()
      reads this, node
    {
      && node.Valid() && node.written == WritesOf(history) && logicalWriteBytes == LogicalBytes(history)
      && node.synced
         == |RocksDBStore.States(RocksDBStore.EMPTY, WritesOf(history)[..FlushedCount(history)])| - 1
    }

    constructor ()
      ensures Valid() && fresh(node) && history == []
    {
      node := new RocksDBNode.RocksDBBlobNode();
      logicalWriteBytes, history := 0, [];
    }

    method Set(aKey: uint32, aSeq: uint32, aBlob: Blob)
      requires Valid()
      modifies this, node
      ensures Valid() && history == old(history) + [SetCall(Write(aKey, aSeq, aBlob))]
    {
      hide RocksDBNode.RocksDBBlobNode.Valid, RocksDBStore.States, WritesOf, FlushedCount, LogicalBytes;
      ghost var w := Write(aKey, aSeq, aBlob);
      AppendSet(history, w);
      AppendBytes(history, w);
      assert (WritesOf(history) + [w])[..FlushedCount(history)] == WritesOf(history)[..FlushedCount(history)];
      node.Set(aKey, aSeq, aBlob);
      logicalWriteBytes := Wrap64(logicalWriteBytes + |aBlob|);
      history := history + [SetCall(w)];
    }

    method Update(expired: bool)
      requires Valid()
      modifies this, node
      ensures Valid() && history == old(history) + [UpdateCall(expired)]
      ensures node.durable == old(node.durable)
      ensures node.synced == if expired then |node.durable| - 1 else old(node.synced)
    {
      AppendUpdate(history, expired);
      if expired {
        node.Flush();
        assert WritesOf(history)[..|WritesOf(history)|] == WritesOf(history);
      }
      history := history + [UpdateCall(expired)];
    }
  }

  class SQLiteWrite {
    const node: SQLiteNode.SQLiteBlobNode
    var logicalWriteBytes: uint64
    ghost var history: seq<Event>

    ghost predicate Valid()
      reads this, node, node.db
    {
      && node.Valid()
      && node.written == WritesOf(history) && node.flushed == FlushedCount(history)
      && logicalWriteBytes == LogicalBytes(history)
    }

    constructor ()
      ensures Valid() && fresh(node) && fresh(node.db) && history == []
    {
      node := new SQLiteNode.SQLiteBlobNode();
      logicalWriteBytes, history := 0, [];
    }

    /** `ok` is false when the node's check on its statement fails and the process ends. */
    method Set(aKey: uint32, aSeq: uint32, aBlob: Blob) returns (ok: bool)
      requires Valid()
      modifies this, node, node.db
      ensures Valid()
      ensures ok == SQLiteNode.Upserts(WritesOf(old(history)) + [Write(aKey, aSeq, aBlob)]).Some?
      ensures history == if ok then old(history) + [SetCall(Write(aKey, aSeq, aBlob))] else old(history)
      ensures node.db.committed == old(node.db.committed)
      ensures !ok ==> node.db.working == old(node.db.working)
    {
      ghost var w := Write(aKey, aSeq, aBlob);
      AppendSet(history, w);
      AppendBytes(history, w);
      assert Front(WritesOf(history) + [w]) == WritesOf(history);
      ok := node.Set(aKey, aSeq, aBlob);
      if ok {
        logicalWriteBytes := Wrap64(logicalWriteBytes + |aBlob|);
        history := history + [SetCall(w)];
      }
    }

    method Update(expired: bool)
      requires Valid()
      modifies this, node, node.db
      ensures Valid() && history == old(history) + [UpdateCall(expired)]
      ensures node.db.working == old(node.db.working)
      ensures node.db.committed == if expired then node.db.working else old(node.db.committed)
    {
      AppendUpdate(history, expired);
      if expired {
        var ok := node.Flush();
        if !ok {
          assert false;
        }
      }
      history := history + [UpdateCall(expired)];
    }
  }

  /** A SQLite and a RocksDB backend that received the same calls hold the same data: in every
      key the RocksDB bytes are those of the row in the SQLite table, namely the last write. */
  lemma SameCallsSameData(s: SQLiteWrite, r: RocksDBWrite, k: uint32)
    requires s.Valid() && r.Valid() && s.history == r.history
    ensures s.node.db.working == SQLiteNode.LastWrites(WritesOf(s.history)) == Run(WritesOf(s.history))
    ensures var key := Encoding.Encode(k);
            && (key in r.node.families.blobs <==> k in s.node.db.working)
            && (key in r.node.families.seqs <==> k in s.node.db.working)
            && (k in s.node.db.working ==>
                  && r.node.families.blobs[key] == s.node.db.working[k].blob
                  && r.node.families.seqs[key] == Encoding.Encode(s.node.db.working[k].seqno))
  {
    SQLiteNode.AcceptedIffStrict(WritesOf(s.history));
    r.node.HoldsWinners(k);
  }

  /** The backend interface, with its three implementations. */
  datatype Backend =
    | JellyBackend(jelly: JellyWrite)
    | SQLiteBackend(sqlite: SQLiteWrite)
    | RocksDBBackend(rocksdb: RocksDBWrite)
  {
    ghost function Footprint(): set<object>
      reads if JellyBackend? then {jelly} else {}
    {
      match this
      case JellyBackend(b) => {b, b.node} + b.Repr
      case SQLiteBackend(b) => {b, b.node, b.node.db}
      case RocksDBBackend(b) => {b, b.node}
    }

    ghost predicate Valid()
      reads if JellyBackend? then {jelly} else {}, Footprint()
    {
      match this
      case JellyBackend(b) => b.Valid()
      case SQLiteBackend(b) => b.Valid()
      case RocksDBBackend(b) => b.Valid()
    }

    ghost function History(): seq<Event>
      reads if JellyBackend? then {jelly} else {}, Footprint()
    {
      match this
      case JellyBackend(b) => b.history
      case SQLiteBackend(b) => b.history
      case RocksDBBackend(b) => b.history
    }

    ghost function Bytes(): uint64
      reads if JellyBackend? then {jelly} else {}, Footprint()
    {
      match this
      case JellyBackend(b) => b.logicalWriteBytes
      case SQLiteBackend(b) => b.logicalWriteBytes
      case RocksDBBackend(b) => b.logicalWriteBytes
    }

    /** The steps that a jelly node has made; the other nodes do nothing between calls. */
    ghost function Steps(): nat
      reads if JellyBackend? then {jelly.node} else {}
    {
      if JellyBackend? then jelly.node.tick else 0
    }

    /** The only ways a `Set` can end the process: SQLite rejects its statement, or the jelly
        request vector has reached the largest size there is. */
    ghost predicate MayRefuse(ws: seq<Write>, w: Write) {
      || (SQLiteBackend? && SQLiteNode.Upserts(ws + [w]).None?)
      || (JellyBackend? && |ws| + 1 >= WORD64)
    }

    method Set(aKey: uint32, aSeq: uint32, aBlob: Blob) returns (ok: bool)
      requires Valid()
      modifies Footprint()
      ensures Valid() && fresh(Footprint() - old(Footprint()))
      ensures ok ==> History() == old(History()) + [SetCall(Write(aKey, aSeq, aBlob))]
      ensures Steps() == old(Steps())
      ensures !ok ==> History() == old(History()) && MayRefuse(WritesOf(History()), Write(aKey, aSeq, aBlob))
      ensures SQLiteBackend? ==> ok == !MayRefuse(WritesOf(old(History())), Write(aKey, aSeq, aBlob))
    {
      match this {
        case JellyBackend(b) =>
          b.PoolIsBounded();
          ok := b.Set(aKey, aSeq, aBlob);
        case SQLiteBackend(b) =>
          ok := b.Set(aKey, aSeq, aBlob);
        case RocksDBBackend(b) =>
          b.Set(aKey, aSeq, aBlob);
          ok := true;
      }
    }

    /** A jelly node serves every housekeeping event with a step; a reaping makes further ones. */
    method Update(expired: bool, events: nat)
      requires Valid()
      modifies Footprint()
      ensures Valid() && fresh(Footprint() - old(Footprint()))
      ensures History() == old(History()) + [UpdateCall(expired)]
      ensures JellyBackend? ==> Steps() == old(Steps()) + events + if expired then 1 + |old(jelly.requests)| else 0
    {
      match this {
        case JellyBackend(b) => b.Update(expired, events);
        case SQLiteBackend(b) => b.Update(expired);
        case RocksDBBackend(b) => b.Update(expired);
      }
    }

    /** Whatever the backend, the byte count is that of its history. */
    lemma BytesAreAccounted()
      requires Valid()
      ensures Bytes() == LogicalBytes(History())
    {
    }
  }
}
