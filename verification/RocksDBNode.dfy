/** The RocksDB node as an object: two byte-keyed column families, changed one put at a time. */
module RocksDBNode {
  import opened Machine
  import opened Journal
  import opened LastWriter
  import Encoding
  import RocksDBStore

  type Bytes = seq<uint8>

  /** The two column families as RocksDB sees them, keys and values all bytes. */
  datatype Families = Families(blobs: map<Bytes, Bytes>, seqs: map<Bytes, Bytes>)

  /** Under the bytes of `k`, both families hold what the store holds for `k`. */
  ghost predicate AtKey(f: Families, st: RocksDBStore.Store, k: uint32) {
    var key := Encoding.Encode(k);
    && (key in f.blobs <==> k in st.blobs)
    && (key in f.seqs <==> k in st.seqs)
    && (k in st.blobs ==> f.blobs[key] == st.blobs[k].blob)
    && (k in st.seqs ==> f.seqs[key] == Encoding.Encode(st.seqs[k]))
  }

  ghost predicate Represents(f: Families, st: RocksDBStore.Store) {
    && (forall k: uint32 :: AtKey(f, st, k))
    && (forall key | key in f.blobs.Keys + f.seqs.Keys :: |key| == 4)
  }

  lemma PutBlobRepresents(f: Families, st: RocksDBStore.Store, w: Write)
    requires Represents(f, st)
    ensures Represents(f.(blobs := f.blobs[Encoding.Encode(w.key) := w.blob]), RocksDBStore.PutBlob(st, w))
  {
    var f' := f.(blobs := f.blobs[Encoding.Encode(w.key) := w.blob]);
    forall k: uint32
      ensures AtKey(f', RocksDBStore.PutBlob(st, w), k)
    {
      assert AtKey(f, st, k);
      if Encoding.Encode(k) == Encoding.Encode(w.key) {
        Encoding.EncodeInjective(k, w.key);
      }
    }
  }

  lemma PutSeqRepresents(f: Families, st: RocksDBStore.Store, w: Write)
    requires Represents(f, st)
    ensures Represents(f.(seqs := f.seqs[Encoding.Encode(w.key) := Encoding.Encode(w.seqno)]),
                       RocksDBStore.PutSeq(st, w))
  {
    var f' := f.(seqs := f.seqs[Encoding.Encode(w.key) := Encoding.Encode(w.seqno)]);
    forall k: uint32
      ensures AtKey(f', RocksDBStore.PutSeq(st, w), k)
    {
      assert AtKey(f, st, k);
      if Encoding.Encode(k) == Encoding.Encode(w.key) {
        Encoding.EncodeInjective(k, w.key);
      }
    }
  }

  lemma OneMoreWrite(ws: seq<Write>, w: Write)
    ensures RocksDBStore.SetAll(RocksDBStore.EMPTY, ws + [w])
            == RocksDBStore.Set(RocksDBStore.SetAll(RocksDBStore.EMPTY, ws), w)
    ensures RocksDBStore.States(RocksDBStore.EMPTY, ws + [w])
            == RocksDBStore.States(RocksDBStore.EMPTY, ws)
               + RocksDBStore.SetSteps(RocksDBStore.SetAll(RocksDBStore.EMPTY, ws), w)
  {
    assert Front(ws + [w]) == ws && Last(ws + [w]) == w;
  }

  class RocksDBBlobNode {
    var families: Families

    ghost var store: RocksDBStore.Store
    ghost var durable: seq<RocksDBStore.Store>  // one state per put since creation, the empty one first
    ghost var synced: nat                       // the last of them that the log on disk is known to hold
    ghost var written: seq<Write>               // arguments of all `Set` calls

    /** The bytes in both families are exactly the encoding of `store`. */
    ghost predicate Represented()
      reads this
    {
      Represents(families, store)
    }

    ghost predicate Valid()
      reads this
    {
      && Represented()
      && store == RocksDBStore.SetAll(RocksDBStore.EMPTY, written)
      && durable == RocksDBStore.States(RocksDBStore.EMPTY, written)
      && synced < |durable|
    }

    constructor ()
      ensures Valid() && written == [] && synced == 0
    {
      families := Families(map[], map[]);
      store, durable, written := RocksDBStore.EMPTY, [RocksDBStore.EMPTY], [];
      synced := 0;
    }

    /** `Put` on the default column family. */
    method PutBlob(key: Bytes, blob: Bytes, ghost w: Write)
      requires Represented() && key == Encoding.Encode(w.key) && blob == w.blob
      modifies this`families, this`store, this`durable
      ensures Represented() && store == RocksDBStore.PutBlob(old(store), w)
      ensures durable == old(durable) + [store]
    {
      PutBlobRepresents(families, store, w);
      families := families.(blobs := families.blobs[key := blob]);
      store := RocksDBStore.PutBlob(store, w);
      durable := durable + [store];
    }

    /** `Put` on the sequence number column family. */
    method PutSeq(key: Bytes, seqno: Bytes, ghost w: Write)
      requires Represented() && key == Encoding.Encode(w.key) && seqno == Encoding.Encode(w.seqno)
      modifies this`families, this`store, this`durable
      ensures Represented() && store == RocksDBStore.PutSeq(old(store), w)
      ensures durable == old(durable) + [store]
    {
      PutSeqRepresents(families, store, w);
      families := families.(seqs := families.seqs[key := seqno]);
      store := RocksDBStore.PutSeq(store, w);
      durable := durable + [store];
    }

    /** `Get` on the sequence number column family, read back as an integer. */
    method GetSeq(key: Bytes, ghost k: uint32) returns (seqValue: Option<uint32>)
      requires Represented() && key == Encoding.Encode(k)
      ensures seqValue == if k in store.seqs then Some(store.seqs[k]) else None
    {
      assert AtKey(families, store, k);
      if key in families.seqs {
        var existingSeq := families.seqs[key];
        Encoding.DecodeEncode(store.seqs[k]);
        assert |existingSeq| == 4;
        seqValue := Some(Encoding.Decode(existingSeq));
      } else {
        seqValue := None;
      }
    }

    method Set(aKey: uint32, aSeq: uint32, aBlob: Blob)
      requires Valid()
      modifies this`families, this`store, this`durable, this`written
      ensures Valid()
      ensures written == old(written) + [Write(aKey, aSeq, aBlob)]
      ensures store == RocksDBStore.Set(old(store), Write(aKey, aSeq, aBlob))
      ensures durable == old(durable) + RocksDBStore.SetSteps(old(store), Write(aKey, aSeq, aBlob))
    {
      hide RocksDBStore.SetAll, RocksDBStore.States, Represents;
      ghost var w := Write(aKey, aSeq, aBlob);
      OneMoreWrite(written, w);
      var key := Encoding.Encode(aKey);
      var existing := GetSeq(key, aKey);
      if existing.Some? && existing.value >= aSeq {
        written := written + [w];
        assert durable == old(durable);
        return;
      }
      ghost var first := RocksDBStore.PutBlob(store, w);
      PutBlob(key, aBlob, w);
      PutSeq(key, Encoding.Encode(aSeq), w);
      assert durable == old(durable) + [first, store];
      written := written + [w];
    }

    /** `Flush` writes the log out and syncs it; the column families do not change. */
    method Flush()
      requires Valid()
      modifies this`synced
      ensures Valid() && durable[synced] == store && synced == |durable| - 1
    {
      RocksDBStore.StatesEnd(RocksDBStore.EMPTY, written);
      synced := |durable| - 1;
    }

    /** After complete `Set` calls the two families hold the same keys, and every one of them the
        winning write of its key. */
    lemma HoldsWinners(k: uint32)
      requires Valid()
      ensures var key := Encoding.Encode(k);
              && (key in families.blobs <==> key in families.seqs)
              && (key in families.blobs <==> k in Run(written))
              && (k in Run(written) ==> families.blobs[key] == Run(written)[k].blob
                                        && families.seqs[key] == Encoding.Encode(Run(written)[k].seqno))
    {
      RocksDBStore.CompleteRunRefinesRegister(written);
      assert AtKey(families, store, k);
    }

    /** Whichever put the process stopped at, replaying the calls made so far restores the node. */
    lemma RestartRestores(i: nat)
      requires Valid() && i < |durable|
      ensures RocksDBStore.SetAll(durable[i], written) == store
    {
      RocksDBStore.ReplayConverges(RocksDBStore.EMPTY, written, i);
    }
  }
}
