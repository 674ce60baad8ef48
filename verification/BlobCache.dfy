/** The pool of random blobs that all writes are taken from. The random engine is an arbitrary
    stream of numbers; a draw takes the next one. */
module BlobCache {
  import opened Machine
  import opened Journal
  import opened Config

  type Entropy = nat -> nat

  /** A draw of `uniform_int_distribution(lo, hi)` from the number at position `at`. */
  function UniformAt(entropy: Entropy, at: nat, lo: nat, hi: nat): (r: nat)
    requires lo <= hi
    ensures lo <= r <= hi
  {
    lo + entropy(at) % (hi - lo + 1)
  }

  class Generator {
    const entropy: Entropy
    var drawn: nat

    constructor (entropy: Entropy)
      ensures this.entropy == entropy && drawn == 0
    {
      this.entropy := entropy;
      drawn := 0;
    }

    /** One 32-bit word. */
    method Word() returns (w: uint32)
      modifies this
      ensures w == Wrap32(entropy(old(drawn))) && drawn == old(drawn) + 1
    {
      w := Wrap32(entropy(drawn));
      drawn := drawn + 1;
    }

    method Uniform(lo: nat, hi: nat) returns (r: nat)
      requires lo <= hi
      modifies this
      ensures r == UniformAt(entropy, old(drawn), lo, hi) && drawn == old(drawn) + 1
    {
      r := UniformAt(entropy, drawn, lo, hi);
      drawn := drawn + 1;
    }
  }

  /** The first `n` bytes of a blob drawn from position `at` on. */
  function BytesAt(entropy: Entropy, at: nat, n: nat): Blob {
    seq(n, j requires j >= 0 => Wrap32(entropy(at + j)) % 64)
  }

  /** `count` blobs drawn from position `from` on, and the position after their last draw. */
  function Blobs(entropy: Entropy, from: nat, lo: nat, hi: nat, count: nat): (seq<Blob>, nat)
    requires lo <= hi
  {
    if count == 0 then ([], from)
    else
      var (blobs, at) := Blobs(entropy, from, lo, hi, count - 1);
      var size := UniformAt(entropy, at, lo, hi);
      (blobs + [BytesAt(entropy, at + 1, size)], at + 1 + size)
  }

  /** Every blob has a size within the configured bounds and bytes below 64. */
  lemma {:induction false} BlobsAreBounded(entropy: Entropy, from: nat, lo: nat, hi: nat, count: nat)
    requires lo <= hi
    ensures var blobs := Blobs(entropy, from, lo, hi, count).0;
            && |blobs| == count
            && forall b | b in blobs :: lo <= |b| <= hi && forall x | x in b :: x < 64
  {
    if count > 0 {
      BlobsAreBounded(entropy, from, lo, hi, count - 1);
    }
  }

  /** A byte is the low six bits of its word. */
  lemma BytesAreLowBits(entropy: Entropy, at: nat, n: nat, j: nat)
    requires j < n
    ensures var word, byte := Wrap32(entropy(at + j)), BytesAt(entropy, at, n)[j];
            byte < 64 && exists q: nat :: word == 64 * q + byte
  {
    var word := Wrap32(entropy(at + j));
    assert word == 64 * (word / 64) + word % 64;
  }

  // ---------------------------------------------------------------- what can be drawn

  ghost predicate InRange(blobs: seq<Blob>, lo: nat, hi: nat) {
    forall b | b in blobs :: lo <= |b| <= hi && forall x | x in b :: x < 64
  }

  /** Numbers from which a blob is drawn: its size in excess of the least, then its bytes. */
  function DrawsOfBlob(blob: Blob, lo: nat): (draws: seq<nat>)
    requires lo <= |blob|
    ensures |draws| == 1 + |blob|
  {
    [|blob| - lo] + blob
  }

  function DrawsOf(blobs: seq<Blob>, lo: nat): seq<nat>
    requires forall b | b in blobs :: lo <= |b|
  {
    if blobs == [] then [] else DrawsOf(Front(blobs), lo) + DrawsOfBlob(Last(blobs), lo)
  }

  /** These numbers stand in the stream from position `from` on. */
  ghost predicate Stands(entropy: Entropy, from: nat, draws: seq<nat>) {
    forall i: nat | i < |draws| :: entropy(from + i) == draws[i]
  }

  lemma StandsSplit(entropy: Entropy, from: nat, a: seq<nat>, b: seq<nat>)
    requires Stands(entropy, from, a + b)
    ensures Stands(entropy, from, a) && Stands(entropy, from + |a|, b)
  {
    assert forall i: nat | i < |a| :: a[i] == (a + b)[i];
    forall i: nat | i < |b|
      ensures entropy(from + |a| + i) == b[i]
    {
      assert (a + b)[|a| + i] == b[i];
      assert entropy(from + (|a| + i)) == b[i];
    }
  }

  /** A number below the size of the range is drawn as it is. */
  lemma InRangeDraw(entropy: Entropy, at: nat, lo: nat, hi: nat, r: nat)
    requires lo <= r <= hi && entropy(at) == r - lo
    ensures UniformAt(entropy, at, lo, hi) == r
  {
  }

  lemma BlobIsDrawn(entropy: Entropy, at: nat, blob: Blob, lo: nat, hi: nat)
    requires lo <= |blob| <= hi && (forall x | x in blob :: x < 64) && Stands(entropy, at, DrawsOfBlob(blob, lo))
    ensures UniformAt(entropy, at, lo, hi) == |blob| && BytesAt(entropy, at + 1, |blob|) == blob
  {
    assert entropy(at + 0) == DrawsOfBlob(blob, lo)[0] == |blob| - lo;
    InRangeDraw(entropy, at, lo, hi, |blob|);
    forall j: nat | j < |blob|
      ensures BytesAt(entropy, at + 1, |blob|)[j] == blob[j]
    {
      assert entropy(at + (1 + j)) == DrawsOfBlob(blob, lo)[1 + j];
      assert at + (1 + j) == at + 1 + j && blob[j] in blob;
      SmallNumbersDoNotWrap(blob[j]);
    }
  }

  lemma NoBlobs(entropy: Entropy, from: nat, lo: nat, hi: nat)
    requires lo <= hi
    ensures Blobs(entropy, from, lo, hi, 0) == ([], from) && DrawsOf([], lo) == []
  {
  }

  lemma OneMoreBlob(entropy: Entropy, from: nat, lo: nat, hi: nat, n: nat)
    requires lo <= hi
    ensures var (before, at) := Blobs(entropy, from, lo, hi, n);
            var size := UniformAt(entropy, at, lo, hi);
            Blobs(entropy, from, lo, hi, n + 1) == (before + [BytesAt(entropy, at + 1, size)], at + 1 + size)
  {
    hide UniformAt, BytesAt;
  }

  lemma DrawsOfOneMore(blobs: seq<Blob>, lo: nat)
    requires blobs != [] && forall b | b in blobs :: lo <= |b|
    ensures DrawsOf(blobs, lo) == DrawsOf(Front(blobs), lo) + DrawsOfBlob(Last(blobs), lo)
  {
  }

  /** The sizes and the bytes are drawn in that order, and none in range is out of reach. */
  lemma {:induction false} EveryCacheIsDrawn(entropy: Entropy, from: nat, blobs: seq<Blob>, lo: nat, hi: nat)
    requires lo <= hi && InRange(blobs, lo, hi) && Stands(entropy, from, DrawsOf(blobs, lo))
    ensures Blobs(entropy, from, lo, hi, |blobs|) == (blobs, from + |DrawsOf(blobs, lo)|)
  {
    hide Stands, UniformAt, BytesAt, DrawsOfBlob, Blobs, DrawsOf;
    if blobs == [] {
      NoBlobs(entropy, from, lo, hi);
    } else {
      OneMoreBlob(entropy, from, lo, hi, |blobs| - 1);
      DrawsOfOneMore(blobs, lo);
      var before, blob := DrawsOf(Front(blobs), lo), Last(blobs);
      assert blob in blobs && forall b | b in Front(blobs) :: b in blobs;
      StandsSplit(entropy, from, before, DrawsOfBlob(blob, lo));
      EveryCacheIsDrawn(entropy, from, Front(blobs), lo, hi);
      BlobIsDrawn(entropy, from + |before|, blob, lo, hi);
      assert Front(blobs) + [blob] == blobs;
    }
  }

  /** The caches that can be drawn are exactly the lists of blobs in range. */
  lemma DrawnIffInRange(blobs: seq<Blob>, lo: nat, hi: nat)
    requires lo <= hi
    ensures InRange(blobs, lo, hi) <==> exists entropy :: Blobs(entropy, 0, lo, hi, |blobs|).0 == blobs
  {
    if InRange(blobs, lo, hi) {
      var draws := DrawsOf(blobs, lo);
      var entropy := (i: nat) => if i < |draws| then draws[i] else 0;
      assert Stands(entropy, 0, draws);
      EveryCacheIsDrawn(entropy, 0, blobs, lo, hi);
    }
    if entropy :| Blobs(entropy, 0, lo, hi, |blobs|).0 == blobs {
      BlobsAreBounded(entropy, 0, lo, hi, |blobs|);
    }
  }

  /** The inner loop of the cache's constructor. */
  method DrawBytes(random: Generator, size: nat) returns (blob: Blob)
    modifies random
    ensures blob == BytesAt(random.entropy, old(random.drawn), size) && random.drawn == old(random.drawn) + size
  {
    ghost var at := random.drawn;
    blob := [];
    for j := 0 to size
      invariant blob == BytesAt(random.entropy, at, j) && random.drawn == at + j
    {
      var word := random.Word();
      blob := blob + [word % 64];
    }
  }

  class RandomBlobCache {
    var blobs: seq<Blob>

    constructor (config: Settings, random: Generator)
      requires config.minBlobSize <= config.maxBlobSize
      modifies random
      ensures (blobs, random.drawn)
              == Blobs(random.entropy, old(random.drawn), config.minBlobSize, config.maxBlobSize,
                       config.randomBlobCacheSize)
    {
      var pool := [];
      for i := 0 to config.randomBlobCacheSize
        invariant (pool, random.drawn)
                  == Blobs(random.entropy, old(random.drawn), config.minBlobSize, config.maxBlobSize, i)
      {
        var blobSize := random.Uniform(config.minBlobSize, config.maxBlobSize);
        var blob := DrawBytes(random, blobSize);
        pool := pool + [blob];
      }
      blobs := pool;
    }

    method GetRandomBlob(random: Generator) returns (blob: Blob)
      requires |blobs| > 0
      modifies random
      ensures blob == blobs[UniformAt(random.entropy, old(random.drawn), 0, |blobs| - 1)]
      ensures random.drawn == old(random.drawn) + 1
    {
      var index := random.Uniform(0, |blobs| - 1);
      blob := blobs[index];
    }
  }
}
