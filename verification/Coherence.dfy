/** The coherence check: a verdict from the K nearest neighbours that equals the verdict over the whole store. */
module Coherence {
  import opened Wrappers
  import opened Text
  import opened Wal
  import opened Documents
  import opened Encrypt
  import opened StoreModel
  import opened FileSystem
  import opened Recovery
  import opened EmbeddingCache
  import opened Similarity
  import opened JsonStores

  const DEFAULT_K := 5
  const DEFAULT_THRESHOLD := 0.4

  datatype CoherenceScore = CoherenceScore(maxSimilarity: real, nearestNodeId: string, isCoherent: bool)

  /** An empty store contradicts nobody; otherwise some stored vector must come close enough. */
  ghost predicate Coherent(sqrt: real -> real, query: Embedding, vectors: Cache, threshold: real)
    requires IsSqrt(sqrt)
  {
    vectors == map[] || exists id :: id in vectors && Cosine(sqrt, query, vectors[id]) >= threshold
  }

  ghost predicate IsBest(sqrt: real -> real, query: Embedding, vectors: Cache, best: real)
    requires IsSqrt(sqrt)
  {
    && (exists id :: id in vectors && Cosine(sqrt, query, vectors[id]) == best)
    && (forall id :: id in vectors ==> Cosine(sqrt, query, vectors[id]) <= best)
  }

  class Checker {
    const store: JsonStore
    const threshold: real
    const k: nat

    /** NewChecker: non-positive settings are replaced. */
    constructor (store: JsonStore, threshold: real, k: int)
      ensures this.store == store && this.k >= 1 && this.threshold > 0.0
      ensures this.k == (if k <= 0 then 5 else k)
      ensures this.threshold == if threshold <= 0.0 then 0.4 else threshold
    {
      this.store := store;
      this.threshold := if threshold <= 0.0 then DEFAULT_THRESHOLD else threshold;
      this.k := if k <= 0 then DEFAULT_K else k;
    }

    /** Looks at k neighbours only; what it reports is the best similarity and the verdict over every cached vector. */
    method Check(embedding: Embedding, sqrt: real -> real) returns (r: Option<CoherenceScore>)
      requires IsSqrt(sqrt) && k >= 1 && threshold > 0.0
      ensures r.None? <==> embedding == []
      ensures r.Some? && store.embCache == map[] ==> r == Some(CoherenceScore(0.0, "", true))
      ensures r.Some? ==> (r.value.isCoherent <==> Coherent(sqrt, embedding, store.embCache, threshold))
      ensures r.Some? && store.embCache != map[] ==> IsBest(sqrt, embedding, store.embCache, r.value.maxSimilarity)
      ensures r.Some? && r.value.nearestNodeId != "" ==>
                exists id :: id in store.embCache && r.value.nearestNodeId == HexEncode(id)
                             && Cosine(sqrt, embedding, store.embCache[id]) == r.value.maxSimilarity
      ensures r.Some? && store.embCache != map[] ==> (r.value.nearestNodeId == "" <==> r.value.maxSimilarity == -1.0)
    {
      hide Cosine, IsSqrt;
      if |embedding| == 0 {
        return None;
      }
      var vectors := store.embCache;
      var neighbors := store.Nearest(embedding, k, sqrt);
      if |neighbors| == 0 {
        NoneNearest(vectors, k);
        return Some(CoherenceScore(0.0, "", true));
      }
      var maxSim, nearestId := Strongest(neighbors);
      AboveMinusOne(sqrt, embedding, vectors);
      BestOfTopK(neighbors, sqrt, embedding, vectors, k, maxSim);
      assert forall c :: c in neighbors ==> c.id in vectors && c.score == Cosine(sqrt, embedding, vectors[c.id]);
      r := Some(CoherenceScore(maxSim, nearestId, maxSim >= threshold));
    }
  }

  /** The scan over the neighbours; it starts at -1 and so names nobody when nobody scores above it. */
  method Strongest(neighbors: seq<Scored>) returns (maxSim: real, nearestId: string)
    ensures maxSim >= -1.0 && forall j :: 0 <= j < |neighbors| ==> neighbors[j].score <= maxSim
    ensures maxSim == -1.0 <==> nearestId == ""
    ensures nearestId != "" ==> exists c :: c in neighbors && c.score == maxSim && nearestId == HexEncode(c.id)
  {
    hide HexEncode;
    maxSim := -1.0;
    nearestId := "";
    for i := 0 to |neighbors|
      invariant maxSim >= -1.0 && forall j :: 0 <= j < i ==> neighbors[j].score <= maxSim
      invariant maxSim == -1.0 <==> nearestId == ""
      invariant nearestId != "" ==> exists c :: c in neighbors && c.score == maxSim && nearestId == HexEncode(c.id)
    {
      if neighbors[i].score > maxSim {
        maxSim := neighbors[i].score;
        nearestId := HexEncode(neighbors[i].id);
        assert neighbors[i] in neighbors;
      }
    }
  }

  lemma NoneNearest(vectors: Cache, k: nat)
    requires Min(k, |vectors|) == 0 && k >= 1
    ensures vectors == map[]
  {
    assert |vectors| == |vectors.Keys|;
  }

  lemma AboveMinusOne(sqrt: real -> real, query: Embedding, vectors: Cache)
    requires IsSqrt(sqrt)
    ensures forall id :: id in vectors ==> Cosine(sqrt, query, vectors[id]) >= -1.0
  {
    forall id | id in vectors
      ensures Cosine(sqrt, query, vectors[id]) >= -1.0
    {
      CosineBound(sqrt, query, vectors[id]);
    }
  }

  /** The largest score among the k best is the largest of all; no similarity lies below the scan's starting value. */
  lemma BestOfTopK(r: seq<Scored>, sqrt: real -> real, query: Embedding, vectors: Cache, k: nat, best: real)
    requires IsSqrt(sqrt) && TopK(r, sqrt, query, vectors, k) && r != []
    requires forall id :: id in vectors ==> Cosine(sqrt, query, vectors[id]) >= -1.0
    requires forall j :: 0 <= j < |r| ==> r[j].score <= best
    requires best == -1.0 || exists c :: c in r && c.score == best
    ensures IsBest(sqrt, query, vectors, best)
  {
    hide Cosine, IsSqrt;
    assert r[0] in r;
    var c :| c in r && c.score == best;
    forall id | id in vectors
      ensures Cosine(sqrt, query, vectors[id]) <= best
    {
      if exists x :: x in r && x.id == id {
        var x :| x in r && x.id == id;
      } else {
        assert Cosine(sqrt, query, vectors[id]) <= r[0].score;
      }
    }
  }

  /** A node that decrypts and has an embedding. */
  predicate HasVector(k: Keys, d: Disk, id: NodeId) {
    id in d.nodes && Read(k, d, id).Ok? && Read(k, d, id).value.embedding != []
  }

  function VectorOf(k: Keys, d: Disk, id: NodeId): Embedding
    requires HasVector(k, d, id)
  {
    Read(k, d, id).value.embedding
  }

  /** The verdict over all nodes that can be decrypted from disk. */
  ghost predicate CoherentOnDisk(sqrt: real -> real, query: Embedding, k: Keys, d: Disk, threshold: real)
    requires IsSqrt(sqrt)
  {
    || (forall id: NodeId :: !HasVector(k, d, id))
    || exists id: NodeId :: HasVector(k, d, id) && Cosine(sqrt, query, VectorOf(k, d, id)) >= threshold
  }

  lemma ReadableMember(k: Keys, d: Disk, id: NodeId)
    ensures id in Readable(k, d) <==> HasVector(k, d, id)
    ensures id in Readable(k, d) ==> Readable(k, d)[id] == VectorOf(k, d, id)
  {
    hide Read;
  }

  lemma VerdictOfReadable(sqrt: real -> real, query: Embedding, k: Keys, d: Disk, threshold: real)
    requires IsSqrt(sqrt)
    ensures Coherent(sqrt, query, Readable(k, d), threshold) <==> CoherentOnDisk(sqrt, query, k, d, threshold)
  {
    hide Cosine, IsSqrt, Readable, HasVector, VectorOf;
    var now := Readable(k, d);
    forall id: NodeId
      ensures id in now <==> HasVector(k, d, id)
      ensures id in now ==> now[id] == VectorOf(k, d, id)
    {
      ReadableMember(k, d, id);
    }
    assert now == map[] <==> forall id: NodeId :: id !in now;
  }

  /** After any life whose events keep the cache right, the cached verdict is the verdict over the disk. */
  lemma VerdictFromDisk(env: Env, s: State, cache: Cache, run: seq<Event>, sqrt: real -> real, query: Embedding,
                        threshold: real)
    requires Good(env, s) && AllAllowed(env, s, run) && Agrees(env, s, cache) && AllKeep(env, s, run)
    requires IsSqrt(sqrt)
    ensures var t := After(env, s, run);
            t.up ==> (Coherent(sqrt, query, CacheAfter(env, s, cache, run), threshold)
                      <==> CoherentOnDisk(sqrt, query, env.keys, t.disk, threshold))
  {
    hide Cosine, IsSqrt, After, AllAllowed, CacheAfter, Good, Coherent, CoherentOnDisk, AllKeep, Readable;
    CacheAgrees(env, s, cache, run);
    VerdictOfReadable(sqrt, query, env.keys, After(env, s, run).disk, threshold);
  }
}
