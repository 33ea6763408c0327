/** The in-memory embedding cache against what the disk would give back. */
module EmbeddingCache {
  import opened Wrappers
  import opened Text
  import opened Wal
  import opened Documents
  import opened Encrypt
  import opened FileSystem
  import opened StoreModel
  import opened Startup
  import opened Rows
  import opened Faults
  import opened History
  import opened Recovery

  type Cache = map<NodeId, Embedding>

  // ---- Loading at startup ----

  /** The embedding of a node opened with a given timestamp; None when it cannot be read or has no embedding. */
  function EmbeddingAt(k: Keys, d: Disk, id: NodeId, ts: int64): Option<Embedding> {
    if id !in d.nodes then None
    else
      match Open(k, id, ts, d.nodes[id])
      case Ok(NodeDoc(node)) => if node.embedding == [] then None else Some(node.embedding)
      case _ => None
  }

  function Remember(cache: Cache, id: NodeId, embedding: Option<Embedding>): Cache {
    match embedding
    case Some(e) => cache[id := e]
    case None => cache
  }

  function DecodeId(hexId: string): (r: Option<NodeId>) {
    match HexDecode(hexId)
    case Some(id) => if |id| == ID_LEN then Some(id) else None
    case None => None
  }

  function LoadRows(k: Keys, d: Disk, es: seq<IndexEntry>, cache: Cache): Cache
    decreases |es|
  {
    if es == [] then cache
    else
      var next := match DecodeId(es[0].id)
                  case Some(id) => Remember(cache, id, EmbeddingAt(k, d, id, es[0].ts))
                  case None => cache;
      LoadRows(k, d, es[1..], next)
  }

  /** A failing index load leaves the cache empty. */
  function StartupCache(k: Keys, d: Disk): Cache { LoadRows(k, d, IndexRows(k, d), map[]) }

  /** What decrypting every node file would give: the readable nodes with a non-empty embedding. */
  function Readable(k: Keys, d: Disk): Cache {
    map id | id in d.nodes && Read(k, d, id).Ok? && Read(k, d, id).value.embedding != []
      :: Read(k, d, id).value.embedding
  }

  function Entry(cache: Cache, id: NodeId): Option<Embedding> {
    if id in cache then Some(cache[id]) else None
  }

  lemma ReadableAt(k: Keys, d: Disk, id: NodeId)
    ensures Entry(Readable(k, d), id) == EmbeddingAt(k, d, id, RowTime(k, d, id))
  {
    hide IndexRows, Find, HexEncode, Open;
  }

  lemma SameEntries(a: Cache, b: Cache)
    requires forall id: NodeId :: Entry(a, id) == Entry(b, id)
    ensures a == b
  {
    forall id: NodeId | id in a || id in b
      ensures id in a && id in b && a[id] == b[id]
    {
      assert Entry(a, id) == Entry(b, id);
    }
  }

  lemma DecodeEncoded(id: NodeId)
    ensures DecodeId(HexEncode(id)) == Some(id)
  {
    HexRoundTrip(id);
  }

  /** Loading visits each id at most once, with the timestamp of its row. */
  lemma {:induction false} LoadRowsAt(k: Keys, d: Disk, es: seq<IndexEntry>, cache: Cache, ids: set<NodeId>, id: NodeId)
    requires RowsOk(es, ids)
    ensures Entry(LoadRows(k, d, es, cache), id)
         == match Find(es, HexEncode(id))
            case None => Entry(cache, id)
            case Some(ts) => if EmbeddingAt(k, d, id, ts).Some? then EmbeddingAt(k, d, id, ts) else Entry(cache, id)
    decreases |es|
  {
    hide HexEncode, DecodeId, EmbeddingAt;
    if es != [] {
      var e := es[0];
      assert e in es && forall x :: x in es[1..] ==> x in es;
      var x :| x in ids && e.id == HexEncode(x);
      DecodeEncoded(x);
      if e.id == HexEncode(id) {
        HexInjective(x, id);
        FoundRow(es[1..], HexEncode(id));
      }
      LoadRowsAt(k, d, es[1..], Remember(cache, x, EmbeddingAt(k, d, x, e.ts)), ids, id);
    }
  }

  /** Readable without a row, because sealed at the instant that a missing row stands for, and with an embedding. */
  predicate Untimely(k: Keys, s: State, id: NodeId) {
    && Whole(k, s, id) && Find(IndexRows(k, s.disk), HexEncode(id)).None?
    && TimeOf(s.history, id) == ZERO_TIME && s.history.begun[id].node.embedding != []
  }

  ghost predicate Timed(k: Keys, s: State) { forall id :: !Untimely(k, s, id) }

  /** The cache loaded at startup is what decrypting every file would give, exactly if no such node is there. */
  lemma StartupCacheReadable(env: Env, s: State)
    requires Good(env, s)
    ensures StartupCache(env.keys, s.disk) == Readable(env.keys, s.disk) <==> Timed(env.keys, s)
  {
    hide Good, StartupCache, Readable, Untimely;
    var k, d := env.keys, s.disk;
    forall id: NodeId
      ensures Entry(StartupCache(k, d), id) == Entry(Readable(k, d), id) <==> !Untimely(k, s, id)
    {
      StartupEntry(env, s, id);
    }
    if Timed(k, s) {
      SameEntries(StartupCache(k, d), Readable(k, d));
    }
  }

  lemma StartupEntry(env: Env, s: State, id: NodeId)
    requires Good(env, s)
    ensures Entry(StartupCache(env.keys, s.disk), id) == Entry(Readable(env.keys, s.disk), id)
       <==> !Untimely(env.keys, s, id)
  {
    hide HexEncode, EmbeddingAt, RowsOk, LoadRows, Find, EffectiveRows, IndexRows, Inv, Readable, SealedBlob;
    var k, d, h := env.keys, s.disk, s.history;
    var es := IndexRows(k, d);
    IndexRowsOk(k, d, h);
    ReadableAt(k, d, id);
    LoadRowsAt(k, d, es, map[], h.begun.Keys, id);
    if id !in d.nodes {
      NoFileNoEmbedding(k, d, id);
    } else {
      GoodFiles(env, s, id);
      hide Whole;
      ReadableExactly(env, s, id);
    }
  }

  /** What is readable of a begun node. */
  lemma ReadableExactly(env: Env, s: State, id: NodeId)
    requires Good(env, s) && id in s.history.begun
    ensures var e := s.history.begun[id].node.embedding;
            Entry(Readable(env.keys, s.disk), id)
            == if Whole(env.keys, s, id) && RowTime(env.keys, s.disk, id) == TimeOf(s.history, id) && e != [] then Some(e)
               else None
  {
    hide Good, Whole, RowTime, Read, Readable;
    ReadExactly(env, s, id);
    ReadableIs(env.keys, s.disk, id);
    if id !in s.disk.nodes {
      NoFileReadsNothing(env.keys, s.disk, id);
    }
  }

  lemma NoFileNoEmbedding(k: Keys, d: Disk, id: NodeId)
    requires id !in d.nodes
    ensures forall ts: int64 :: EmbeddingAt(k, d, id, ts).None?
  {
  }

  // ---- One step of the running store ----

  /** Store.Write and Store.Delete touch the cache only when the record operation returned without error. */
  function NextCache(env: Env, d: Disk, cache: Cache, ev: Event): Cache {
    match ev
    case Boot(_, _, _) => StartupCache(env.keys, Effect(env, d, ev))
    case Kill => cache
    case Write(node, _, alive, _) =>
      if alive && Files(ev) && node.embedding != [] then cache[node.id := node.embedding] else cache
    case Delete(id, stop, alive, n) =>
      if alive && stop.done >= |DeleteCalls(env, n, d, id)| then cache - {id} else cache
  }

  /** An id whose file and row are what they were is cached rightly if it was. */
  lemma BystanderAgrees(k: Keys, d: Disk, d': Disk, id: NodeId)
    requires id in d'.nodes <==> id in d.nodes
    requires id in d.nodes ==> d'.nodes[id] == d.nodes[id]
    requires Find(IndexRows(k, d'), HexEncode(id)) == Find(IndexRows(k, d), HexEncode(id))
    ensures Entry(Readable(k, d'), id) == Entry(Readable(k, d), id)
  {
    hide IndexRows, Find, HexEncode, Open, Readable;
    ReadableAt(k, d, id);
    ReadableAt(k, d', id);
  }

  /** What a write leaves to be read under another id: what there was, unless the row of that id was wiped. */
  lemma WriteLeavesOthers(env: Env, s: State, ev: Event, x: NodeId)
    requires Good(env, s) && Allowed(s, ev) && ev.Write? && x != ev.node.id
    requires !(ev.course.blind && SavesIndex(ev))
    ensures Entry(Readable(env.keys, Next(env, s, ev).disk), x) == Entry(Readable(env.keys, s.disk), x)
  {
    hide IndexRows, HexEncode, Find, AddRow, Good, Readable, Record, Allowed, Written, SealNode, LogText, LoadIndex;
    hide TornAppend;
    WrittenIs(env, ev.draw, s.disk, ev.node, ev.course);
    RowsOfOthers(IndexRows(env.keys, s.disk), ev.node.id, ev.node.capturedAt, x);
    BystanderAgrees(env.keys, s.disk, Effect(env, s.disk, ev), x);
  }

  /** A node that reads as well without its row as with it. */
  predicate Indifferent(k: Keys, s: State, x: NodeId) {
    Whole(k, s, x) && s.history.begun[x].node.embedding != [] ==>
      (RowTime(k, s.disk, x) == TimeOf(s.history, x) <==> TimeOf(s.history, x) == ZERO_TIME)
  }

  lemma BlindWriteOfOthers(env: Env, s: State, ev: Event, x: NodeId)
    requires Good(env, s) && Allowed(s, ev) && ev.Write? && x != ev.node.id && ev.course.blind && SavesIndex(ev)
    ensures Entry(Readable(env.keys, Next(env, s, ev).disk), x) == Entry(Readable(env.keys, s.disk), x)
       <==> Indifferent(env.keys, s, x)
  {
    hide IndexRows, HexEncode, Find, Readable, Inv, Written, SealNode, LogText, LoadIndex, TornAppend, SealedBlob;
    var k, t := env.keys, Next(env, s, ev);
    WrittenIs(env, ev.draw, s.disk, ev.node, ev.course);
    FindSingle(ev.node.id, ev.node.capturedAt, x);
    if x in s.history.begun {
      StepKeepsGood(env, s, ev);
      ReadableExactly(env, s, x);
      ReadableExactly(env, t, x);
    } else {
      NobodyReads(env, s, x);
      NoFileReadsNothing(k, t.disk, x);
    }
  }

  lemma NobodyReads(env: Env, s: State, x: NodeId)
    requires Good(env, s) && x !in s.history.begun
    ensures x !in s.disk.nodes && Entry(Readable(env.keys, s.disk), x) == None
  {
    hide Inv, Readable;
    if x in s.disk.nodes {
      FileIsBegun(env.keys, s.disk, s.history, x);
    }
    NoFileReadsNothing(env.keys, s.disk, x);
  }

  /** What a write leaves to be read under its own id. */
  lemma WriteReadsBack(env: Env, s: State, ev: Event)
    requires Good(env, s) && Allowed(s, ev) && ev.Write?
    ensures var t, node := Next(env, s, ev), ev.node;
            && Entry(Readable(env.keys, s.disk), node.id) == None
            && Entry(Readable(env.keys, t.disk), node.id)
               == (if FileWhole(env, ev.draw, node, ev.course.stop) && (SavesIndex(ev) || node.capturedAt == ZERO_TIME)
                      && node.embedding != []
                   then Some(node.embedding) else None)
  {
    hide IndexRows, HexEncode, Find, Readable, SealedBlob, Whole, Inv, SealNode, Written, LogText, LoadIndex, FileWhole;
    hide EffectiveRows, TornAppend, LogEntries;
    var k, d, id := env.keys, s.disk, ev.node.id;
    var t := Next(env, s, ev);
    NobodyReads(env, s, id);
    FreshIsAbsent(k, d, s.history, id);
    WrittenIs(env, ev.draw, d, ev.node, ev.course);
    RowAddedFinds(IndexRows(k, d), id, ev.node.capturedAt, ev.course.blind, id);
    StepKeepsGood(env, s, ev);
    OwnFile(env, s, ev);
    ReadableExactly(env, t, id);
  }

  lemma NoFileReadsNothing(k: Keys, d: Disk, id: NodeId)
    requires id !in d.nodes
    ensures Entry(Readable(k, d), id) == None
  {
  }

  lemma ReadableIs(k: Keys, d: Disk, id: NodeId)
    ensures Entry(Readable(k, d), id)
         == if Read(k, d, id).Ok? && Read(k, d, id).value.embedding != [] then Some(Read(k, d, id).value.embedding) else None
  {
    hide IndexRows, Find, HexEncode, Open;
  }

  /** Its own entry is right after a write. */
  predicate OwnKept(env: Env, ev: Event)
    requires ev.Write?
  {
    || ev.node.embedding == []
    || if Files(ev) then SavesIndex(ev) || ev.node.capturedAt == ZERO_TIME
       else ev.node.capturedAt != ZERO_TIME || !FileWhole(env, ev.draw, ev.node, ev.course.stop)
  }

  /**
   From a cache that agrees with the disk, a write that the process survives keeps it in agreement exactly when two things
   hold. It has no embedding to cache, or it succeeded and the node can be read (its row was saved, or it is sealed at the
   instant a missing row stands for), or it failed and the node cannot. And if it saved the index blind, everyone else reads
   as well without a row. A failed index save is not reported: the cache then runs ahead of the disk.
   */
  lemma WriteCacheExact(env: Env, s: State, ev: Event)
    requires Good(env, s) && Allowed(s, ev) && ev.Write? && ev.alive
    ensures NextCache(env, s.disk, Readable(env.keys, s.disk), ev) == Readable(env.keys, Next(env, s, ev).disk)
       <==> && OwnKept(env, ev)
            && (ev.course.blind && SavesIndex(ev) ==> forall x :: x != ev.node.id ==> Indifferent(env.keys, s, x))
  {
    hide IndexRows, HexEncode, Find, Next, Good, Allowed, Readable, Indifferent, SealNode;
    var t, wiped := Next(env, s, ev), ev.course.blind && SavesIndex(ev);
    var now := Readable(env.keys, t.disk);
    var cache := NextCache(env, s.disk, Readable(env.keys, s.disk), ev);
    WriteReadsBack(env, s, ev);
    forall x: NodeId | x != ev.node.id
      ensures Entry(cache, x) == Entry(now, x) <==> !wiped || Indifferent(env.keys, s, x)
    {
      if wiped {
        BlindWriteOfOthers(env, s, ev, x);
      } else {
        WriteLeavesOthers(env, s, ev, x);
      }
    }
    assert Entry(cache, ev.node.id) == Entry(now, ev.node.id) <==> OwnKept(env, ev);
    if OwnKept(env, ev) && (wiped ==> forall x :: x != ev.node.id ==> Indifferent(env.keys, s, x)) {
      SameEntries(cache, now);
    }
  }

  lemma DeleteLeavesOthers(env: Env, s: State, ev: Event, x: NodeId)
    requires Good(env, s) && s.up && ev.Delete? && x != ev.id
    ensures Entry(Readable(env.keys, Next(env, s, ev).disk), x) == Entry(Readable(env.keys, s.disk), x)
  {
    hide IndexRows, HexEncode, Find, Without, LoadIndex, Inv, Readable, CrashAt, DeleteCalls;
    var d := s.disk;
    InvRows(env.keys, d, s.history);
    DeletedIs(env, ev.draw, d, ev.id, ev.stop);
    RowsOfOthers(IndexRows(env.keys, d), ev.id, 0, x);
    BystanderAgrees(env.keys, d, CrashAt(d, DeleteCalls(env, ev.draw, d, ev.id), ev.stop), x);
  }

  predicate DeleteKeeps(k: Keys, d: Disk, ev: Event)
    requires ev.Delete?
  {
    ev.stop.done >= 3 || !FileGone(ev.stop) || ev.id !in Readable(k, d)
  }

  /** From agreement, a delete keeps it exactly when it completed, or removed no file, or the id was not cached. */
  lemma DeleteCacheExact(env: Env, s: State, ev: Event)
    requires Good(env, s) && s.up && ev.Delete? && ev.alive
    ensures NextCache(env, s.disk, Readable(env.keys, s.disk), ev) == Readable(env.keys, Next(env, s, ev).disk)
       <==> DeleteKeeps(env.keys, s.disk, ev)
  {
    hide IndexRows, HexEncode, Find, Next, Good, Readable, NextCache;
    var t := Next(env, s, ev);
    var was, now := Readable(env.keys, s.disk), Readable(env.keys, t.disk);
    var cache := NextCache(env, s.disk, was, ev);
    DeleteOutcome(env, s, was, ev);
    forall x: NodeId | x != ev.id
      ensures Entry(cache, x) == Entry(now, x)
    {
      DeleteLeavesOthers(env, s, ev, x);
    }
    if FileGone(ev.stop) {
      NoFileReadsNothing(env.keys, t.disk, ev.id);
    } else {
      BystanderAgrees(env.keys, s.disk, t.disk, ev.id);
    }
    if Entry(cache, ev.id) == Entry(now, ev.id) {
      SameEntries(cache, now);
    }
  }

  lemma DeleteOutcome(env: Env, s: State, cache: Cache, ev: Event)
    requires Good(env, s) && s.up && ev.Delete? && ev.alive
    ensures var t := Next(env, s, ev);
            && NextCache(env, s.disk, cache, ev) == (if ev.stop.done >= 3 then cache - {ev.id} else cache)
            && (if FileGone(ev.stop) then ev.id !in t.disk.nodes
                else t.disk.nodes == s.disk.nodes && IndexRows(env.keys, t.disk) == IndexRows(env.keys, s.disk))
  {
    hide IndexRows, HexEncode, Inv, DeleteCalls, LoadIndex, CrashAt, Without;
    InvRows(env.keys, s.disk, s.history);
    DeletedIs(env, ev.draw, s.disk, ev.id, ev.stop);
  }

  // ---- Whole runs ----

  ghost predicate Agrees(env: Env, s: State, cache: Cache) { s.up ==> cache == Readable(env.keys, s.disk) }

  /** What an event that the process survives must be like to keep the cache right. */
  ghost predicate Keeps(env: Env, s: State, ev: Event) {
    match ev
    case Boot(_, _, _) => Timed(env.keys, Next(env, s, ev))
    case Kill => true
    case Write(node, c, _, _) =>
      && OwnKept(env, ev)
      && (c.blind && SavesIndex(ev) ==> forall x :: x != node.id ==> Indifferent(env.keys, s, x))
    case Delete(_, _, _, _) => DeleteKeeps(env.keys, s.disk, ev)
  }

  /** From agreement, every event leads to agreement exactly if it ends the process or is like that. */
  lemma StepAgrees(env: Env, s: State, cache: Cache, ev: Event)
    requires Good(env, s) && Allowed(s, ev) && Agrees(env, s, cache)
    ensures Agrees(env, Next(env, s, ev), NextCache(env, s.disk, cache, ev)) <==> (Survives(ev) ==> Keeps(env, s, ev))
  {
    hide Good, Readable, Timed, Effect, StartupCache, Indifferent, DeleteKeeps, OwnKept, Record;
    match ev
    case Boot(_, _, _) =>
      StepKeepsGood(env, s, ev);
      StartupCacheReadable(env, Next(env, s, ev));
    case Kill =>
    case Write(_, _, alive, _) =>
      if alive {
        WriteCacheExact(env, s, ev);
      }
    case Delete(_, _, alive, _) =>
      if alive {
        DeleteCacheExact(env, s, ev);
      }
  }

  function CacheAfter(env: Env, s: State, cache: Cache, run: seq<Event>): Cache
    decreases |run|
  {
    if run == [] then cache else CacheAfter(env, Next(env, s, run[0]), NextCache(env, s.disk, cache, run[0]), run[1..])
  }

  ghost predicate AllKeep(env: Env, s: State, run: seq<Event>)
    decreases |run|
  {
    run == [] || ((Survives(run[0]) ==> Keeps(env, s, run[0])) && AllKeep(env, Next(env, s, run[0]), run[1..]))
  }

  /** Over every life whose events keep it right, the cache is exactly what decrypting every file would give. */
  lemma {:induction false} CacheAgrees(env: Env, s: State, cache: Cache, run: seq<Event>)
    requires Good(env, s) && AllAllowed(env, s, run) && Agrees(env, s, cache) && AllKeep(env, s, run)
    ensures Agrees(env, After(env, s, run), CacheAfter(env, s, cache, run))
    decreases |run|
  {
    hide Good, Next, NextCache, Allowed, Agrees, Keeps, Survives;
    if run != [] {
      StepAgrees(env, s, cache, run[0]);
      StepKeepsGood(env, s, run[0]);
      CacheAgrees(env, Next(env, s, run[0]), NextCache(env, s.disk, cache, run[0]), run[1..]);
    }
  }

  /**
   A write or delete that the process survives goes through, its log append apart, and no node is sealed at the instant a
   missing row stands for. Startups may go as they will, and crashes may come anywhere.
   */
  predicate Uninterrupted(ev: Event) {
    match ev
    case Write(node, c, alive, _) => node.capturedAt != ZERO_TIME && (alive ==> !c.blind && c.stop.done >= 3)
    case Delete(_, stop, alive, _) => alive ==> stop.done >= 3
    case _ => true
  }

  predicate NoneTimeless(h: History) { forall id :: id in h.begun ==> TimeOf(h, id) != ZERO_TIME }

  lemma UninterruptedKeeps(env: Env, s: State, ev: Event)
    requires NoneTimeless(s.history) && Uninterrupted(ev)
    ensures NoneTimeless(Next(env, s, ev).history) && (Survives(ev) ==> Keeps(env, s, ev))
  {
    hide Effect, Readable, SealedBlob, IndexRows, Find, HexEncode, SealNode;
  }

  /** So it is over every life whose surviving writes and deletes go through, whatever fails in its startups. */
  lemma {:induction false} UninterruptedLifeKeeps(env: Env, s: State, run: seq<Event>)
    requires NoneTimeless(s.history) && forall i :: 0 <= i < |run| ==> Uninterrupted(run[i])
    ensures AllKeep(env, s, run)
    decreases |run|
  {
    hide Next, Keeps, Survives, NoneTimeless, Uninterrupted;
    if run != [] {
      assert Uninterrupted(run[0]);
      UninterruptedKeeps(env, s, run[0]);
      UninterruptedLifeKeeps(env, Next(env, s, run[0]), run[1..]);
    }
  }
}
