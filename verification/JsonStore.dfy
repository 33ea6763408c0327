/** The store objects. Each method is proved to make exactly the system calls of the model, up to the call that fails. */
module JsonStores {
  import opened Wrappers
  import opened Text
  import opened Wal
  import opened Documents
  import opened Encrypt
  import opened FileSystem
  import opened StoreModel
  import opened Startup
  import opened Rows
  import opened History
  import opened Faults
  import opened Recovery
  import opened EmbeddingCache
  import opened RangeDelete
  import opened Similarity

  lemma CrashFirst(d: Disk, c: Syscall, rest: seq<Syscall>, part: Option<nat>)
    ensures CrashAt(d, [c] + rest, CrashPoint(0, part))
         == match part case Some(k) => Apply(d, Cut(c, k)) case None => d
  {
  }

  lemma CrashLater(d: Disk, c: Syscall, rest: seq<Syscall>, p: CrashPoint)
    ensures CrashAt(d, [c] + rest, p.(done := p.done + 1)) == CrashAt(Apply(d, c), rest, p)
  {
    assert ([c] + rest)[1..] == rest;
  }

  lemma AppendDone(env: Env, n: nat, d: Disk, id: NodeId, ts: int64, blind: bool, p: CrashPoint)
    requires p.done >= |AppendCalls(env, n, d, id, ts, blind)|
    ensures var calls := AppendCalls(env, n, d, id, ts, blind);
            CrashAt(d, calls, p) == CrashAt(d, calls, CrashPoint(2, None))
  {
    hide AppendCalls, CrashAt, Run;
    AppendTakesTwo(env, n, d, id, ts, blind);
    CrashAfterAll(d, AppendCalls(env, n, d, id, ts, blind), p);
    CrashAfterAll(d, AppendCalls(env, n, d, id, ts, blind), CrashPoint(2, None));
  }

  lemma SavesOfSave(env: Env, n: nat, es: seq<IndexEntry>)
    ensures Saves(SaveCalls(env, n, es)) == 1 && |SaveCalls(env, n, es)| == 2
  {
    hide SealIndex;
    var calls := SaveCalls(env, n, es);
    assert calls[1..] == [RenameTmp] && calls[1..][1..] == [];
    assert Saves([]) == 0;
    assert Saves(calls[1..]) == 0;
  }

  lemma {:induction false} WithoutConcat(a: seq<IndexEntry>, b: seq<IndexEntry>, hexId: string)
    ensures Without(a + b, hexId) == Without(a, hexId) + Without(b, hexId)
    decreases |a|
  {
    if a == [] {
      assert a + b == b;
    } else {
      assert (a + b)[1..] == a[1..] + b;
      WithoutConcat(a[1..], b, hexId);
    }
  }

  class JsonStore {
    const env: Env
    var disk: Disk
    var embCache: Cache
    /** How many nonces were drawn. */
    var drawn: nat

    /** NewJSONStore up to the struct; Start does the rest. */
    constructor (env: Env, disk: Disk, drawn: nat)
      ensures this.env == env && this.disk == disk && this.drawn == drawn && embCache == map[]
    {
      this.env := env;
      this.disk := disk;
      this.drawn := drawn;
      this.embCache := map[];
    }

    /**
     Migration, replay, cache loading. Failing calls are only logged; `t` says which they were, and `scanned` whether the log
     could be read, without which no nonce is drawn for it.
     */
    method Start() returns (ghost t: Trouble, ghost scanned: bool)
      modifies this
      ensures Fits(old(disk), t)
      ensures disk == BootStopped(env, old(drawn), old(disk), t) == Effect(env, old(disk), Boot(t, true, old(drawn)))
      ensures drawn == old(drawn) + if scanned then BootDraws(env, old(drawn), old(disk), t)
                                    else Saves(MigrateCalls(env, old(drawn), old(disk)))
      ensures NoTrouble(env, old(drawn), old(disk), t) ==> disk == Run(old(disk), BootCalls(env, old(drawn), old(disk)))
      ensures embCache == LoadRows(env.keys, disk, IndexRows(env.keys, disk), old(embCache))
    {
      hide MigrateCalls, ReplayStopped, ReplayDraws, BootCalls, Run, LoadRows, LogEntries, CrashAt, Saves;
      ghost var d0, n0 := disk, drawn;
      ghost var stop := MigrateIndexIfNeeded();
      MigrateCrash(env, n0, d0, stop);
      SameLog(d0, disk);
      t, scanned := ReplayWal(stop);
      if NoTrouble(env, n0, d0, t) {
        UntroubledStartup(env, n0, d0, t);
      }
      LoadEmbeddingCache();
    }

    // ---- System calls ----

    /** Any call may fail; a failing write may leave part of its data behind. */
    method Call(c: Syscall) returns (ok: bool, ghost part: Option<nat>)
      modifies this`disk
      ensures ok ==> disk == Apply(old(disk), c)
      ensures !ok ==> disk == match part case Some(k) => Apply(old(disk), Cut(c, k)) case None => old(disk)
      ensures part.Some? ==> c.AppendWal? || c.WriteNode? || c.WriteTmp?
    {
      ok := *;
      part := None;
      if ok {
        disk := Apply(disk, c);
      } else if c.AppendWal? || c.WriteNode? || c.WriteTmp? {
        var begun: bool := *;
        if begun {
          var k: nat := *;
          part := Some(k);
          disk := Apply(disk, Cut(c, k));
        }
      }
    }

    // ---- The index ----

    method SaveIndexEntries(es: seq<IndexEntry>) returns (ok: bool, ghost stop: CrashPoint)
      modifies this`disk, this`drawn
      ensures disk == CrashAt(old(disk), SaveCalls(env, old(drawn), es), stop)
      ensures ok <==> stop.done >= 2
      ensures ok <==> Renamed(stop, 0)
      ensures drawn == old(drawn) + 1
    {
      hide SealIndex, CrashAt;
      ghost var d0 := disk;
      var data := SealIndex(env, drawn, es);
      drawn := drawn + 1;
      ghost var part: Option<nat>;
      ok, part := Call(WriteTmp(data));
      assert SaveCalls(env, old(drawn), es) == [WriteTmp(data)] + [RenameTmp];
      if !ok {
        stop := CrashPoint(0, part);
        CrashFirst(d0, WriteTmp(data), [RenameTmp], part);
        return;
      }
      ghost var d1 := disk;
      ok, part := Call(RenameTmp);
      stop := CrashPoint(if ok then 2 else 1, None);
      OneCallCrash(d1, RenameTmp, CrashPoint(stop.done - 1, None));
      CrashLater(d0, WriteTmp(data), [RenameTmp], CrashPoint(stop.done - 1, None));
    }

    /** A failing read of the index is discarded, and the save then goes on from no rows; `blind` says that it failed. */
    method AppendIndex(id: NodeId, ts: int64) returns (ok: bool, ghost stop: CrashPoint, ghost blind: bool)
      modifies this`disk, this`drawn
      ensures var calls := AppendCalls(env, old(drawn), old(disk), id, ts, blind);
              && disk == CrashAt(old(disk), calls, stop)
              && (ok <==> stop.done >= |calls|)
              && drawn == old(drawn) + Saves(calls)
    {
      hide SaveCalls, CrashAt, LoadIndex, HexEncode;
      var readable: bool := *;
      blind := !readable;
      var entries := if readable then IndexRows(env.keys, disk) else [];
      var hexId := HexEncode(id);
      NoCalls(disk, CrashPoint(0, None));
      for i := 0 to |entries|
        invariant forall j :: 0 <= j < i ==> entries[j].id != hexId
        invariant disk == old(disk) && drawn == old(drawn)
      {
        if entries[i].id == hexId {
          FoundRow(entries, hexId);
          assert entries[i] in entries;
          return true, CrashPoint(0, None), blind;
        }
      }
      FoundRow(entries, hexId);
      assert [] + [IndexEntry(hexId, ts)] == [IndexEntry(hexId, ts)];
      SavesOfSave(env, drawn, entries + [IndexEntry(hexId, ts)]);
      ok, stop := SaveIndexEntries(entries + [IndexEntry(hexId, ts)]);
    }

    /** Here a failing read is a failure: nothing is done then. */
    method RemoveFromIndex(id: NodeId) returns (ok: bool, ghost stop: CrashPoint, ghost read: bool)
      modifies this`disk, this`drawn
      ensures !read || LoadIndex(env.keys, old(disk)).Err? ==>
                !ok && disk == old(disk) && drawn == old(drawn) && stop == CrashPoint(0, None)
      ensures LoadIndex(env.keys, old(disk)).Ok? ==>
                var calls := SaveCalls(env, old(drawn), Without(LoadIndex(env.keys, old(disk)).value, HexEncode(id)));
                && disk == CrashAt(old(disk), calls, stop)
                && (ok <==> stop.done >= 2) && (ok <==> Renamed(stop, 0))
                && drawn == old(drawn) + if read then 1 else 0
    {
      hide SaveCalls, CrashAt, LoadIndex, HexEncode;
      stop := CrashPoint(0, None);
      var readable: bool := *;
      read := readable;
      var loaded := LoadIndex(env.keys, disk);
      if !readable || loaded.Err? {
        if loaded.Ok? {
          NoStep(disk, SaveCalls(env, drawn, Without(loaded.value, HexEncode(id))));
        }
        return false, stop, read;
      }
      var entries := loaded.value;
      var hexId := HexEncode(id);
      var filtered: seq<IndexEntry> := [];
      for i := 0 to |entries|
        invariant filtered == Without(entries[..i], hexId)
        invariant disk == old(disk) && drawn == old(drawn)
      {
        var e := entries[i];
        WithoutConcat(entries[..i], [e], hexId);
        WithoutOne(e, hexId);
        assert entries[..i + 1] == entries[..i] + [e];
        if e.id != hexId {
          filtered := filtered + [e];
        }
      }
      assert entries[..|entries|] == entries;
      ok, stop := SaveIndexEntries(filtered);
    }

    lemma WithoutOne(e: IndexEntry, hexId: string)
      ensures Without([e], hexId) == if e.id == hexId then [] else [e]
    {
      assert [e][1..] == [];
      assert Without([], hexId) == [];
    }

    method TimestampFromIndex(id: NodeId) returns (ts: int64)
      ensures ts == RowTime(env.keys, disk, id)
    {
      hide LoadIndex, HexEncode;
      var entries := IndexRows(env.keys, disk);
      var hexId := HexEncode(id);
      for i := 0 to |entries|
        invariant Find(entries, hexId) == Find(entries[i..], hexId)
      {
        assert entries[i..][0] == entries[i] && entries[i..][1..] == entries[i + 1..];
        if entries[i].id == hexId {
          return entries[i].ts;
        }
      }
      assert entries[|entries|..] == [];
      return ZERO_TIME;
    }

    // ---- Records ----

    /**
     A failing log append is only logged, and so is a failing index save. The write fails exactly when the node file could
     not be written whole.
     */
    method WriteRecord(id: NodeId, ts: int64, payload: Blob) returns (ok: bool, ghost course: Course)
      modifies this`disk, this`drawn
      ensures var indexing := AppendCalls(env, old(drawn), old(disk), id, ts, course.blind);
              && disk == CrashAt(TornAppend(old(disk), id, ts, course.cut), [WriteNode(id, payload)] + indexing, course.stop)
              && (ok <==> course.stop.done >= 1)
              && drawn == old(drawn) + (if ok then Saves(indexing) else 0)
    {
      hide CrashAt, AppendCalls, LogLine;
      var line := LogLine(id, ts);
      var okLog: bool;
      ghost var part: Option<nat>;
      okLog, part := Call(AppendWal(line));
      ghost var cut := if okLog then Some(|line|) else part;
      assert Cut(AppendWal(line), |line|) == AppendWal(line);
      ghost var base := disk;
      ok, part := Call(WriteNode(id, payload));
      if !ok {
        course := Course(cut, false, CrashPoint(0, part));
        CrashFirst(base, WriteNode(id, payload), AppendCalls(env, drawn, old(disk), id, ts, false), part);
        return;
      }
      ghost var d1 := disk;
      var okIndex: bool;
      ghost var stop: CrashPoint, blind: bool;
      okIndex, stop, blind := AppendIndex(id, ts);
      SameAppendCalls(env, old(drawn), old(disk), d1, id, ts, blind);
      CrashLater(base, WriteNode(id, payload), AppendCalls(env, old(drawn), old(disk), id, ts, blind), stop);
      course := Course(cut, blind, stop.(done := stop.done + 1));
    }

    method ReadRecord(id: NodeId) returns (r: Option<(Blob, int64)>)
      ensures r == if id in disk.nodes then Some((disk.nodes[id], RowTime(env.keys, disk, id))) else None
    {
      if id !in disk.nodes {
        return None;
      }
      var ts := TimestampFromIndex(id);
      return Some((disk.nodes[id], ts));
    }

    method DeleteRecord(id: NodeId) returns (ok: bool, ghost stop: CrashPoint, ghost read: bool)
      modifies this`disk, this`drawn
      ensures var calls := DeleteCalls(env, old(drawn), old(disk), id);
              && disk == CrashAt(old(disk), calls, stop)
              && (ok <==> stop.done >= |calls| && LoadIndex(env.keys, old(disk)).Ok?)
              && (ok <==> stop.done >= 3) && (ok <==> Renamed(stop, 1))
              && drawn == old(drawn) + (if stop.done >= 1 && read then Saves(calls) else 0)
    {
      hide CrashAt, SaveCalls, LoadIndex, HexEncode, Without;
      ghost var d0, loaded := disk, LoadIndex(env.keys, disk);
      ghost var save := match loaded
                        case Ok(es) => SaveCalls(env, drawn, Without(es, HexEncode(id)))
                        case Err(_) => [];
      ghost var part: Option<nat>;
      ok, part := Call(RemoveNode(id));
      if !ok {
        stop, read := CrashPoint(0, None), false;
        CrashFirst(d0, RemoveNode(id), save, None);
        return;
      }
      ghost var d1 := disk;
      SameIndexLoads(env.keys, d0, d1);
      if loaded.Ok? {
        SavesOfSave(env, drawn, Without(loaded.value, HexEncode(id)));
      }
      SavesConcat([RemoveNode(id)], save);
      SavesOfRemove(id);
      ok, stop, read := RemoveFromIndex(id);
      if loaded.Ok? {
        CrashLater(d0, RemoveNode(id), save, stop);
        stop := stop.(done := stop.done + 1);
      } else {
        stop := CrashPoint(1, None);
        OneCallCrash(d0, RemoveNode(id), stop);
        assert [RemoveNode(id)] + [] == [RemoveNode(id)];
      }
    }

    lemma SavesOfRemove(id: NodeId)
      ensures Saves([RemoveNode(id)]) == 0 && Saves([]) == 0
    {
      assert [RemoveNode(id)][1..] == [];
    }

    // ---- Startup ----

    /** Makes the calls of the migration up to the one that fails, if one does. */
    method MigrateIndexIfNeeded() returns (ghost stop: CrashPoint)
      modifies this`disk, this`drawn
      ensures disk == CrashAt(old(disk), MigrateCalls(env, old(drawn), old(disk)), stop)
      ensures drawn == old(drawn) + Saves(MigrateCalls(env, old(drawn), old(disk)))
    {
      hide SaveCalls, CrashAt, Saves;
      ghost var d0 := disk;
      stop := CrashPoint(0, None);
      NoCalls(d0, stop);
      NoSaves();
      if disk.legacy.None? {
        return;
      }
      var ok: bool;
      ghost var part: Option<nat>;
      if disk.index.Some? {
        ok, part := Call(RemoveLegacy);
        stop := CrashPoint(if ok then 1 else 0, None);
        OneCallCrash(d0, RemoveLegacy, stop);
        return;
      }
      var legacy := disk.legacy.value;
      if legacy.Garbage? {
        return;
      }
      ok, stop := SaveIndexEntries(legacy.entries);
      ghost var calls := SaveCalls(env, old(drawn), legacy.entries);
      SavesOfSave(env, old(drawn), legacy.entries);
      SavesConcat(calls, [RemoveLegacy]);
      CrashConcat(d0, calls, [RemoveLegacy], stop);
      if !ok {
        return;
      }
      CrashAfterAll(d0, calls, stop);
      ghost var d1 := disk;
      ok, part := Call(RemoveLegacy);
      stop := CrashPoint(if ok then 3 else 2, None);
      CrashConcat(d0, calls, [RemoveLegacy], stop);
      OneCallCrash(d1, RemoveLegacy, stop.(done := stop.done - 2));
    }

    /** The scanning loop of replay. */
    method ScanWal(text: string) returns (entries: seq<WalEntry>)
      ensures entries == Parse(text)
    {
      hide ParseLine, SplitLines;
      var lines := SplitLines(text);
      entries := [];
      for i := 0 to |lines|
        invariant entries + ParseLines(lines[i..]) == ParseLines(lines)
      {
        assert lines[i..][0] == lines[i] && lines[i..][1..] == lines[i + 1..];
        var e := ParseLine(lines[i]);
        if e.Some? {
          entries := entries + [e.value];
        }
      }
      assert lines[|lines|..] == [];
    }

    /**
     A failing read of the rows is discarded and a save that fails is passed over; the log goes all the same, unless it
     cannot be removed. A log that cannot be read stays as it is.
     */
    method ReplayWal(ghost migrate: CrashPoint) returns (ghost t: Trouble, ghost scanned: bool)
      modifies this`disk, this`drawn
      ensures t.migrate == migrate && Fits(old(disk), t)
      ensures disk == ReplayStopped(env, old(drawn), old(disk), t)
      ensures drawn == old(drawn) + if scanned then ReplayDraws(env, old(drawn), old(disk), t) else 0
    {
      hide LoadIndex, IndexRows, ReindexStopped, ReindexDraws, Parse, AppendCalls, HexEncode, CrashAt, Saves, Run;
      ghost var d0, n0 := disk, drawn;
      if disk.wal.None? {
        ParseNothing();
        return Trouble(migrate, false, [], true), true;
      }
      var readable: bool := *;
      scanned := readable;
      if !readable {
        t := Trouble(migrate, false, NoneSaved(|LogEntries(d0)|), false);
        NothingReplayed(env, n0, d0, t);
        return;
      }
      var entries := ScanWal(disk.wal.value);
      readable := *;
      var inIndex := if readable then IdSet(IndexRows(env.keys, disk)) else {};
      ghost var saves: seq<SaveEnd> := [];
      ReindexNone(env, n0, d0, inIndex);
      for i := 0 to |entries|
        invariant |saves| == i
        invariant disk == ReindexStopped(env, n0, d0, entries[..i], inIndex, saves)
        invariant drawn == n0 + ReindexDraws(env, n0, d0, entries[..i], inIndex, saves)
      {
        var e := entries[i];
        ghost var di, ni := disk, drawn;
        ghost var end := SaveEnd(CrashPoint(2, None), false);
        if HexEncode(e.id) !in inIndex && e.id in disk.nodes {
          var ok: bool;
          ghost var stop: CrashPoint, blind: bool;
          ok, stop, blind := AppendIndex(e.id, e.ts);
          end := SaveEnd(stop, blind);
          if ok {
            AppendDone(env, ni, di, e.id, e.ts, blind, stop);
            end := SaveEnd(CrashPoint(2, None), blind);
          }
        }
        ReindexMore(env, n0, d0, entries[..i], e, inIndex, saves, end);
        assert entries[..i + 1] == entries[..i] + [e];
        saves := saves + [end];
      }
      assert entries[..|entries|] == entries;
      var removed: bool;
      ghost var part: Option<nat>;
      removed, part := Call(RemoveWal);
      t := Trouble(migrate, !readable, saves, removed);
    }

    method LoadEmbeddingCache()
      modifies this`embCache
      ensures embCache == LoadRows(env.keys, disk, IndexRows(env.keys, disk), old(embCache))
    {
      hide EmbeddingAt, DecodeId, LoadIndex;
      var entries := IndexRows(env.keys, disk);
      for i := 0 to |entries|
        invariant LoadRows(env.keys, disk, entries[i..], embCache) == LoadRows(env.keys, disk, entries, old(embCache))
      {
        assert entries[i..][0] == entries[i] && entries[i..][1..] == entries[i + 1..];
        var id := DecodeId(entries[i].id);
        if id.Some? {
          var embedding := EmbeddingAt(env.keys, disk, id.value, entries[i].ts);
          if embedding.Some? {
            embCache := embCache[id.value := embedding.value];
          }
        }
      }
      assert entries[|entries|..] == [];
    }

    // ---- The cache and the search ----

    method UpdateEmbeddingCache(id: NodeId, embedding: Embedding)
      modifies this`embCache
      ensures embCache == if embedding == [] then old(embCache) else old(embCache)[id := embedding]
    {
      if |embedding| == 0 {
        return;
      }
      embCache := embCache[id := embedding];
    }

    method EvictEmbeddingCache(id: NodeId)
      modifies this`embCache
      ensures embCache == old(embCache) - {id}
    {
      embCache := embCache - {id};
    }

    method Nearest(query: Embedding, k: nat, sqrt: real -> real) returns (r: seq<Scored>)
      requires IsSqrt(sqrt)
      ensures query == [] ==> r == []
      ensures query != [] ==> TopK(r, sqrt, query, embCache, k)
    {
      r := NearestNeighbors(embCache, query, k, sqrt);
    }

    // ---- Listing ----

    method IdsInRange(after: Option<int64>, before: int64) returns (r: Option<seq<NodeId>>, ghost read: bool)
      ensures var loaded := LoadIndex(env.keys, disk);
              r == if read && loaded.Ok? then Some(ListInRange(loaded.value, after, before)) else None
      ensures r.Some? ==> var es := IndexRows(env.keys, disk);
                forall id: NodeId :: id in r.value
                  <==> exists i :: 0 <= i < |es| && DecodeId(es[i].id) == Some(id)
                                   && (after.Some? ==> after.value <= es[i].ts) && es[i].ts < before
    {
      hide DecodeId, LoadIndex, InRange;
      var readable: bool := *;
      read := readable;
      var loaded := LoadIndex(env.keys, disk);
      if !readable || loaded.Err? {
        return None, read;
      }
      var entries := loaded.value;
      var ids: seq<NodeId> := [];
      for i := 0 to |entries|
        invariant ids + ListInRange(entries[i..], after, before) == ListInRange(entries, after, before)
      {
        assert entries[i..][0] == entries[i] && entries[i..][1..] == entries[i + 1..];
        if InRange(entries[i].ts, after, before) {
          var id := DecodeId(entries[i].id);
          if id.Some? {
            ids := ids + [id.value];
          }
        }
      }
      assert entries[|entries|..] == [] && ids + [] == ids;
      assert IndexRows(env.keys, disk) == entries;
      AllListed(entries, after, before);
      return Some(ids), read;
    }

    method IdsOlderThan(before: int64) returns (r: Option<seq<NodeId>>, ghost read: bool)
      ensures var loaded := LoadIndex(env.keys, disk);
              r == if read && loaded.Ok? then Some(ListOlderThan(loaded.value, before)) else None
      ensures r.Some? ==> var es := IndexRows(env.keys, disk);
                forall id: NodeId :: id in r.value
                  <==> exists i :: 0 <= i < |es| && DecodeId(es[i].id) == Some(id) && es[i].ts < before
    {
      hide DecodeId, LoadIndex;
      var readable: bool := *;
      read := readable;
      var loaded := LoadIndex(env.keys, disk);
      if !readable || loaded.Err? {
        return None, read;
      }
      var entries := loaded.value;
      var ids: seq<NodeId> := [];
      for i := 0 to |entries|
        invariant ids + ListOlderThan(entries[i..], before) == ListOlderThan(entries, before)
      {
        assert entries[i..][0] == entries[i] && entries[i..][1..] == entries[i + 1..];
        if entries[i].ts < before {
          var id := DecodeId(entries[i].id);
          if id.Some? {
            ids := ids + [id.value];
          }
        }
      }
      assert entries[|entries|..] == [] && ids + [] == ids;
      assert IndexRows(env.keys, disk) == entries;
      OlderListed(entries, before);
      return Some(ids), read;
    }
  }

  // ---- The store in front of it ----

  class Store {
    const db: JsonStore

    constructor (db: JsonStore)
      ensures this.db == db
    {
      this.db := db;
    }

    /** Seals, writes, and caches the embedding if the record was written. It is the write event that went this course. */
    method Write(node: MemoryNode) returns (ok: bool, ghost ev: Event)
      modifies db`disk, db`drawn, db`embCache
      ensures ev.Write? && ev.node == node && ev.alive && ev.draw == old(db.drawn)
      ensures ok <==> Files(ev)
      ensures ok ==> db.disk.nodes.Keys == old(db.disk).nodes.Keys + {node.id}
      ensures ok ==> Open(db.env.keys, node.id, node.capturedAt, db.disk.nodes[node.id]) == Ok(NodeDoc(node.(schemaVersion := 1)))
      ensures ok && RowTime(db.env.keys, db.disk, node.id) == node.capturedAt ==>
                StoreModel.Read(db.env.keys, db.disk, node.id) == Ok(node.(schemaVersion := 1))
      ensures db.embCache == if ok && node.embedding != [] then old(db.embCache)[node.id := node.embedding]
                             else old(db.embCache)
      ensures db.disk == Effect(db.env, old(db.disk), ev)
      ensures db.embCache == NextCache(db.env, old(db.disk), old(db.embCache), ev)
      ensures db.drawn == old(db.drawn) + 1
                + if !ok then 0
                  else Saves(AppendCalls(db.env, old(db.drawn) + 1, old(db.disk), node.id, node.capturedAt,
                                         ev.course.blind))
    {
      hide CrashAt, SealNode, AppendCalls, LogLine, Run, StartupCache, Saves, TornAppend;
      ghost var d0, n0 := db.disk, db.drawn;
      var payload := SealNode(db.env, db.drawn, node);
      db.drawn := db.drawn + 1;
      ghost var course: Course;
      ok, course := db.WriteRecord(node.id, node.capturedAt, payload);
      ev := Event.Write(node, course, true, n0);
      if ok {
        WrittenFileOpens(d0, node, course, n0);
        db.UpdateEmbeddingCache(node.id, node.embedding);
      }
    }

    /** A file written whole opens to every field of the node, with the schema version stamped on it. */
    lemma WrittenFileOpens(d: Disk, node: MemoryNode, c: Course, n: nat)
      requires c.stop.done >= 1
      ensures var d', k, stamped := Written(db.env, n, d, node, c), db.env.keys, node.(schemaVersion := 1);
              && d'.nodes.Keys == d.nodes.Keys + {node.id}
              && Open(k, node.id, node.capturedAt, d'.nodes[node.id]) == Ok(NodeDoc(stamped))
              && (RowTime(k, d', node.id) == node.capturedAt ==> StoreModel.Read(k, d', node.id) == Ok(stamped))
    {
      hide Written, TornAppend, IndexRows, RowAdded, LoadIndex, Seal, Open, RowTime;
      WrittenIs(db.env, n, d, node, c);
      OpenSeal(db.env.keys, node.id, node.capturedAt, db.env.rand(n), NodeDoc(node.(schemaVersion := 1)));
    }

    method Read(id: NodeId) returns (r: Result<MemoryNode, ReadError>)
      ensures r == StoreModel.Read(db.env.keys, db.disk, id)
      ensures r == Err(NotFound) <==> id !in db.disk.nodes
      ensures forall node: MemoryNode :: r == Ok(node)
                <==> && id in db.disk.nodes
                     && Open(db.env.keys, id, RowTime(db.env.keys, db.disk, id), db.disk.nodes[id]) == Ok(NodeDoc(node))
    {
      hide LoadIndex, HexEncode, Find, Open;
      var record := db.ReadRecord(id);
      if record.None? {
        return Err(NotFound);
      }
      var (data, ts) := record.value;
      match Open(db.env.keys, id, ts, data)
      case Ok(NodeDoc(node)) => return Ok(node);
      case Ok(_) => return Err(NotANode);
      case Err(e) => return Err(Unreadable(e));
    }

    method Delete(id: NodeId) returns (ok: bool, ghost ev: Event, ghost read: bool)
      modifies db`disk, db`drawn, db`embCache
      ensures ev.Delete? && ev.id == id && ev.alive && ev.draw == old(db.drawn)
      ensures db.disk == Effect(db.env, old(db.disk), ev)
      ensures (ok <==> ev.stop.done >= 3) && (ok <==> SavesIndex(ev))
      ensures LoadIndex(db.env.keys, old(db.disk)).Ok? ==>
                db.embCache == NextCache(db.env, old(db.disk), old(db.embCache), ev)
      ensures db.embCache == if ok then old(db.embCache) - {id} else old(db.embCache)
      ensures db.drawn == old(db.drawn)
                + if ev.stop.done >= 1 && read then Saves(DeleteCalls(db.env, old(db.drawn), old(db.disk), id)) else 0
    {
      hide CrashAt, LoadIndex, Run, HexEncode, Without, SealIndex, Saves, DeleteCalls;
      ghost var d0, n0 := db.disk, db.drawn;
      ghost var stop: CrashPoint;
      ok, stop, read := db.DeleteRecord(id);
      ev := Event.Delete(id, stop, true, n0);
      if LoadIndex(db.env.keys, d0).Ok? {
        DeleteTakesThree(d0, n0, id);
      }
      if ok {
        db.EvictEmbeddingCache(id);
      }
    }

    lemma DeleteTakesThree(d: Disk, n: nat, id: NodeId)
      requires LoadIndex(db.env.keys, d).Ok?
      ensures |DeleteCalls(db.env, n, d, id)| == 3
    {
      hide LoadIndex, HexEncode, Without, SealIndex;
    }

    /** Deletes the listed nodes one by one, counting failures. `events` are the deletes, each stopped where it was. */
    method DeleteEach(ids: seq<NodeId>) returns (failed: nat, ghost events: seq<Event>)
      modifies db`disk, db`drawn, db`embCache
      ensures DeletesOf(events, ids)
      ensures db.disk == Effects(db.env, old(db.disk), events)
      ensures failed + |Dropped(events)| == |ids|
      ensures db.embCache == old(db.embCache) - (set id | id in Dropped(events))
    {
      hide Effect, SavesIndex, LoadIndex, DeleteCalls, NextCache, Dropped;
      failed, events := 0, [];
      NothingDropped([]);
      for i := 0 to |ids|
        invariant DeletesOf(events, ids[..i])
        invariant db.disk == Effects(db.env, old(db.disk), events)
        invariant failed + |Dropped(events)| == i
        invariant db.embCache == old(db.embCache) - (set id | id in Dropped(events))
      {
        assert ids[..i + 1] == ids[..i] + [ids[i]];
        var ok: bool;
        ghost var ev: Event, read: bool;
        ok, ev, read := Delete(ids[i]);
        DroppedMore(events, ev);
        assert (events + [ev])[..|events|] == events;
        events := events + [ev];
        if !ok {
          failed := failed + 1;
        }
      }
      assert ids[..|ids|] == ids;
    }

    /** DeleteRange: None when the listing failed, else how many were deleted and how many failed. */
    method DeleteRange(after: Option<int64>, before: int64)
      returns (r: Option<(nat, nat)>, ghost events: seq<Event>, ghost read: bool)
      modifies db`disk, db`drawn, db`embCache
      ensures !read || LoadIndex(db.env.keys, old(db.disk)).Err? ==> r == None && db.disk == old(db.disk)
      ensures read && LoadIndex(db.env.keys, old(db.disk)).Ok? ==>
                var ids := ListInRange(IndexRows(db.env.keys, old(db.disk)), after, before);
                && DeletesOf(events, ids)
                && db.disk == Effects(db.env, old(db.disk), events)
                && r == Some((|Dropped(events)|, |ids| - |Dropped(events)|))
      ensures forall h: History :: Inv(db.env.keys, old(db.disk), h) && r.Some? && r.value.1 == 0 ==>
                var k, es := db.env.keys, IndexRows(db.env.keys, old(db.disk));
                && (forall e :: e in IndexRows(k, db.disk)
                      <==> e in es && ((after.Some? && e.ts < after.value) || e.ts >= before))
                && (forall x: NodeId ::
                      var row := Find(es, HexEncode(x));
                      if row.Some? && (after.Some? ==> after.value <= row.value) && row.value < before
                      then StoreModel.Read(k, db.disk, x) == Err(NotFound)
                      else StoreModel.Read(k, db.disk, x) == StoreModel.Read(k, old(db.disk), x))
    {
      hide LoadIndex, Effects, DeletesOf, Dropped, ListInRange, Inv, Find, HexEncode, StoreModel.Read;
      ghost var d0 := db.disk;
      events := [];
      var ids: Option<seq<NodeId>>;
      ids, read := db.IdsInRange(after, before);
      if ids.None? {
        return None, [], read;
      }
      var failed: nat;
      failed, events := DeleteEach(ids.value);
      r := Some((|ids.value| - failed, failed));
      if failed == 0 {
        RangeKept(d0, after, before, events);
      }
    }

    lemma RangeKept(d: Disk, after: Option<int64>, before: int64, events: seq<Event>)
      requires var ids := ListInRange(IndexRows(db.env.keys, d), after, before);
               DeletesOf(events, ids) && |Dropped(events)| == |ids|
      ensures var k, es, d' := db.env.keys, IndexRows(db.env.keys, d), Effects(db.env, d, events);
              (exists h: History :: Inv(k, d, h)) ==>
                && (forall e :: e in IndexRows(k, d')
                      <==> e in es && ((after.Some? && e.ts < after.value) || e.ts >= before))
                && (forall x: NodeId ::
                      var row := Find(es, HexEncode(x));
                      if row.Some? && (after.Some? ==> after.value <= row.value) && row.value < before
                      then StoreModel.Read(k, d', x) == Err(NotFound)
                      else StoreModel.Read(k, d', x) == StoreModel.Read(k, d, x))
    {
      hide IndexRows, Effects, DeletesOf, Dropped, ListInRange, Inv, Find, HexEncode, StoreModel.Read;
      if h: History :| Inv(db.env.keys, d, h) {
        RangeDeleteKeeps(db.env, State(d, h, true), after, before, events);
      }
    }

    /** The retention sweep: true on success. What it deletes is the range from the beginning of time to the cutoff. */
    method Sweep(cutoff: int64) returns (ok: bool, ghost events: seq<Event>, ghost read: bool)
      modifies db`disk, db`drawn, db`embCache
      ensures !read || LoadIndex(db.env.keys, old(db.disk)).Err? ==> !ok && db.disk == old(db.disk)
      ensures read && LoadIndex(db.env.keys, old(db.disk)).Ok? ==>
                var ids := ListInRange(IndexRows(db.env.keys, old(db.disk)), None, cutoff);
                && DeletesOf(events, ids)
                && db.disk == Effects(db.env, old(db.disk), events)
                && (ok <==> |Dropped(events)| == |ids|)
      ensures forall h: History :: Inv(db.env.keys, old(db.disk), h) && ok ==>
                forall e :: e in IndexRows(db.env.keys, db.disk)
                  <==> e in IndexRows(db.env.keys, old(db.disk)) && e.ts >= cutoff
    {
      hide LoadIndex, DeletesOf, Dropped, ListInRange, ListOlderThan, Effects, Inv, Find, HexEncode, StoreModel.Read;
      ghost var d0 := db.disk;
      events := [];
      var ids: Option<seq<NodeId>>;
      ids, read := db.IdsOlderThan(cutoff);
      if ids.None? {
        return false, [], read;
      }
      SweepIsRangeFromZero(IndexRows(db.env.keys, db.disk), cutoff);
      if |ids.value| == 0 {
        NoDeletes();
        NoEffects(d0);
        RangeKept(d0, None, cutoff, []);
        return true, [], read;
      }
      var failed: nat;
      failed, events := DeleteEach(ids.value);
      ok := failed == 0;
      if ok {
        RangeKept(d0, None, cutoff, events);
      }
    }

    lemma NoEffects(d: Disk)
      ensures Effects(db.env, d, []) == d
    {
    }

    lemma NoDeletes()
      ensures DeletesOf([], []) && Dropped([]) == []
    {
    }
  }
}
