/**
 Startups and writes as they go when any of their calls may fail: the disk they leave, and the row each node will have.

 A read of index.enc may fail too. Where a save depends on it the read is called blind.
 */
module Faults {
  import opened Wrappers
  import opened Text
  import opened Wal
  import opened Documents
  import opened Encrypt
  import opened FileSystem
  import opened StoreModel
  import opened Startup
  import opened Rows

  // ---- Saving a row ----

  lemma NoIndexNoRows(k: Keys, d: Disk)
    requires d.index.None?
    ensures IndexRows(k, d) == [] && LoadIndex(k, d).Ok?
  {
  }

  /** The rows once the save of this row went through. */
  function RowAdded(es: seq<IndexEntry>, id: NodeId, ts: int64, blind: bool): seq<IndexEntry> {
    if blind then [IndexEntry(HexEncode(id), ts)] else AddRow(es, id, ts)
  }

  lemma AppendStopped(env: Env, n: nat, d: Disk, id: NodeId, ts: int64, blind: bool, p: CrashPoint)
    ensures var es := IndexRows(env.keys, d);
            var d' := CrashAt(d, AppendCalls(env, n, d, id, ts, blind), p);
            && SameButIndex(d, d')
            && IndexRows(env.keys, d') == (if Renamed(p, 0) then RowAdded(es, id, ts, blind) else es)
            && (d'.index.Some? <==> d.index.Some? || Renamed(p, 0))
            && (LoadIndex(env.keys, d).Ok? ==> LoadIndex(env.keys, d').Ok?)
  {
    hide LoadIndex, SealIndex, HexEncode, SaveCalls, CrashAt, AppendIndexCalls, IndexRows, Find;
    var es := IndexRows(env.keys, d);
    var d' := CrashAt(d, AppendCalls(env, n, d, id, ts, blind), p);
    if blind {
      var row := [IndexEntry(HexEncode(id), ts)];
      SaveCrash(env, n, d, row, p);
      if Renamed(p, 0) {
        LoadedRows(env.keys, d', row);
      } else {
        SameIndexRows(env.keys, d, d');
      }
    } else {
      AppendIndexCrash(env, n, d, id, ts, p);
      if d.index.None? {
        NoIndexNoRows(env.keys, d);
        FindNothing(HexEncode(id));
      }
    }
  }

  lemma RowAddedFinds(es: seq<IndexEntry>, id: NodeId, ts: int64, blind: bool, x: NodeId)
    ensures Find(RowAdded(es, id, ts, blind), HexEncode(x))
         == if x == id && (blind || Find(es, HexEncode(x)).None?) then Some(ts)
            else if blind then None
            else Find(es, HexEncode(x))
  {
    hide Find, HexEncode, AddRow;
    AddRowFindsTime(es, id, ts, x);
    FindSingle(id, ts, x);
  }

  // ---- A replay whose calls may fail ----

  /** How the saving of one row ends. */
  datatype SaveEnd = SaveEnd(stop: CrashPoint, blind: bool)

  predicate Skipped(d: Disk, e: WalEntry, inIndex: set<string>) { HexEncode(e.id) in inIndex || e.id !in d.nodes }

  /** Replay with one end for each log entry: a save that fails is passed over, and the loop goes on. */
  function ReindexStopped(env: Env, n: nat, d: Disk, log: seq<WalEntry>, inIndex: set<string>,
                          ends: seq<SaveEnd>): Disk
    requires |ends| == |log|
    decreases |log|
  {
    if log == [] then d
    else if Skipped(d, log[0], inIndex) then ReindexStopped(env, n, d, log[1..], inIndex, ends[1..])
    else
      var calls := AppendCalls(env, n, d, log[0].id, log[0].ts, ends[0].blind);
      ReindexStopped(env, n + Saves(calls), CrashAt(d, calls, ends[0].stop), log[1..], inIndex, ends[1..])
  }

  /** Where migration stops, whether the replay could read the index, how each save ends, and whether the log went. */
  datatype Trouble = Trouble(migrate: CrashPoint, blind: bool, saves: seq<SaveEnd>, removed: bool)

  predicate Fits(d: Disk, t: Trouble) { |t.saves| == |LogEntries(d)| }

  function KnownIds(es: seq<IndexEntry>, blind: bool): set<string> { if blind then {} else IdSet(es) }

  /** The log goes when the loop is through, whether or not its saves went through; unless it cannot be removed. */
  function ReplayStopped(env: Env, n: nat, d: Disk, t: Trouble): Disk
    requires Fits(d, t)
  {
    if d.wal.None? then d
    else
      var d' := ReindexStopped(env, n, d, LogEntries(d), KnownIds(IndexRows(env.keys, d), t.blind), t.saves);
      if t.removed then Apply(d', RemoveWal) else d'
  }

  function RowsThrough(es: seq<IndexEntry>, log: seq<WalEntry>, d: Disk, inIndex: set<string>,
                       ends: seq<SaveEnd>): seq<IndexEntry>
    requires |ends| == |log|
    decreases |log|
  {
    if log == [] then es
    else
      var e, end := log[0], ends[0];
      var next := if Skipped(d, e, inIndex) || !Renamed(end.stop, 0) then es else RowAdded(es, e.id, e.ts, end.blind);
      RowsThrough(next, log[1..], d, inIndex, ends[1..])
  }

  /** The same as one node sees it: its row comes with its own entry, and goes when another is saved blind. */
  function RowThrough(row: Option<int64>, log: seq<WalEntry>, d: Disk, inIndex: set<string>, ends: seq<SaveEnd>,
                      id: NodeId): Option<int64>
    requires |ends| == |log|
    decreases |log|
  {
    if log == [] then row
    else
      var e, end := log[0], ends[0];
      var next := if Skipped(d, e, inIndex) || !Renamed(end.stop, 0) then row
                  else if e.id == id && (end.blind || row.None?) then Some(e.ts)
                  else if end.blind then None
                  else row;
      RowThrough(next, log[1..], d, inIndex, ends[1..], id)
  }

  lemma {:induction false} RowsThroughFinds(es: seq<IndexEntry>, log: seq<WalEntry>, d: Disk, inIndex: set<string>,
                                            ends: seq<SaveEnd>, id: NodeId)
    requires |ends| == |log|
    ensures Find(RowsThrough(es, log, d, inIndex, ends), HexEncode(id))
         == RowThrough(Find(es, HexEncode(id)), log, d, inIndex, ends, id)
    decreases |log|
  {
    hide Find, HexEncode, RowAdded, Renamed, Skipped;
    if log != [] {
      var e, end := log[0], ends[0];
      RowAddedFinds(es, e.id, e.ts, end.blind, id);
      var next := if Skipped(d, e, inIndex) || !Renamed(end.stop, 0) then es else RowAdded(es, e.id, e.ts, end.blind);
      RowsThroughFinds(next, log[1..], d, inIndex, ends[1..], id);
    }
  }

  /** Some save of the replay is attempted and goes through. */
  predicate AnySaved(log: seq<WalEntry>, d: Disk, inIndex: set<string>, ends: seq<SaveEnd>)
    requires |ends| == |log|
    decreases |log|
  {
    log != [] && ((!Skipped(d, log[0], inIndex) && Renamed(ends[0].stop, 0)) || AnySaved(log[1..], d, inIndex, ends[1..]))
  }

  lemma SkippedAlike(d: Disk, d1: Disk, e: WalEntry, inIndex: set<string>)
    requires d.nodes == d1.nodes
    ensures Skipped(d, e, inIndex) == Skipped(d1, e, inIndex)
  {
  }

  lemma {:induction false} ReindexStoppedIs(env: Env, n: nat, d: Disk, d0: Disk, log: seq<WalEntry>,
                                            inIndex: set<string>, ends: seq<SaveEnd>)
    requires |ends| == |log| && d.nodes == d0.nodes
    ensures var d' := ReindexStopped(env, n, d, log, inIndex, ends);
            && SameButIndex(d, d')
            && IndexRows(env.keys, d') == RowsThrough(IndexRows(env.keys, d), log, d0, inIndex, ends)
            && (d'.index.Some? <==> d.index.Some? || AnySaved(log, d0, inIndex, ends))
            && (LoadIndex(env.keys, d).Ok? ==> LoadIndex(env.keys, d').Ok?)
    decreases |log|
  {
    hide IndexRows, LoadIndex, AppendCalls, RowAdded, CrashAt, Renamed, Skipped;
    if log != [] {
      var e, end := log[0], ends[0];
      SkippedAlike(d, d0, e, inIndex);
      if Skipped(d, e, inIndex) {
        ReindexStoppedIs(env, n, d, d0, log[1..], inIndex, ends[1..]);
      } else {
        var calls := AppendCalls(env, n, d, e.id, e.ts, end.blind);
        AppendStopped(env, n, d, e.id, e.ts, end.blind, end.stop);
        ReindexStoppedIs(env, n + Saves(calls), CrashAt(d, calls, end.stop), d0, log[1..], inIndex, ends[1..]);
      }
    }
  }

  // ---- A startup whose calls may fail ----

  /** A failing migration does not keep the replay from running. */
  function BootStopped(env: Env, n: nat, d: Disk, t: Trouble): Disk
    requires Fits(d, t)
  {
    var migrate := MigrateCalls(env, n, d);
    var d1 := CrashAt(d, migrate, t.migrate);
    MigrateCrash(env, n, d, t.migrate);
    SameLog(d, d1);
    ReplayStopped(env, n + Saves(migrate), d1, t)
  }

  /** There is nothing to migrate, or the migrated index was renamed into place. */
  predicate MigratedBy(d: Disk, t: Trouble) { Migrated(d) || Renamed(t.migrate, 0) }

  lemma MigrateStopped(env: Env, n: nat, d: Disk, p: CrashPoint)
    ensures var d1 := CrashAt(d, MigrateCalls(env, n, d), p);
            && d1.nodes == d.nodes && d1.wal == d.wal
            && IndexRows(env.keys, d1) == (if Migrated(d) || Renamed(p, 0) then EffectiveRows(env.keys, d) else [])
            && (d1.index.Some? <==> d.index.Some? || (!Migrated(d) && Renamed(p, 0)))
            && (!Migrated(d) && !Renamed(p, 0) ==> d1.legacy == d.legacy)
            && (Migrated(d) ==> Migrated(d1))
            && (LoadIndex(env.keys, d).Ok? ==> LoadIndex(env.keys, d1).Ok?)
  {
    hide LoadIndex, SealIndex, SaveCalls, IndexRows;
    var d1 := CrashAt(d, MigrateCalls(env, n, d), p);
    NoCalls(d, p);
    OneCallCrash(d, RemoveLegacy, p);
    if Migrated(d) {
      SameIndexLoads(env.keys, d, d1);
      SameIndexRows(env.keys, d, d1);
    } else {
      MigrateSaveStopped(env, n, d, d.legacy.value.entries, p);
    }
  }

  lemma MigrateSaveStopped(env: Env, n: nat, d: Disk, es: seq<IndexEntry>, p: CrashPoint)
    requires d.index.None?
    ensures var d1 := CrashAt(d, SaveCalls(env, n, es) + [RemoveLegacy], p);
            && d1.nodes == d.nodes && d1.wal == d.wal
            && LoadIndex(env.keys, d1).Ok?
            && IndexRows(env.keys, d1) == (if Renamed(p, 0) then es else [])
            && (d1.index.Some? <==> Renamed(p, 0))
            && (!Renamed(p, 0) ==> d1.legacy == d.legacy)
  {
    var calls := SaveCalls(env, n, es);
    CrashConcat(d, calls, [RemoveLegacy], p);
    SaveCrash(env, n, d, es, p);
    SaveRun(env, n, d, es);
    var d1 := CrashAt(d, calls + [RemoveLegacy], p);
    hide LoadIndex, SealIndex, IndexRows, CrashAt, Run;
    if p.done >= 2 {
      var d2 := Run(d, calls);
      OneCallCrash(d2, RemoveLegacy, p.(done := p.done - 2));
      SameIndexLoads(env.keys, d2, d1);
    }
    if Renamed(p, 0) {
      LoadedRows(env.keys, d1, es);
    } else {
      NoIndexNoRows(env.keys, d1);
    }
  }

  lemma ReplayStoppedIs(env: Env, n: nat, d: Disk, t: Trouble)
    requires Fits(d, t)
    ensures var es, log := IndexRows(env.keys, d), LogEntries(d);
            var inIndex := KnownIds(es, t.blind);
            var d' := ReplayStopped(env, n, d, t);
            && d'.nodes == d.nodes && d'.legacy == d.legacy
            && d'.wal == (if t.removed then None else d.wal)
            && IndexRows(env.keys, d') == RowsThrough(es, log, d, inIndex, t.saves)
            && (d'.index.Some? <==> d.index.Some? || AnySaved(log, d, inIndex, t.saves))
            && (LoadIndex(env.keys, d).Ok? ==> LoadIndex(env.keys, d').Ok?)
  {
    hide LoadIndex, LogEntries, IndexRows, RowsThrough, AnySaved, ReindexStopped;
    var es := IndexRows(env.keys, d);
    var inIndex := KnownIds(es, t.blind);
    if d.wal.None? {
      EmptyLog(d);
      NothingToReplay(es, d, inIndex, t.saves);
    } else {
      ReindexStoppedIs(env, n, d, d, LogEntries(d), inIndex, t.saves);
      var d1 := ReindexStopped(env, n, d, LogEntries(d), inIndex, t.saves);
      SameIndexLoads(env.keys, d1, Apply(d1, RemoveWal));
      SameIndexRows(env.keys, d1, Apply(d1, RemoveWal));
    }
  }

  lemma NothingToReplay(es: seq<IndexEntry>, d: Disk, inIndex: set<string>, ends: seq<SaveEnd>)
    requires ends == []
    ensures RowsThrough(es, [], d, inIndex, ends) == es && !AnySaved([], d, inIndex, ends)
  {
  }

  /** The rows the replay of this startup starts from. */
  function RowsBefore(k: Keys, d: Disk, t: Trouble): seq<IndexEntry> {
    if MigratedBy(d, t) then EffectiveRows(k, d) else []
  }

  predicate ReplaySaves(k: Keys, d: Disk, t: Trouble)
    requires Fits(d, t)
  {
    AnySaved(LogEntries(d), d, KnownIds(RowsBefore(k, d, t), t.blind), t.saves)
  }

  lemma {:induction false} AnySavedAlike(log: seq<WalEntry>, d: Disk, d1: Disk, inIndex: set<string>,
                                         ends: seq<SaveEnd>, es: seq<IndexEntry>)
    requires |ends| == |log| && d.nodes == d1.nodes
    ensures AnySaved(log, d, inIndex, ends) == AnySaved(log, d1, inIndex, ends)
    ensures RowsThrough(es, log, d, inIndex, ends) == RowsThrough(es, log, d1, inIndex, ends)
    decreases |log|
  {
    hide RowAdded, Renamed, Skipped;
    if log != [] {
      SkippedAlike(d, d1, log[0], inIndex);
      var e, end := log[0], ends[0];
      var next := if Skipped(d, e, inIndex) || !Renamed(end.stop, 0) then es else RowAdded(es, e.id, e.ts, end.blind);
      AnySavedAlike(log[1..], d, d1, inIndex, ends[1..], next);
    }
  }

  /** Whatever fails in a startup: no node file is touched, and these are the rows it ends with. */
  lemma BootStoppedIs(env: Env, n: nat, d: Disk, t: Trouble)
    requires Fits(d, t)
    ensures var before := RowsBefore(env.keys, d, t);
            var d' := BootStopped(env, n, d, t);
            && d'.nodes == d.nodes && d'.wal == (if t.removed then None else d.wal)
            && IndexRows(env.keys, d') == RowsThrough(before, LogEntries(d), d, KnownIds(before, t.blind), t.saves)
            && (!MigratedBy(d, t) ==> d'.legacy == d.legacy)
            && (Migrated(d') <==> MigratedBy(d, t) || ReplaySaves(env.keys, d, t))
            && (!Migrated(d') ==> d'.index.None? && d'.legacy == d.legacy)
            && (LoadIndex(env.keys, d).Ok? ==> LoadIndex(env.keys, d').Ok?)
  {
    hide LoadIndex, LogEntries, IndexRows, RowsThrough, AnySaved, ReplayStopped, MigrateCalls, EffectiveRows, KnownIds;
    var migrate := MigrateCalls(env, n, d);
    var d1 := CrashAt(d, migrate, t.migrate);
    MigrateStopped(env, n, d, t.migrate);
    SameLog(d, d1);
    ReplayStoppedIs(env, n + Saves(migrate), d1, t);
    var before := RowsBefore(env.keys, d, t);
    AnySavedAlike(LogEntries(d), d, d1, KnownIds(before, t.blind), t.saves, before);
  }

  // ---- The row to come ----

  /** The row the node will have after the next startup that completes. */
  function DueRow(k: Keys, d: Disk, id: NodeId): Option<int64> { Find(StartupRows(k, d), HexEncode(id)) }

  lemma DueRowIs(k: Keys, d: Disk, id: NodeId)
    ensures DueRow(k, d, id) == LogRow(Find(EffectiveRows(k, d), HexEncode(id)), LogEntries(d), id in d.nodes, id)
  {
    hide Find, HexEncode, Replayed, EffectiveRows, LogEntries;
    ReplayedFinds(EffectiveRows(k, d), LogEntries(d), d.nodes.Keys, id);
  }

  /** The row that the startups after this one will work from. */
  function RowAfterBoot(k: Keys, d: Disk, t: Trouble, id: NodeId): Option<int64>
    requires Fits(d, t)
  {
    var before := RowsBefore(k, d, t);
    if MigratedBy(d, t) || ReplaySaves(k, d, t)
    then RowThrough(Find(before, HexEncode(id)), LogEntries(d), d, KnownIds(before, t.blind), t.saves, id)
    else Find(EffectiveRows(k, d), HexEncode(id))
  }

  lemma BootRow(env: Env, n: nat, d: Disk, t: Trouble, id: NodeId)
    requires Fits(d, t)
    ensures Find(EffectiveRows(env.keys, BootStopped(env, n, d, t)), HexEncode(id)) == RowAfterBoot(env.keys, d, t, id)
  {
    hide LogEntries, IndexRows, RowsThrough, RowThrough, AnySaved, BootStopped, HexEncode, Find, KnownIds, LoadIndex;
    hide Renamed;
    var d' := BootStopped(env, n, d, t);
    var before := RowsBefore(env.keys, d, t);
    BootStoppedIs(env, n, d, t);
    RowsThroughFinds(before, LogEntries(d), d, KnownIds(before, t.blind), t.saves, id);
  }

  /** What a startup makes of the row to come, whatever fails in it. */
  lemma BootDue(env: Env, n: nat, d: Disk, t: Trouble, id: NodeId)
    requires Fits(d, t)
    ensures DueRow(env.keys, BootStopped(env, n, d, t), id)
         == LogRow(RowAfterBoot(env.keys, d, t, id), if t.removed then [] else LogEntries(d), id in d.nodes, id)
  {
    hide LogEntries, BootStopped, RowAfterBoot, DueRow, IndexRows, RowsThrough, HexEncode, Find, EffectiveRows;
    hide ReplaySaves, KnownIds, LoadIndex, RowsBefore;
    var d' := BootStopped(env, n, d, t);
    BootRow(env, n, d, t, id);
    BootStoppedIs(env, n, d, t);
    DueRowIs(env.keys, d', id);
    if t.removed {
      EmptyLog(d');
    } else {
      SameLog(d, d');
    }
  }

  // ---- When the index can be read ----

  predicate Sighted(t: Trouble) { !t.blind && forall i :: 0 <= i < |t.saves| ==> !t.saves[i].blind }

  predicate SavedSome(log: seq<WalEntry>, ends: seq<SaveEnd>, id: NodeId)
    requires |ends| == |log|
  {
    exists i :: 0 <= i < |log| && log[i].id == id && Renamed(ends[i].stop, 0)
  }

  /** The timestamp of the first log entry for this id whose save goes through. */
  function FirstSaved(log: seq<WalEntry>, ends: seq<SaveEnd>, id: NodeId): Option<int64>
    requires |ends| == |log|
    decreases |log|
  {
    if log == [] then None
    else if log[0].id == id && Renamed(ends[0].stop, 0) then Some(log[0].ts)
    else FirstSaved(log[1..], ends[1..], id)
  }

  lemma {:induction false} FirstSavedIs(log: seq<WalEntry>, ends: seq<SaveEnd>, id: NodeId)
    requires |ends| == |log|
    ensures FirstSaved(log, ends, id).Some? <==> SavedSome(log, ends, id)
    ensures FirstSaved(log, ends, id).Some? ==> WalEntry(id, FirstSaved(log, ends, id).value) in log
    decreases |log|
  {
    hide Renamed;
    if log != [] {
      FirstSavedIs(log[1..], ends[1..], id);
      if i :| 0 <= i < |log| && log[i].id == id && Renamed(ends[i].stop, 0) {
        if i > 0 {
          assert log[1..][i - 1].id == id && ends[1..][i - 1] == ends[i];
        }
      }
      if SavedSome(log[1..], ends[1..], id) {
        var i :| 0 <= i < |log[1..]| && log[1..][i].id == id && Renamed(ends[1..][i].stop, 0);
        assert log[i + 1].id == id && Renamed(ends[i + 1].stop, 0);
      }
    }
  }

  lemma {:induction false} SightedRow(row: Option<int64>, log: seq<WalEntry>, d: Disk, inIndex: set<string>,
                                      ends: seq<SaveEnd>, id: NodeId)
    requires |ends| == |log| && forall i :: 0 <= i < |ends| ==> !ends[i].blind
    requires HexEncode(id) in inIndex ==> row.Some?
    ensures RowThrough(row, log, d, inIndex, ends, id)
         == if row.Some? then row else if id in d.nodes then FirstSaved(log, ends, id) else None
    decreases |log|
  {
    hide Renamed, HexEncode;
    if log != [] {
      var e, end := log[0], ends[0];
      assert !end.blind;
      assert forall i :: 0 <= i < |ends| - 1 ==> ends[1..][i] == ends[i + 1];
      var next := if Skipped(d, e, inIndex) || !Renamed(end.stop, 0) then row
                  else if e.id == id && row.None? then Some(e.ts)
                  else row;
      SightedRow(next, log[1..], d, inIndex, ends[1..], id);
    }
  }

  /**
   What a startup with failing re-index saves leaves: a node has a row exactly when it had one, or its file exists and the
   save of one of its log entries went through. For every disk, if only the migration went through.
   */
  lemma FaultyStartupRow(env: Env, n: nat, d: Disk, t: Trouble, id: NodeId)
    requires Fits(d, t) && MigratedBy(d, t) && Sighted(t)
    ensures var row := Find(EffectiveRows(env.keys, d), HexEncode(id));
            var after := Find(IndexRows(env.keys, BootStopped(env, n, d, t)), HexEncode(id));
            && after == (if row.Some? then row
                         else if id in d.nodes then FirstSaved(LogEntries(d), t.saves, id) else None)
            && (after.Some? <==> row.Some? || (id in d.nodes && SavedSome(LogEntries(d), t.saves, id)))
  {
    hide LogEntries, IndexRows, RowsThrough, RowThrough, EffectiveRows, BootStopped, HexEncode, Find, FirstSaved;
    hide SavedSome, LoadIndex, ReplaySaves;
    var es, log := EffectiveRows(env.keys, d), LogEntries(d);
    BootStoppedIs(env, n, d, t);
    RowsThroughFinds(es, log, d, IdSet(es), t.saves, id);
    FindsListed(es, HexEncode(id));
    SightedRow(Find(es, HexEncode(id)), log, d, IdSet(es), t.saves, id);
    FirstSavedIs(log, t.saves, id);
  }

  // ---- The nonces a startup draws ----

  /** Every attempted save draws one, whether it goes through or not. */
  function ReindexDraws(env: Env, n: nat, d: Disk, log: seq<WalEntry>, inIndex: set<string>, ends: seq<SaveEnd>): nat
    requires |ends| == |log|
    decreases |log|
  {
    if log == [] then 0
    else if Skipped(d, log[0], inIndex) then ReindexDraws(env, n, d, log[1..], inIndex, ends[1..])
    else
      var calls := AppendCalls(env, n, d, log[0].id, log[0].ts, ends[0].blind);
      Saves(calls) + ReindexDraws(env, n + Saves(calls), CrashAt(d, calls, ends[0].stop), log[1..], inIndex, ends[1..])
  }

  function ReplayDraws(env: Env, n: nat, d: Disk, t: Trouble): nat
    requires Fits(d, t)
  {
    if d.wal.None? then 0
    else ReindexDraws(env, n, d, LogEntries(d), KnownIds(IndexRows(env.keys, d), t.blind), t.saves)
  }

  function BootDraws(env: Env, n: nat, d: Disk, t: Trouble): nat
    requires Fits(d, t)
  {
    var migrate := MigrateCalls(env, n, d);
    var d1 := CrashAt(d, migrate, t.migrate);
    MigrateCrash(env, n, d, t.migrate);
    SameLog(d, d1);
    Saves(migrate) + ReplayDraws(env, n + Saves(migrate), d1, t)
  }

  /** One more entry at the end of the log. */
  lemma {:induction false} ReindexMore(env: Env, n: nat, d: Disk, log: seq<WalEntry>, e: WalEntry,
                                       inIndex: set<string>, ends: seq<SaveEnd>, end: SaveEnd)
    requires |ends| == |log|
    ensures var d1 := ReindexStopped(env, n, d, log, inIndex, ends);
            var m := ReindexDraws(env, n, d, log, inIndex, ends);
            var calls := AppendCalls(env, n + m, d1, e.id, e.ts, end.blind);
            var skipped := Skipped(d1, e, inIndex);
            && ReindexStopped(env, n, d, log + [e], inIndex, ends + [end])
               == (if skipped then d1 else CrashAt(d1, calls, end.stop))
            && ReindexDraws(env, n, d, log + [e], inIndex, ends + [end]) == (if skipped then m else m + Saves(calls))
    decreases |log|
  {
    hide AppendCalls, CrashAt, Skipped, Saves;
    if log == [] {
      assert log + [e] == [e] && ends + [end] == [end];
      assert [e][1..] == [] && [end][1..] == [];
      ReindexOne(env, n, d, e, inIndex, end);
    } else {
      assert (log + [e])[1..] == log[1..] + [e] && (ends + [end])[1..] == ends[1..] + [end];
      if Skipped(d, log[0], inIndex) {
        ReindexMore(env, n, d, log[1..], e, inIndex, ends[1..], end);
      } else {
        var calls := AppendCalls(env, n, d, log[0].id, log[0].ts, ends[0].blind);
        ReindexMore(env, n + Saves(calls), CrashAt(d, calls, ends[0].stop), log[1..], e, inIndex, ends[1..], end);
      }
    }
  }

  lemma ReindexOne(env: Env, n: nat, d: Disk, e: WalEntry, inIndex: set<string>, end: SaveEnd)
    ensures var calls := AppendCalls(env, n, d, e.id, e.ts, end.blind);
            var skipped := Skipped(d, e, inIndex);
            && ReindexStopped(env, n, d, [e], inIndex, [end]) == (if skipped then d else CrashAt(d, calls, end.stop))
            && ReindexDraws(env, n, d, [e], inIndex, [end]) == (if skipped then 0 else Saves(calls))
  {
    hide AppendCalls, CrashAt, Skipped, Saves;
    assert [e][1..] == [] && [end][1..] == [];
    ReindexNone(env, n, d, inIndex);
    var calls := AppendCalls(env, n, d, e.id, e.ts, end.blind);
    ReindexNone(env, n + Saves(calls), CrashAt(d, calls, end.stop), inIndex);
  }

  lemma ReindexNone(env: Env, n: nat, d: Disk, inIndex: set<string>)
    ensures ReindexStopped(env, n, d, [], inIndex, []) == d && ReindexDraws(env, n, d, [], inIndex, []) == 0
  {
  }

  // ---- The same without failures ----

  predicate NoTrouble(env: Env, n: nat, d: Disk, t: Trouble) {
    && t.migrate.done >= |MigrateCalls(env, n, d)| && Sighted(t) && t.removed
    && forall i :: 0 <= i < |t.saves| ==> t.saves[i].stop.done >= 2
  }

  lemma {:induction false} ReindexUnstopped(env: Env, n: nat, d: Disk, log: seq<WalEntry>, inIndex: set<string>,
                                            ends: seq<SaveEnd>)
    requires |ends| == |log| && forall i :: 0 <= i < |ends| ==> ends[i].stop.done >= 2 && !ends[i].blind
    ensures ReindexStopped(env, n, d, log, inIndex, ends) == Run(d, ReindexCalls(env, n, d, log, inIndex))
    ensures ReindexDraws(env, n, d, log, inIndex, ends) == Saves(ReindexCalls(env, n, d, log, inIndex))
    decreases |log|
  {
    hide HexEncode, AppendIndexCalls, CrashAt;
    if log == [] {
      NoCalls(d, CrashPoint(0, None));
    } else {
      hide Run, Saves;
      var e := log[0];
      var calls := AppendIndexCalls(env, n, d, e.id, e.ts);
      assert forall i :: 0 <= i < |ends| - 1 ==> ends[1..][i] == ends[i + 1];
      if Skipped(d, e, inIndex) {
        ReindexUnstopped(env, n, d, log[1..], inIndex, ends[1..]);
      } else {
        AppendTakesTwo(env, n, d, e.id, e.ts, false);
        CrashAfterAll(d, calls, ends[0].stop);
        var m := n + Saves(calls);
        ReindexUnstopped(env, m, Run(d, calls), log[1..], inIndex, ends[1..]);
        RunConcat(d, calls, ReindexCalls(env, m, Run(d, calls), log[1..], inIndex));
        SavesConcat(calls, ReindexCalls(env, m, Run(d, calls), log[1..], inIndex));
      }
    }
  }

  lemma {:induction false} SavesConcat(a: seq<Syscall>, b: seq<Syscall>)
    ensures Saves(a + b) == Saves(a) + Saves(b)
    decreases |a|
  {
    if a == [] {
      assert a + b == b;
    } else {
      assert (a + b)[1..] == a[1..] + b;
      SavesConcat(a[1..], b);
    }
  }

  lemma AppendTakesTwo(env: Env, n: nat, d: Disk, id: NodeId, ts: int64, blind: bool)
    ensures |AppendCalls(env, n, d, id, ts, blind)| <= 2
  {
    hide IndexRows, HexEncode, Find, AddRow, SealIndex;
  }

  /** A startup in which nothing fails is the startup of the calls. */
  lemma UntroubledStartup(env: Env, n: nat, d: Disk, t: Trouble)
    requires Fits(d, t) && NoTrouble(env, n, d, t)
    ensures BootStopped(env, n, d, t) == Run(d, BootCalls(env, n, d))
    ensures BootDraws(env, n, d, t) == Saves(BootCalls(env, n, d))
  {
    hide Saves, LogEntries, IndexRows, MigrateCalls, ReindexCalls, ReindexStopped, Run, CrashAt;
    var migrate := MigrateCalls(env, n, d);
    var m := n + Saves(migrate);
    CrashAfterAll(d, migrate, t.migrate);
    var d1 := Run(d, migrate);
    MigrateRun(env, n, d);
    SameLog(d, d1);
    RunConcat(d, migrate, ReplayCalls(env, m, d1));
    SavesConcat(migrate, ReplayCalls(env, m, d1));
    NoCalls(d1, CrashPoint(0, None));
    NoSaves();
    if d1.wal.Some? {
      var inIndex := IdSet(IndexRows(env.keys, d1));
      var calls := ReindexCalls(env, m, d1, LogEntries(d1), inIndex);
      ReindexUnstopped(env, m, d1, LogEntries(d1), inIndex, t.saves);
      RunConcat(d1, calls, [RemoveWal]);
      OneCall(Run(d1, calls), RemoveWal);
      SavesConcat(calls, [RemoveWal]);
    }
  }

  lemma NoSaves()
    ensures Saves([]) == 0 && Saves([RemoveWal]) == 0 && Saves([RemoveLegacy]) == 0
  {
    assert [RemoveWal][1..] == [] && [RemoveLegacy][1..] == [];
  }

  // ---- A startup cut short is one whose later calls all failed ----

  function NoneSaved(k: nat): (ends: seq<SaveEnd>)
    ensures |ends| == k && forall i :: 0 <= i < k ==> ends[i] == SaveEnd(CrashPoint(0, None), false)
  {
    seq(k, i => SaveEnd(CrashPoint(0, None), false))
  }

  lemma NoStep(d: Disk, calls: seq<Syscall>)
    ensures CrashAt(d, calls, CrashPoint(0, None)) == d
  {
  }

  lemma {:induction false} ReindexNoneSaved(env: Env, n: nat, d: Disk, log: seq<WalEntry>, inIndex: set<string>)
    ensures ReindexStopped(env, n, d, log, inIndex, NoneSaved(|log|)) == d
    decreases |log|
  {
    hide AppendCalls, Skipped, CrashAt;
    if log != [] {
      assert NoneSaved(|log|)[1..] == NoneSaved(|log[1..]|);
      var calls := AppendCalls(env, n, d, log[0].id, log[0].ts, false);
      NoStep(d, calls);
      ReindexNoneSaved(env, n, d, log[1..], inIndex);
      ReindexNoneSaved(env, n + Saves(calls), d, log[1..], inIndex);
    }
  }

  lemma ReindexFirst(env: Env, n: nat, d: Disk, log: seq<WalEntry>, inIndex: set<string>, end: SaveEnd,
                     rest: seq<SaveEnd>)
    requires log != [] && |rest| == |log| - 1
    ensures var calls := AppendCalls(env, n, d, log[0].id, log[0].ts, end.blind);
            ReindexStopped(env, n, d, log, inIndex, [end] + rest)
            == if Skipped(d, log[0], inIndex) then ReindexStopped(env, n, d, log[1..], inIndex, rest)
               else ReindexStopped(env, n + Saves(calls), CrashAt(d, calls, end.stop), log[1..], inIndex, rest)
  {
    hide AppendCalls, Skipped, CrashAt, Saves;
    assert ([end] + rest)[1..] == rest;
  }

  lemma ReindexCallsFirst(env: Env, n: nat, d: Disk, log: seq<WalEntry>, inIndex: set<string>)
    requires log != []
    ensures var calls := AppendCalls(env, n, d, log[0].id, log[0].ts, false);
            ReindexCalls(env, n, d, log, inIndex)
            == if Skipped(d, log[0], inIndex) then ReindexCalls(env, n, d, log[1..], inIndex)
               else calls + ReindexCalls(env, n + Saves(calls), Run(d, calls), log[1..], inIndex)
  {
    hide HexEncode, AppendIndexCalls, Run, Saves;
  }

  lemma NothingCut(env: Env, n: nat, d: Disk, inIndex: set<string>, p: CrashPoint)
    ensures ReindexStopped(env, n, d, [], inIndex, []) == CrashAt(d, ReindexCalls(env, n, d, [], inIndex), p)
  {
    NoCalls(d, p);
  }

  lemma {:induction false} CutReindexIsStopped(env: Env, n: nat, d: Disk, log: seq<WalEntry>, inIndex: set<string>,
                                               p: CrashPoint) returns (ends: seq<SaveEnd>)
    ensures |ends| == |log| && forall i :: 0 <= i < |ends| ==> !ends[i].blind
    ensures ReindexStopped(env, n, d, log, inIndex, ends) == CrashAt(d, ReindexCalls(env, n, d, log, inIndex), p)
    ensures p.done >= |ReindexCalls(env, n, d, log, inIndex)| ==> forall i :: 0 <= i < |ends| ==> ends[i].stop.done >= 2
    decreases |log|
  {
    hide CrashAt, Run, Saves, Skipped, AppendCalls, ReindexStopped, ReindexCalls;
    if log == [] {
      NothingCut(env, n, d, inIndex, p);
      return [];
    }
    var e := log[0];
    ReindexCallsFirst(env, n, d, log, inIndex);
    var end, rest := SaveEnd(CrashPoint(2, None), false), NoneSaved(|log| - 1);
    var calls := AppendCalls(env, n, d, e.id, e.ts, false);
    var m := n + Saves(calls);
    if Skipped(d, e, inIndex) {
      rest := CutReindexIsStopped(env, n, d, log[1..], inIndex, p);
    } else {
      CrashConcat(d, calls, ReindexCalls(env, m, Run(d, calls), log[1..], inIndex), p);
      if p.done < |calls| {
        end := SaveEnd(p, false);
        ReindexNoneSaved(env, m, CrashAt(d, calls, p), log[1..], inIndex);
      } else {
        AppendTakesTwo(env, n, d, e.id, e.ts, false);
        CrashAfterAll(d, calls, end.stop);
        rest := CutReindexIsStopped(env, m, Run(d, calls), log[1..], inIndex, p.(done := p.done - |calls|));
      }
    }
    ReindexFirst(env, n, d, log, inIndex, end, rest);
    ends := [end] + rest;
  }

  lemma CutReplayIsStopped(env: Env, n: nat, d: Disk, p: CrashPoint) returns (t: Trouble)
    ensures Fits(d, t) && Sighted(t) && ReplayStopped(env, n, d, t) == CrashAt(d, ReplayCalls(env, n, d), p)
    ensures t.removed ==> forall i :: 0 <= i < |t.saves| ==> t.saves[i].stop.done >= 2
    ensures p.done >= |ReplayCalls(env, n, d)| ==> t.removed
  {
    hide LogEntries, IndexRows, ReindexCalls, ReindexStopped, CrashAt, Run;
    var log := LogEntries(d);
    if d.wal.None? {
      NoCalls(d, p);
      EmptyLog(d);
      t := Trouble(CrashPoint(0, None), false, [], true);
    } else {
      var inIndex := IdSet(IndexRows(env.keys, d));
      var calls := ReindexCalls(env, n, d, log, inIndex);
      var ends := CutReindexIsStopped(env, n, d, log, inIndex, p);
      CrashConcat(d, calls, [RemoveWal], p);
      if p.done < |calls| {
        t := Trouble(CrashPoint(0, None), false, ends, false);
      } else {
        CrashAfterAll(d, calls, p);
        OneCallCrash(Run(d, calls), RemoveWal, p.(done := p.done - |calls|));
        t := Trouble(CrashPoint(0, None), false, ends, p.done > |calls| || p.part.Some?);
      }
    }
  }

  /**
   So a startup whose calls may fail covers every startup that a crash cuts short; and the log is removed only if the rows were
   migrated and every save before it went through.
   */
  lemma CutStartupIsStopped(env: Env, n: nat, d: Disk, p: CrashPoint) returns (t: Trouble)
    ensures Fits(d, t) && Sighted(t) && BootStopped(env, n, d, t) == CrashAt(d, BootCalls(env, n, d), p)
    ensures t.removed ==> MigratedBy(d, t) && forall i :: 0 <= i < |t.saves| ==> t.saves[i].stop.done >= 2
    ensures MigratedBy(d, t) || forall i :: 0 <= i < |t.saves| ==> t.saves[i].stop.done == 0 && t.saves[i].stop.part.None?
    ensures p.done >= |BootCalls(env, n, d)| ==> t.removed
  {
    hide LogEntries, IndexRows, MigrateCalls, ReplayCalls, ReplayStopped, CrashAt, Run;
    var migrate := MigrateCalls(env, n, d);
    var m := n + Saves(migrate);
    CrashConcat(d, migrate, ReplayCalls(env, m, Run(d, migrate)), p);
    if p.done < |migrate| {
      t := Trouble(p, false, NoneSaved(|LogEntries(d)|), false);
      NothingReplayed(env, m, CrashAt(d, migrate, p), t) by {
        MigrateCrash(env, n, d, p);
        SameLog(d, CrashAt(d, migrate, p));
      }
    } else {
      var whole := CrashPoint(|migrate|, None);
      CrashAfterAll(d, migrate, whole);
      MigrateRun(env, n, d);
      SameLog(d, Run(d, migrate));
      t := CutReplayIsStopped(env, m, Run(d, migrate), p.(done := p.done - |migrate|));
      OnlyReplay(env, m, Run(d, migrate), t, whole);
      t := t.(migrate := whole);
      MigrationIsWhole(env, n, d);
    }
  }

  lemma MigrationIsWhole(env: Env, n: nat, d: Disk)
    ensures Migrated(d) || |MigrateCalls(env, n, d)| >= 2
  {
    hide SealIndex;
  }

  lemma NothingReplayed(env: Env, n: nat, d: Disk, t: Trouble)
    requires t.saves == NoneSaved(|LogEntries(d)|) && !t.removed
    ensures ReplayStopped(env, n, d, t) == d
  {
    hide LogEntries, IndexRows, ReindexStopped;
    if d.wal.Some? {
      ReindexNoneSaved(env, n, d, LogEntries(d), KnownIds(IndexRows(env.keys, d), t.blind));
    }
  }

  lemma OnlyReplay(env: Env, n: nat, d: Disk, t: Trouble, p: CrashPoint)
    requires Fits(d, t)
    ensures ReplayStopped(env, n, d, t.(migrate := p)) == ReplayStopped(env, n, d, t)
  {
    hide LogEntries, IndexRows, ReindexStopped;
  }

  // ---- A write whose calls may fail ----

  /**
   How a write goes. `cut` is what its log append left of the line: nothing, or its first characters, all of them if it
   worked. `blind` says that the index could not be read. `stop` is where it ends among the calls after the append.
   */
  datatype Course = Course(cut: Option<nat>, blind: bool, stop: CrashPoint)

  function LogText(d: Disk): string { d.wal.GetOr("") }

  function TornAppend(d: Disk, id: NodeId, ts: int64, cut: Option<nat>): Disk {
    match cut
    case None => d
    case Some(c) => Apply(d, Cut(AppendWal(LogLine(id, ts)), c))
  }

  /** How many characters of the line that is. */
  function Chars(e: WalEntry, cut: Option<nat>): (c: nat)
    ensures c <= |PrintLine(e)|
  {
    if cut.GetOr(0) <= |PrintLine(e)| then cut.GetOr(0) else |PrintLine(e)|
  }

  lemma TornAppendIs(d: Disk, id: NodeId, ts: int64, cut: Option<nat>)
    ensures var e := WalEntry(id, ts);
            var d' := TornAppend(d, id, ts, cut);
            d' == d.(wal := d'.wal) && LogText(d') == LogText(d) + PrintLine(e)[..Chars(e, cut)]
  {
    hide PrintLine;
    assert LogText(d) + "" == LogText(d);
  }

  /** The calls after the log append. */
  function FilingCalls(env: Env, n: nat, d: Disk, node: MemoryNode, blind: bool): seq<Syscall> {
    [WriteNode(node.id, SealNode(env, n, node))] + AppendCalls(env, n + 1, d, node.id, node.capturedAt, blind)
  }

  /** A failed log append does not keep the write from going on. */
  function Written(env: Env, n: nat, d: Disk, node: MemoryNode, c: Course): Disk {
    CrashAt(TornAppend(d, node.id, node.capturedAt, c.cut), FilingCalls(env, n, d, node, c.blind), c.stop)
  }

  /** Wherever a crash cuts the calls of a write short, it is one that stopped there. */
  lemma CutWriteIsWritten(env: Env, n: nat, d: Disk, node: MemoryNode, p: CrashPoint) returns (c: Course)
    ensures !c.blind && Written(env, n, d, node, c) == CrashAt(d, WriteCalls(env, n, d, node), p)
    ensures p.done >= 1 ==> c.stop == p.(done := p.done - 1) && c.cut == Some(|LogLine(node.id, node.capturedAt)|)
    ensures p.done == 0 ==> c.stop == CrashPoint(0, None) && c.cut == p.part
  {
    hide SealNode, LogLine, AppendIndexCalls;
    var line := LogLine(node.id, node.capturedAt);
    var log := AppendWal(line);
    var calls := FilingCalls(env, n, d, node, false);
    assert WriteCalls(env, n, d, node) == [log] + calls;
    CrashConcat(d, [log], calls, p);
    OneCall(d, log);
    OneCallCrash(d, log, p);
    if p.done >= 1 {
      c := Course(Some(|line|), false, p.(done := p.done - 1));
      assert Cut(log, |line|) == log;
    } else {
      c := Course(p.part, false, CrashPoint(0, None));
    }
    hide FilingCalls, WriteCalls;
    NoStep(TornAppend(d, node.id, node.capturedAt, c.cut), calls);
  }

  predicate FileLeft(stop: CrashPoint) { stop.done >= 1 || stop.part.Some? }

  predicate FileWhole(env: Env, n: nat, node: MemoryNode, stop: CrashPoint) {
    stop.done >= 1 || (stop.part.Some? && stop.part.value >= |SealNode(env, n, node)|)
  }

  /** What a write does, on every disk and wherever it fails. */
  lemma WrittenIs(env: Env, n: nat, d: Disk, node: MemoryNode, c: Course)
    ensures var es, id, stop := IndexRows(env.keys, d), node.id, c.stop;
            var d' := Written(env, n, d, node, c);
            && LogText(d') == LogText(TornAppend(d, id, node.capturedAt, c.cut)) && d'.legacy == d.legacy
            && IndexRows(env.keys, d') == (if Renamed(stop, 1) then RowAdded(es, id, node.capturedAt, c.blind) else es)
            && (d'.index.Some? <==> d.index.Some? || Renamed(stop, 1))
            && (!Renamed(stop, 1) ==> d'.index == d.index)
            && (LoadIndex(env.keys, d).Ok? ==> LoadIndex(env.keys, d').Ok?)
            && d'.nodes == if stop.done >= 1 then d.nodes[id := SealNode(env, n, node)]
                           else if stop.part.Some? then d.nodes[id := Take(SealNode(env, n, node), stop.part.value)]
                           else d.nodes
  {
    hide SealNode, LogLine, AppendCalls, IndexRows, RowAdded, Run, LoadIndex;
    var id, ts, stop := node.id, node.capturedAt, c.stop;
    var blob := SealNode(env, n, node);
    var d0 := TornAppend(d, id, ts, c.cut);
    var indexing := AppendCalls(env, n + 1, d, id, ts, c.blind);
    CrashConcat(d0, [WriteNode(id, blob)], indexing, stop);
    OneCall(d0, WriteNode(id, blob));
    OneCallCrash(d0, WriteNode(id, blob), stop);
    hide CrashAt;
    var d' := Written(env, n, d, node, c);
    SameIndexRows(env.keys, d, d0);
    SameIndexLoads(env.keys, d, d0);
    if stop.done >= 1 {
      var d1 := Apply(d0, WriteNode(id, blob));
      SameIndexRows(env.keys, d, d1);
      SameIndexLoads(env.keys, d, d1);
      SameAppendCalls(env, n + 1, d, d1, id, ts, c.blind);
      AppendStopped(env, n + 1, d1, id, ts, c.blind, stop.(done := stop.done - 1));
      if !Renamed(stop, 1) {
        UnsavedIndex(env, n + 1, d1, id, ts, c.blind, stop.(done := stop.done - 1));
      }
    } else {
      SameIndexRows(env.keys, d0, d');
      SameIndexLoads(env.keys, d0, d');
    }
  }

  lemma SameAppendCalls(env: Env, n: nat, d: Disk, d': Disk, id: NodeId, ts: int64, blind: bool)
    requires d.index == d'.index
    ensures AppendCalls(env, n, d, id, ts, blind) == AppendCalls(env, n, d', id, ts, blind)
  {
  }

  lemma UnsavedIndex(env: Env, n: nat, d: Disk, id: NodeId, ts: int64, blind: bool, p: CrashPoint)
    requires !Renamed(p, 0)
    ensures CrashAt(d, AppendCalls(env, n, d, id, ts, blind), p).index == d.index
  {
    hide HexEncode, LoadIndex, SealIndex, AddRow, Find, CrashAt, SaveCalls;
    NoCalls(d, p);
    SaveCrash(env, n, d, [IndexEntry(HexEncode(id), ts)], p);
    SaveCrash(env, n, d, AddRow(IndexRows(env.keys, d), id, ts), p);
  }

  /** The row that the startups after this write will work from. */
  function RowAfterWrite(k: Keys, d: Disk, node: MemoryNode, c: Course, id: NodeId): Option<int64> {
    if Renamed(c.stop, 1) then Find(RowAdded(IndexRows(k, d), node.id, node.capturedAt, c.blind), HexEncode(id))
    else Find(EffectiveRows(k, d), HexEncode(id))
  }

  function LogAfterWrite(d: Disk, node: MemoryNode, cut: Option<nat>): seq<WalEntry> {
    var e := WalEntry(node.id, node.capturedAt);
    Parse(LogText(d) + PrintLine(e)[..Chars(e, cut)])
  }

  lemma WriteRow(env: Env, n: nat, d: Disk, node: MemoryNode, c: Course, id: NodeId)
    ensures Find(EffectiveRows(env.keys, Written(env, n, d, node, c)), HexEncode(id))
         == RowAfterWrite(env.keys, d, node, c, id)
  {
    hide SealNode, IndexRows, RowAdded, LoadIndex, Written, TornAppend, Find, HexEncode;
    var d' := Written(env, n, d, node, c);
    WrittenIs(env, n, d, node, c);
    if !Renamed(c.stop, 1) {
      SameIndexRows(env.keys, d, d');
    }
  }

  /** What a write makes of the row to come, whatever fails in it. */
  lemma WriteDue(env: Env, n: nat, d: Disk, node: MemoryNode, c: Course, id: NodeId)
    ensures var there := id in d.nodes || (id == node.id && FileLeft(c.stop));
            && (id in Written(env, n, d, node, c).nodes <==> there)
            && DueRow(env.keys, Written(env, n, d, node, c), id)
               == LogRow(RowAfterWrite(env.keys, d, node, c, id), LogAfterWrite(d, node, c.cut), there, id)
  {
    hide SealNode, IndexRows, RowAdded, LoadIndex, Written, TornAppend, Parse, PrintLine, Find, HexEncode, Chars, DueRow;
    hide EffectiveRows, RowAfterWrite;
    var d' := Written(env, n, d, node, c);
    WrittenIs(env, n, d, node, c);
    WriteRow(env, n, d, node, c, id);
    TornAppendIs(d, node.id, node.capturedAt, c.cut);
    DueRowIs(env.keys, d', id);
  }

  // ---- A delete whose calls may fail ----

  predicate FileGone(stop: CrashPoint) { stop.done >= 1 || stop.part.Some? }

  /** What a delete does, wherever it fails; a failed read of the index is a failure after the removal. */
  lemma DeletedIs(env: Env, n: nat, d: Disk, id: NodeId, stop: CrashPoint)
    requires LoadIndex(env.keys, d).Ok?
    ensures var es := IndexRows(env.keys, d);
            var d' := CrashAt(d, DeleteCalls(env, n, d, id), stop);
            && d'.wal == d.wal && d'.legacy == d.legacy && LoadIndex(env.keys, d').Ok?
            && d'.nodes == (if FileGone(stop) then d.nodes - {id} else d.nodes)
            && IndexRows(env.keys, d') == (if Renamed(stop, 1) then Without(es, HexEncode(id)) else es)
            && (d'.index.Some? <==> d.index.Some? || Renamed(stop, 1))
            && (!Renamed(stop, 1) ==> d'.index == d.index)
    ensures |DeleteCalls(env, n, d, id)| == 3
  {
    hide IndexRows, HexEncode, Without, SealIndex;
    var k := env.keys;
    var es := IndexRows(k, d);
    var es' := Without(es, HexEncode(id));
    var save := SaveCalls(env, n, es');
    var d1 := Apply(d, RemoveNode(id));
    LoadedRows(k, d, LoadIndex(k, d).value);
    CrashConcat(d, [RemoveNode(id)], save, stop);
    assert DeleteCalls(env, n, d, id) == [RemoveNode(id)] + save;
    OneCall(d, RemoveNode(id));
    OneCallCrash(d, RemoveNode(id), stop);
    SameIndexRows(k, d, d1);
    SameIndexLoads(k, d, d1);
    hide SaveCalls, CrashAt, LoadIndex, DeleteCalls;
    var d' := CrashAt(d, DeleteCalls(env, n, d, id), stop);
    if stop.done >= 1 {
      SaveCrash(env, n, d1, es', stop.(done := stop.done - 1));
    }
    if Renamed(stop, 1) {
      LoadedRows(k, d', es');
    } else {
      SameIndexRows(k, d, d');
      SameIndexLoads(k, d, d');
    }
  }

  function RowAfterDelete(k: Keys, d: Disk, gone: NodeId, stop: CrashPoint, id: NodeId): Option<int64> {
    if Renamed(stop, 1) then (if id == gone then None else Find(IndexRows(k, d), HexEncode(id)))
    else Find(EffectiveRows(k, d), HexEncode(id))
  }

  lemma DeleteRow(env: Env, n: nat, d: Disk, gone: NodeId, stop: CrashPoint, id: NodeId)
    requires LoadIndex(env.keys, d).Ok?
    ensures Find(EffectiveRows(env.keys, CrashAt(d, DeleteCalls(env, n, d, gone), stop)), HexEncode(id))
         == RowAfterDelete(env.keys, d, gone, stop, id)
  {
    if HexEncode(id) == HexEncode(gone) {
      HexInjective(id, gone);
    }
    hide IndexRows, LoadIndex, DeleteCalls, CrashAt, Find, HexEncode, Without;
    var d' := CrashAt(d, DeleteCalls(env, n, d, gone), stop);
    DeletedIs(env, n, d, gone, stop);
    FindWithout(IndexRows(env.keys, d), HexEncode(gone), HexEncode(id));
    if !Renamed(stop, 1) {
      SameIndexRows(env.keys, d, d');
    }
  }

  /** What a delete makes of the row to come, whatever fails in it. */
  lemma DeleteDue(env: Env, n: nat, d: Disk, gone: NodeId, stop: CrashPoint, id: NodeId)
    requires LoadIndex(env.keys, d).Ok?
    ensures var there := id in d.nodes && !(id == gone && FileGone(stop));
            var d' := CrashAt(d, DeleteCalls(env, n, d, gone), stop);
            && (id in d'.nodes <==> there)
            && DueRow(env.keys, d', id) == LogRow(RowAfterDelete(env.keys, d, gone, stop, id), LogEntries(d), there, id)
  {
    hide IndexRows, LoadIndex, DeleteCalls, CrashAt, Find, HexEncode, Without, EffectiveRows, LogEntries, DueRow;
    var d' := CrashAt(d, DeleteCalls(env, n, d, gone), stop);
    DeletedIs(env, n, d, gone, stop);
    DeleteRow(env, n, d, gone, stop, id);
    DueRowIs(env.keys, d', id);
    SameLog(d, d');
  }
}
