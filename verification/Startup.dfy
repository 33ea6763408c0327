/** Startup is restartable: a crash anywhere in migration or replay, any number of times, leads to the same store. */
module Startup {
  import opened Wrappers
  import opened Text
  import opened Wal
  import opened Documents
  import opened Encrypt
  import opened FileSystem
  import opened StoreModel

  /** What replaying a log means: every entry whose node file exists gets a row unless it has one. */
  function Replayed(es: seq<IndexEntry>, log: seq<WalEntry>, files: set<NodeId>): seq<IndexEntry>
    decreases |log|
  {
    if log == [] then es
    else Replayed(if log[0].id in files then AddRow(es, log[0].id, log[0].ts) else es, log[1..], files)
  }

  /** The rows startup works from: the encrypted index, or the legacy one while there is no encrypted one. */
  function EffectiveRows(k: Keys, d: Disk): seq<IndexEntry> {
    if d.index.None? && d.legacy.Some? && d.legacy.value.Listed? then d.legacy.value.entries else IndexRows(k, d)
  }

  /** The rows an uninterrupted startup ends with. */
  function StartupRows(k: Keys, d: Disk): seq<IndexEntry> {
    Replayed(EffectiveRows(k, d), LogEntries(d), d.nodes.Keys)
  }

  ghost predicate SameButIndex(d: Disk, d': Disk) {
    d'.nodes == d.nodes && d'.wal == d.wal && d'.legacy == d.legacy
  }

  // ---- Saving the index ----

  lemma SavedIndexLoads(env: Env, n: nat, es: seq<IndexEntry>, d: Disk)
    requires d.index == Some(SealIndex(env, n, es))
    ensures LoadIndex(env.keys, d) == Ok(es)
  {
    OpenSeal(env.keys, SENTINEL_ID, SENTINEL_TIME, env.rand(n), IndexDoc(es));
    hide Open, Seal;
  }

  lemma SaveRun(env: Env, n: nat, d: Disk, es: seq<IndexEntry>)
    ensures Run(d, SaveCalls(env, n, es)) == d.(index := Some(SealIndex(env, n, es)), tmp := None)
    ensures LoadIndex(env.keys, Run(d, SaveCalls(env, n, es))) == Ok(es)
  {
    hide SealIndex, LoadIndex;
    var calls := SaveCalls(env, n, es);
    OneCall(Apply(d, calls[0]), RenameTmp);
    assert calls[1..] == [RenameTmp];
    SavedIndexLoads(env, n, es, Run(d, calls));
  }

  lemma OneCall(d: Disk, c: Syscall)
    ensures Run(d, [c]) == Apply(d, c)
  {
    assert [c][1..] == [];
    assert Run(Apply(d, c), []) == Apply(d, c);
  }

  lemma OneCallCrash(d: Disk, c: Syscall, p: CrashPoint)
    ensures CrashAt(d, [c], p)
         == if p.done > 0 then Apply(d, c) else if p.part.Some? then Apply(d, Cut(c, p.part.value)) else d
  {
    if p.done > 0 {
      CrashAfterAll(d, [c], p);
      OneCall(d, c);
    }
  }

  /** An index save that comes after `before` other calls went through: its rename was reached and not stopped short of. */
  predicate Renamed(p: CrashPoint, before: nat) {
    p.done >= before + 2 || (p.done == before + 1 && p.part.Some?)
  }

  /** The rename makes the save all or nothing. */
  lemma SaveCrash(env: Env, n: nat, d: Disk, es: seq<IndexEntry>, p: CrashPoint)
    ensures var d' := CrashAt(d, SaveCalls(env, n, es), p);
            && SameButIndex(d, d')
            && d'.index == (if Renamed(p, 0) then Some(SealIndex(env, n, es)) else d.index)
            && LoadIndex(env.keys, d') == if Renamed(p, 0) then Ok(es) else LoadIndex(env.keys, d)
  {
    hide SealIndex;
    var calls := SaveCalls(env, n, es);
    var d' := CrashAt(d, calls, p);
    assert calls[1..] == [RenameTmp];
    if p.done > 0 {
      OneCallCrash(Apply(d, calls[0]), RenameTmp, p.(done := p.done - 1));
    }
    hide LoadIndex;
    if Renamed(p, 0) {
      SavedIndexLoads(env, n, es, d');
    } else {
      SameIndexLoads(env.keys, d, d');
    }
  }

  lemma SameIndexLoads(k: Keys, d: Disk, d': Disk)
    requires d.index == d'.index
    ensures LoadIndex(k, d) == LoadIndex(k, d')
  {
  }

  // ---- Replaying ----

  lemma AppendIndexRun(env: Env, n: nat, d: Disk, id: NodeId, ts: int64)
    ensures var d' := Run(d, AppendIndexCalls(env, n, d, id, ts));
            && SameButIndex(d, d')
            && IndexRows(env.keys, d') == AddRow(IndexRows(env.keys, d), id, ts)
            && (d.index.Some? ==> d'.index.Some?)
            && (LoadIndex(env.keys, d).Ok? ==> LoadIndex(env.keys, d').Ok?)
  {
    hide LoadIndex, SealIndex, Find, HexEncode, SaveCalls;
    var es := IndexRows(env.keys, d);
    if Find(es, HexEncode(id)).None? {
      SaveRun(env, n, d, AddRow(es, id, ts));
    }
  }

  lemma {:induction false} ReindexRun(env: Env, n: nat, d: Disk, log: seq<WalEntry>, inIndex: set<string>)
    requires inIndex <= IdSet(IndexRows(env.keys, d))
    ensures var d' := Run(d, ReindexCalls(env, n, d, log, inIndex));
            && SameButIndex(d, d')
            && IndexRows(env.keys, d') == Replayed(IndexRows(env.keys, d), log, d.nodes.Keys)
            && (LoadIndex(env.keys, d).Ok? ==> LoadIndex(env.keys, d').Ok?)
    decreases |log|
  {
    hide IndexRows, LoadIndex, HexEncode, Find, AppendIndexCalls;
    if log != [] {
      var e := log[0];
      var es := IndexRows(env.keys, d);
      if HexEncode(e.id) in inIndex || e.id !in d.nodes {
        if e.id in d.nodes {
          KnownIdAddsNothing(es, e.id, e.ts);
        }
        ReindexRun(env, n, d, log[1..], inIndex);
      } else {
        var calls := AppendIndexCalls(env, n, d, e.id, e.ts);
        AppendIndexRun(env, n, d, e.id, e.ts);
        AddRowKeepsIds(es, e.id, e.ts);
        var m := n + Saves(calls);
        ReindexRun(env, m, Run(d, calls), log[1..], inIndex);
        RunConcat(d, calls, ReindexCalls(env, m, Run(d, calls), log[1..], inIndex));
      }
    }
  }

  lemma {:induction false} FindsListed(es: seq<IndexEntry>, hexId: string)
    ensures Find(es, hexId).Some? <==> hexId in IdSet(es)
  {
    if es != [] {
      FindsListed(es[1..], hexId);
      assert es == [es[0]] + es[1..];
      assert IdSet(es) == {es[0].id} + IdSet(es[1..]);
    }
  }

  lemma KnownIdAddsNothing(es: seq<IndexEntry>, id: NodeId, ts: int64)
    requires HexEncode(id) in IdSet(es)
    ensures AddRow(es, id, ts) == es
  {
    FindsListed(es, HexEncode(id));
  }

  lemma AddRowKeepsIds(es: seq<IndexEntry>, id: NodeId, ts: int64)
    ensures IdSet(AddRow(es, id, ts)) == IdSet(es) + {HexEncode(id)}
    ensures es <= AddRow(es, id, ts)
  {
    hide HexEncode;
    FindsListed(es, HexEncode(id));
    var es' := AddRow(es, id, ts);
    if es' != es {
      assert forall e :: e in es' <==> e in es || e == IndexEntry(HexEncode(id), ts);
      forall h | h in IdSet(es) + {HexEncode(id)}
        ensures h in IdSet(es')
      {
        if h == HexEncode(id) {
          assert es'[|es|].id == h;
        }
      }
    }
  }

  /** A crash in replay leaves the log replayed up to some entry. */
  lemma {:induction false} ReindexCrash(env: Env, n: nat, d: Disk, log: seq<WalEntry>, inIndex: set<string>,
                                        p: CrashPoint)
    returns (j: nat)
    requires inIndex <= IdSet(IndexRows(env.keys, d))
    ensures j <= |log|
    ensures var d' := CrashAt(d, ReindexCalls(env, n, d, log, inIndex), p);
            && SameButIndex(d, d')
            && IndexRows(env.keys, d') == Replayed(IndexRows(env.keys, d), log[..j], d.nodes.Keys)
            && (d.index.Some? ==> d'.index.Some?)
            && (LoadIndex(env.keys, d).Ok? ==> LoadIndex(env.keys, d').Ok?)
    decreases |log|
  {
    hide IndexRows, LoadIndex, HexEncode, Find, AppendIndexCalls;
    var es := IndexRows(env.keys, d);
    if log == [] {
      return 0;
    }
    var e := log[0];
    if HexEncode(e.id) in inIndex || e.id !in d.nodes {
      if e.id in d.nodes {
        KnownIdAddsNothing(es, e.id, e.ts);
      }
      var i := ReindexCrash(env, n, d, log[1..], inIndex, p);
      j := i + 1;
    } else {
      var calls := AppendIndexCalls(env, n, d, e.id, e.ts);
      AppendIndexRun(env, n, d, e.id, e.ts);
      AddRowKeepsIds(es, e.id, e.ts);
      var m := n + Saves(calls);
      var d1 := Run(d, calls);
      CrashConcat(d, calls, ReindexCalls(env, m, d1, log[1..], inIndex), p);
      if p.done < |calls| {
        AppendIndexCrash(env, n, d, e.id, e.ts, p);
        j := if Renamed(p, 0) then 1 else 0;
        ReplayedOne(es, e, d.nodes.Keys);
        assert log[..1] == [e] && log[..0] == [];
        return;
      }
      var i := ReindexCrash(env, m, d1, log[1..], inIndex, p.(done := p.done - |calls|));
      j := i + 1;
    }
    assert log[..j][0] == e && log[..j][1..] == log[1..][..j - 1];
  }

  lemma ReplayedOne(es: seq<IndexEntry>, e: WalEntry, files: set<NodeId>)
    ensures Replayed(es, [], files) == es
    ensures Replayed(es, [e], files) == if e.id in files then AddRow(es, e.id, e.ts) else es
  {
    hide AddRow;
    assert [e][1..] == [];
  }

  lemma AppendIndexCrash(env: Env, n: nat, d: Disk, id: NodeId, ts: int64, p: CrashPoint)
    ensures var es := IndexRows(env.keys, d);
            var d' := CrashAt(d, AppendIndexCalls(env, n, d, id, ts), p);
            && SameButIndex(d, d')
            && IndexRows(env.keys, d') == (if Renamed(p, 0) then AddRow(es, id, ts) else es)
            && (d'.index.Some? <==> d.index.Some? || (Renamed(p, 0) && Find(es, HexEncode(id)).None?))
            && (LoadIndex(env.keys, d).Ok? ==> LoadIndex(env.keys, d').Ok?)
  {
    hide LoadIndex, SealIndex, Find, HexEncode, SaveCalls, CrashAt;
    var es := IndexRows(env.keys, d);
    if Find(es, HexEncode(id)).None? {
      SaveCrash(env, n, d, AddRow(es, id, ts), p);
    } else {
      NoCalls(d, p);
    }
  }

  lemma NoCalls(d: Disk, p: CrashPoint)
    ensures CrashAt(d, [], p) == d && Run(d, []) == d
  {
  }

  // ---- Replaying again changes nothing ----

  lemma {:induction false} ReplayedConcat(es: seq<IndexEntry>, a: seq<WalEntry>, b: seq<WalEntry>, files: set<NodeId>)
    ensures Replayed(es, a + b, files) == Replayed(Replayed(es, a, files), b, files)
    decreases |a|
  {
    hide AddRow;
    if a == [] {
      assert a + b == b;
    } else {
      assert (a + b)[1..] == a[1..] + b;
      ReplayedConcat(if a[0].id in files then AddRow(es, a[0].id, a[0].ts) else es, a[1..], b, files);
    }
  }

  /** Every entry of the log whose file exists has a row. */
  ghost predicate Covered(es: seq<IndexEntry>, log: seq<WalEntry>, files: set<NodeId>) {
    forall e :: e in log && e.id in files ==> HexEncode(e.id) in IdSet(es)
  }

  lemma {:induction false} ReplayedCovers(es: seq<IndexEntry>, log: seq<WalEntry>, files: set<NodeId>)
    ensures Covered(Replayed(es, log, files), log, files)
    ensures es <= Replayed(es, log, files)
    ensures IdSet(es) <= IdSet(Replayed(es, log, files))
    decreases |log|
  {
    hide AddRow, IdSet, HexEncode;
    if log != [] {
      var e := log[0];
      var es' := if e.id in files then AddRow(es, e.id, e.ts) else es;
      AddRowKeepsIds(es, e.id, e.ts);
      ReplayedCovers(es', log[1..], files);
      assert forall x :: x in log ==> x == e || x in log[1..];
    }
  }

  lemma {:induction false} CoveredReplay(es: seq<IndexEntry>, log: seq<WalEntry>, files: set<NodeId>)
    requires Covered(es, log, files)
    ensures Replayed(es, log, files) == es
    decreases |log|
  {
    hide AddRow, IdSet, HexEncode;
    if log != [] {
      var e := log[0];
      assert e in log;
      if e.id in files {
        KnownIdAddsNothing(es, e.id, e.ts);
      }
      assert forall x :: x in log[1..] ==> x in log;
      CoveredReplay(es, log[1..], files);
    }
  }

  /** Replaying part of a log and then all of it is replaying it once. */
  lemma ReplayedAgain(es: seq<IndexEntry>, log: seq<WalEntry>, j: nat, files: set<NodeId>)
    requires j <= |log|
    ensures Replayed(Replayed(es, log[..j], files), log, files) == Replayed(es, log, files)
  {
    hide Replayed, Covered;
    var part := Replayed(es, log[..j], files);
    ReplayedCovers(es, log[..j], files);
    CoveredReplay(part, log[..j], files);
    assert log[..j] + log[j..] == log;
    ReplayedConcat(part, log[..j], log[j..], files);
    ReplayedConcat(es, log[..j], log[j..], files);
  }

  // ---- One startup ----

  /** No legacy rows are waiting to be migrated. */
  predicate Migrated(d: Disk) { d.index.Some? || d.legacy.None? || d.legacy.value.Garbage? }

  lemma MigrateRun(env: Env, n: nat, d: Disk)
    ensures var d' := Run(d, MigrateCalls(env, n, d));
            && d'.nodes == d.nodes && d'.wal == d.wal && Migrated(d')
            && IndexRows(env.keys, d') == EffectiveRows(env.keys, d)
            && (d.legacy != Some(Garbage) ==> d'.legacy.None?)
            && (LoadIndex(env.keys, d).Ok? ==> LoadIndex(env.keys, d').Ok?)
  {
    hide LoadIndex, SealIndex, SaveCalls;
    NoCalls(d, CrashPoint(0, None));
    OneCall(d, RemoveLegacy);
    SameIndexLoads(env.keys, d, Apply(d, RemoveLegacy));
    if d.legacy.Some? && d.index.None? && d.legacy.value.Listed? {
      var es := d.legacy.value.entries;
      var calls := SaveCalls(env, n, es);
      SaveRun(env, n, d, es);
      var d1 := Run(d, calls);
      RunConcat(d, calls, [RemoveLegacy]);
      OneCall(d1, RemoveLegacy);
      SameIndexLoads(env.keys, d1, Apply(d1, RemoveLegacy));
    }
  }

  lemma MigrateCrash(env: Env, n: nat, d: Disk, p: CrashPoint)
    ensures var d' := CrashAt(d, MigrateCalls(env, n, d), p);
            && d'.nodes == d.nodes && d'.wal == d.wal
            && EffectiveRows(env.keys, d') == EffectiveRows(env.keys, d)
            && (d.legacy != Some(Garbage) ==> d'.legacy != Some(Garbage))
            && (LoadIndex(env.keys, d).Ok? ==> LoadIndex(env.keys, d').Ok?)
  {
    hide LoadIndex, SealIndex, SaveCalls;
    NoCalls(d, p);
    OneCallCrash(d, RemoveLegacy, p);
    SameIndexLoads(env.keys, d, Apply(d, RemoveLegacy));
    if d.legacy.Some? && d.index.None? && d.legacy.value.Listed? {
      var es := d.legacy.value.entries;
      var calls := SaveCalls(env, n, es);
      var d1 := Run(d, calls);
      CrashConcat(d, calls, [RemoveLegacy], p);
      SaveCrash(env, n, d, es, p);
      SaveRun(env, n, d, es);
      if p.done >= |calls| {
        OneCallCrash(d1, RemoveLegacy, p.(done := p.done - |calls|));
        SameIndexLoads(env.keys, d1, Apply(d1, RemoveLegacy));
      }
    }
  }

  lemma ReplayRun(env: Env, n: nat, d: Disk)
    ensures var d' := Run(d, ReplayCalls(env, n, d));
            && d'.nodes == d.nodes && d'.wal.None? && d'.legacy == d.legacy
            && IndexRows(env.keys, d') == Replayed(IndexRows(env.keys, d), LogEntries(d), d.nodes.Keys)
            && (LoadIndex(env.keys, d).Ok? ==> LoadIndex(env.keys, d').Ok?)
            && (d.index.Some? ==> d'.index.Some?)
  {
    hide LoadIndex, ReindexCalls, LogEntries, IndexRows;
    NoCalls(d, CrashPoint(0, None));
    if d.wal.None? {
      EmptyLog(d);
      ReplayedNothing(IndexRows(env.keys, d), d.nodes.Keys);
    } else {
      var inIndex := IdSet(IndexRows(env.keys, d));
      var calls := ReindexCalls(env, n, d, LogEntries(d), inIndex);
      ReindexRun(env, n, d, LogEntries(d), inIndex);
      var p := CrashPoint(|calls|, None);
      var j := ReindexCrash(env, n, d, LogEntries(d), inIndex, p);
      CrashAfterAll(d, calls, p);
      var d1 := Run(d, calls);
      RunConcat(d, calls, [RemoveWal]);
      OneCall(d1, RemoveWal);
      SameIndexLoads(env.keys, d1, Apply(d1, RemoveWal));
      SameIndexRows(env.keys, d1, Apply(d1, RemoveWal));
    }
  }

  lemma SameIndexRows(k: Keys, d: Disk, d': Disk)
    requires d.index == d'.index
    ensures IndexRows(k, d) == IndexRows(k, d')
  {
  }

  lemma LoadedRows(k: Keys, d: Disk, es: seq<IndexEntry>)
    requires LoadIndex(k, d) == Ok(es)
    ensures IndexRows(k, d) == es
  {
  }

  lemma SameLog(d: Disk, d': Disk)
    requires d.wal == d'.wal
    ensures LogEntries(d) == LogEntries(d')
  {
  }

  lemma EmptyLog(d: Disk)
    requires d.wal.None?
    ensures LogEntries(d) == []
  {
  }

  /** A crash in replay: the log is still there and replayed up to entry j, or replay was done. */
  lemma ReplayCrash(env: Env, n: nat, d: Disk, p: CrashPoint) returns (j: nat)
    ensures j <= |LogEntries(d)|
    ensures var d' := CrashAt(d, ReplayCalls(env, n, d), p);
            && d'.nodes == d.nodes && d'.legacy == d.legacy
            && IndexRows(env.keys, d') == Replayed(IndexRows(env.keys, d), LogEntries(d)[..j], d.nodes.Keys)
            && (d'.wal == d.wal || (d'.wal.None? && j == |LogEntries(d)|))
            && (LoadIndex(env.keys, d).Ok? ==> LoadIndex(env.keys, d').Ok?)
            && (d.index.Some? ==> d'.index.Some?)
  {
    hide LoadIndex, ReindexCalls, LogEntries, IndexRows;
    var log := LogEntries(d);
    if d.wal.None? {
      NoCalls(d, p);
      ReplayedNothing(IndexRows(env.keys, d), d.nodes.Keys);
      return 0;
    }
    var inIndex := IdSet(IndexRows(env.keys, d));
    var calls := ReindexCalls(env, n, d, log, inIndex);
    CrashConcat(d, calls, [RemoveWal], p);
    if p.done < |calls| {
      j := ReindexCrash(env, n, d, log, inIndex, p);
    } else {
      ReindexRun(env, n, d, log, inIndex);
      var all := CrashPoint(|calls|, None);
      var i := ReindexCrash(env, n, d, log, inIndex, all);
      CrashAfterAll(d, calls, all);
      var d1 := Run(d, calls);
      OneCallCrash(d1, RemoveWal, p.(done := p.done - |calls|));
      SameIndexLoads(env.keys, d1, Apply(d1, RemoveWal));
      SameIndexRows(env.keys, d1, Apply(d1, RemoveWal));
      j := |log|;
      assert log[..j] == log;
    }
  }

  lemma ReplayedNothing(es: seq<IndexEntry>, files: set<NodeId>)
    ensures Replayed(es, [], files) == es
  {
  }

  /** An uninterrupted startup: the log is gone, the rows are the replayed ones, no node file is touched. */
  lemma BootRun(env: Env, n: nat, d: Disk)
    ensures var d' := Run(d, BootCalls(env, n, d));
            && d'.nodes == d.nodes && d'.wal.None? && Migrated(d')
            && IndexRows(env.keys, d') == StartupRows(env.keys, d)
            && (d.legacy != Some(Garbage) ==> d'.legacy.None?)
            && (LoadIndex(env.keys, d).Ok? ==> LoadIndex(env.keys, d').Ok?)
  {
    hide MigrateCalls, ReplayCalls, IndexRows, LoadIndex, Replayed, EffectiveRows, LogEntries;
    var migrate := MigrateCalls(env, n, d);
    var d1 := Run(d, migrate);
    var m := n + Saves(migrate);
    MigrateRun(env, n, d);
    SameLog(d, d1);
    ReplayRun(env, m, d1);
    RunConcat(d, migrate, ReplayCalls(env, m, d1));
  }

  lemma RowsWhenMigrated(k: Keys, d: Disk)
    requires Migrated(d)
    ensures EffectiveRows(k, d) == IndexRows(k, d)
  {
  }

  /** A startup cut short anywhere leaves exactly the work of the next one undone. */
  lemma BootCrash(env: Env, n: nat, d: Disk, p: CrashPoint)
    ensures var d' := CrashAt(d, BootCalls(env, n, d), p);
            && d'.nodes == d.nodes
            && StartupRows(env.keys, d') == StartupRows(env.keys, d)
            && (d.legacy != Some(Garbage) ==> d'.legacy != Some(Garbage))
            && (LoadIndex(env.keys, d).Ok? ==> LoadIndex(env.keys, d').Ok?)
  {
    hide MigrateCalls, ReplayCalls, IndexRows, LoadIndex, Replayed, EffectiveRows, LogEntries;
    var migrate := MigrateCalls(env, n, d);
    var d1 := Run(d, migrate);
    var m := n + Saves(migrate);
    CrashConcat(d, migrate, ReplayCalls(env, m, d1), p);
    var d' := CrashAt(d, BootCalls(env, n, d), p);
    if p.done < |migrate| {
      MigrateCrash(env, n, d, p);
      SameLog(d, d');
    } else {
      MigrateRun(env, n, d);
      SameLog(d, d1);
      var j := ReplayCrash(env, m, d1, p.(done := p.done - |migrate|));
      var log, files := LogEntries(d), d.nodes.Keys;
      var es := EffectiveRows(env.keys, d);
      RowsWhenMigrated(env.keys, d');
      if d'.wal == d.wal {
        SameLog(d, d');
        ReplayedAgain(es, log, j, files);
      } else {
        assert log[..j] == log;
        EmptyLog(d');
        ReplayedNothing(IndexRows(env.keys, d'), files);
      }
    }
  }

  // ---- Any number of interrupted startups ----

  datatype Attempt = Attempt(draw: nat, crash: CrashPoint)

  function AfterAttempts(env: Env, d: Disk, tries: seq<Attempt>): Disk
    decreases |tries|
  {
    if tries == [] then d
    else AfterAttempts(env, CrashAt(d, BootCalls(env, tries[0].draw, d), tries[0].crash), tries[1..])
  }

  lemma {:induction false} AttemptsKeepStartup(env: Env, d: Disk, tries: seq<Attempt>)
    ensures var d' := AfterAttempts(env, d, tries);
            && d'.nodes == d.nodes
            && StartupRows(env.keys, d') == StartupRows(env.keys, d)
            && (d.legacy != Some(Garbage) ==> d'.legacy != Some(Garbage))
    decreases |tries|
  {
    hide BootCalls, StartupRows, CrashAt;
    if tries != [] {
      BootCrash(env, tries[0].draw, d, tries[0].crash);
      AttemptsKeepStartup(env, CrashAt(d, BootCalls(env, tries[0].draw, d), tries[0].crash), tries[1..]);
    }
  }

  /**
   From every disk, however often startup is interrupted and wherever, the startup that completes ends with the same
   rows in the same order, the same node files, no log and, if it was readable, no legacy index, as one uninterrupted run.
   */
  lemma StartupRestartable(env: Env, d: Disk, tries: seq<Attempt>, n: nat, m: nat)
    ensures var once := Run(d, BootCalls(env, n, d));
            var d1 := AfterAttempts(env, d, tries);
            var eventually := Run(d1, BootCalls(env, m, d1));
            && IndexRows(env.keys, eventually) == IndexRows(env.keys, once)
            && eventually.nodes == once.nodes == d.nodes
            && eventually.wal == once.wal == None
            && (d.legacy != Some(Garbage) ==> eventually.legacy == once.legacy == None)
  {
    hide BootCalls, StartupRows, IndexRows, AfterAttempts, Run;
    AttemptsKeepStartup(env, d, tries);
    BootRun(env, n, d);
    BootRun(env, m, AfterAttempts(env, d, tries));
  }
}
