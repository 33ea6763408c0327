/**
 A migration of the plaintext index that fails. The store runs on, with no encrypted index; what decides whether the next
 startup still finds the legacy rows is whether anything saved an index meanwhile.
 */
module FailedMigration {
  import opened Wrappers
  import opened Text
  import opened Wal
  import opened Documents
  import opened FileSystem
  import opened StoreModel
  import opened Startup
  import opened Rows
  import opened Faults
  import opened Recovery

  predicate WrittenIn(run: seq<Event>, id: NodeId) {
    exists i :: 0 <= i < |run| && run[i].Write? && run[i].node.id == id
  }

  predicate SavedIn(run: seq<Event>) { exists i :: 0 <= i < |run| && SavesIndex(run[i]) }

  /** One event of the running store: the legacy index stays, and the index appears exactly when a save goes through. */
  lemma RunningStep(env: Env, d: Disk, ev: Event, x: NodeId)
    requires !ev.Boot? && LoadIndex(env.keys, d).Ok?
    ensures var d' := Effect(env, d, ev);
            && d'.legacy == d.legacy && LoadIndex(env.keys, d').Ok?
            && (d'.index.None? <==> d.index.None? && !SavesIndex(ev))
            && (Find(IndexRows(env.keys, d'), HexEncode(x)).Some?
                ==> Find(IndexRows(env.keys, d), HexEncode(x)).Some? || (ev.Write? && ev.node.id == x))
  {
    hide LoadIndex, IndexRows, HexEncode, Find, RowAdded, Without, Written, DeleteCalls, CrashAt, SealNode, LogText;
    hide TornAppend;
    var k := env.keys;
    match ev
    case Write(node, c, _, n) =>
      WrittenIs(env, n, d, node, c);
      RowAddedFinds(IndexRows(k, d), node.id, node.capturedAt, c.blind, x);
    case Delete(id, stop, _, n) =>
      DeletedIs(env, n, d, id, stop);
      FindWithout(IndexRows(k, d), HexEncode(id), HexEncode(x));
    case Kill =>
  }

  lemma {:induction false} RunningRun(env: Env, d: Disk, run: seq<Event>, x: NodeId)
    requires LoadIndex(env.keys, d).Ok? && forall i :: 0 <= i < |run| ==> !run[i].Boot?
    ensures var d' := Effects(env, d, run);
            && d'.legacy == d.legacy && LoadIndex(env.keys, d').Ok?
            && (d'.index.None? <==> d.index.None? && !SavedIn(run))
            && (Find(IndexRows(env.keys, d'), HexEncode(x)).Some?
                ==> Find(IndexRows(env.keys, d), HexEncode(x)).Some? || WrittenIn(run, x))
    decreases |run|
  {
    hide LoadIndex, IndexRows, HexEncode, Find, Effect, SavesIndex;
    if run != [] {
      var init, last := run[..|run| - 1], run[|run| - 1];
      RunningRun(env, d, init, x);
      RunningStep(env, Effects(env, d, init), last, x);
      SavedLast(run);
      WrittenLast(run, x);
    }
  }

  lemma SavedLast(run: seq<Event>)
    requires run != []
    ensures SavedIn(run) <==> SavedIn(run[..|run| - 1]) || SavesIndex(run[|run| - 1])
  {
    hide SavesIndex;
    var init := run[..|run| - 1];
    if i :| 0 <= i < |run| && SavesIndex(run[i]) {
      assert i < |init| ==> SavesIndex(init[i]);
    }
    if i :| 0 <= i < |init| && SavesIndex(init[i]) {
      assert SavesIndex(run[i]);
    }
  }

  lemma WrittenLast(run: seq<Event>, id: NodeId)
    requires run != []
    ensures var last := run[|run| - 1];
            WrittenIn(run, id) <==> WrittenIn(run[..|run| - 1], id) || (last.Write? && last.node.id == id)
  {
    var init := run[..|run| - 1];
    if i :| 0 <= i < |run| && run[i].Write? && run[i].node.id == id {
      assert i < |init| ==> init[i] == run[i];
    }
    if i :| 0 <= i < |init| && init[i].Write? && init[i].node.id == id {
      assert run[i] == init[i];
    }
  }

  /** A replay in the startup whose migration failed saved a row. */
  predicate ReplaySavedOne(d: Disk, t: Trouble)
    requires Fits(d, t)
  {
    exists i :: 0 <= i < |t.saves| && LogEntries(d)[i].id in d.nodes && Renamed(t.saves[i].stop, 0)
  }

  lemma {:induction false} AnySavedIs(log: seq<WalEntry>, d: Disk, ends: seq<SaveEnd>)
    requires |ends| == |log|
    ensures AnySaved(log, d, {}, ends)
       <==> exists i :: 0 <= i < |ends| && log[i].id in d.nodes && Renamed(ends[i].stop, 0)
    decreases |log|
  {
    hide Renamed, HexEncode;
    if log != [] {
      AnySavedIs(log[1..], d, ends[1..]);
      if i :| 0 <= i < |ends| && log[i].id in d.nodes && Renamed(ends[i].stop, 0) {
        if i > 0 {
          assert log[1..][i - 1] == log[i] && ends[1..][i - 1] == ends[i];
        }
      }
      if i :| 0 <= i < |ends[1..]| && log[1..][i].id in d.nodes && Renamed(ends[1..][i].stop, 0) {
        assert log[i + 1].id in d.nodes && Renamed(ends[i + 1].stop, 0);
      }
    }
  }

  lemma AfterFailedMigration(env: Env, n: nat, d: Disk, t: Trouble, x: NodeId)
    requires !Migrated(d) && !Renamed(t.migrate, 0) && Fits(d, t)
    ensures var d1 := BootStopped(env, n, d, t);
            && d1.legacy == d.legacy && LoadIndex(env.keys, d1).Ok?
            && (d1.index.None? <==> !ReplaySavedOne(d, t))
            && (Find(IndexRows(env.keys, d1), HexEncode(x)).Some? ==> Named(LogEntries(d), x))
  {
    hide LogEntries, LoadIndex, IndexRows, EffectiveRows, RowsThrough, RowThrough, BootStopped, HexEncode, Find, Renamed;
    hide AnySaved, Named;
    var log := LogEntries(d);
    BootStoppedIs(env, n, d, t);
    NoIndexNoRows(env.keys, d);
    NothingKnown(t.blind);
    AnySavedIs(log, d, t.saves);
    FindNothing(HexEncode(x));
    RowsThroughFinds([], log, d, {}, t.saves, x);
    if !Named(log, x) {
      UnnamedGetsNoRow(log, d, {}, t.saves, x);
    }
  }

  lemma NothingKnown(blind: bool)
    ensures KnownIds([], blind) == {}
  {
  }

  /**
   A startup fails to migrate; the store then runs as it may; then a startup completes. It works from the legacy rows exactly
   if no index save went through in between, neither in the replay of the first startup nor by a write or a delete; and
   otherwise only the nodes that a log names or that were written in between have a row. Either way the legacy index is gone.
   */
  lemma LegacyRowsSurvive(env: Env, n: nat, d: Disk, es: seq<IndexEntry>, t: Trouble, run: seq<Event>, m: nat,
                          x: NodeId)
    requires d.index.None? && d.legacy == Some(Listed(es)) && !Renamed(t.migrate, 0) && Fits(d, t)
    requires forall i :: 0 <= i < |run| ==> !run[i].Boot?
    ensures var d2 := Effects(env, BootStopped(env, n, d, t), run);
            var d3 := Run(d2, BootCalls(env, m, d2));
            var unsaved := !ReplaySavedOne(d, t) && !SavedIn(run);
            && (d2.index.None? <==> unsaved)
            && d3.legacy.None?
            && (unsaved ==> IndexRows(env.keys, d3) == Replayed(es, LogEntries(d2), d2.nodes.Keys))
            && (!unsaved && Find(IndexRows(env.keys, d3), HexEncode(x)).Some?
                ==> Named(LogEntries(d), x) || WrittenIn(run, x) || Named(LogEntries(d2), x))
  {
    hide LogEntries, LoadIndex, IndexRows, Replayed, BootStopped, HexEncode, Find, Renamed, Effects, BootCalls, Run;
    hide ReplaySavedOne, SavedIn, WrittenIn, FirstLogged, Named;
    var k := env.keys;
    var d1 := BootStopped(env, n, d, t);
    var d2 := Effects(env, d1, run);
    AfterFailedMigration(env, n, d, t, x);
    RunningRun(env, d1, run, x);
    BootRun(env, m, d2);
    ReplayedFinds(EffectiveRows(k, d2), LogEntries(d2), d2.nodes.Keys, x);
    FirstLoggedIs(LogEntries(d2), x);
  }

  /** For a legacy row that nothing else speaks of, this is the exact condition. */
  lemma LegacyRowSurvivesExactly(env: Env, n: nat, d: Disk, es: seq<IndexEntry>, t: Trouble, run: seq<Event>, m: nat,
                                 x: NodeId)
    requires d.index.None? && d.legacy == Some(Listed(es)) && !Renamed(t.migrate, 0) && Fits(d, t)
    requires forall i :: 0 <= i < |run| ==> !run[i].Boot?
    requires Find(es, HexEncode(x)).Some? && !Named(LogEntries(d), x) && !WrittenIn(run, x)
    requires !Named(LogEntries(Effects(env, BootStopped(env, n, d, t), run)), x)
    ensures var d2 := Effects(env, BootStopped(env, n, d, t), run);
            Find(IndexRows(env.keys, Run(d2, BootCalls(env, m, d2))), HexEncode(x)).Some?
            <==> !ReplaySavedOne(d, t) && !SavedIn(run)
  {
    hide LogEntries, LoadIndex, IndexRows, Replayed, BootStopped, HexEncode, Find, Renamed, Effects, BootCalls, Run;
    hide ReplaySavedOne, SavedIn, WrittenIn, FirstLogged, Named;
    var d2 := Effects(env, BootStopped(env, n, d, t), run);
    LegacyRowsSurvive(env, n, d, es, t, run, m, x);
    ReplayedFinds(es, LogEntries(d2), d2.nodes.Keys, x);
  }

  // ---- Two inputs on which the legacy rows are lost ----

  /** No log and a write: after the next startup only the new node has a row. */
  lemma WriteForgetsLegacy(env: Env, d: Disk, es: seq<IndexEntry>, node: MemoryNode, n: nat, m: nat)
    requires d.wal.None? && d.index.None? && d.legacy == Some(Listed(es))
    ensures var line := LogLine(node.id, node.capturedAt);
            var d1 := Effect(env, d, Write(node, Course(Some(|line|), false, CrashPoint(3, None)), true, n));
            var d2 := Run(d1, BootCalls(env, m, d1));
            IndexRows(env.keys, d2) == [IndexEntry(HexEncode(node.id), node.capturedAt)] && d2.legacy.None?
  {
    hide HexEncode, LoadIndex, IndexRows, Written, Run, BootCalls, Replayed, SealNode, TornAppend, Parse, PrintLine;
    var k, id, e := env.keys, node.id, WalEntry(node.id, node.capturedAt);
    var c := Course(Some(|LogLine(id, node.capturedAt)|), false, CrashPoint(3, None));
    var d1 := Written(env, n, d, node, c);
    WrittenIs(env, n, d, node, c);
    NoIndexNoRows(k, d);
    FindNothing(HexEncode(id));
    TornAppendIs(d, id, node.capturedAt, c.cut);
    assert "" + PrintLine(e)[..|PrintLine(e)|] == PrintLine(e);
    ParsePrintedLine(e);
    LogIsParsed(d1);
    BootRun(env, m, d1);
    RowsWhenMigrated(k, d1);
    var row := IndexEntry(HexEncode(id), node.capturedAt);
    assert AddRow([], id, node.capturedAt) == [row];
    assert row in [row];
    hide AddRow;
    CoveredReplay([row], [e], d1.nodes.Keys);
  }

  /** No log and a delete, of whatever id: after the next startup there is no row at all. */
  lemma DeleteForgetsLegacy(env: Env, d: Disk, es: seq<IndexEntry>, id: NodeId, n: nat, m: nat)
    requires d.wal.None? && d.index.None? && d.legacy == Some(Listed(es))
    ensures var d1 := Effect(env, d, Delete(id, CrashPoint(3, None), true, n));
            var d2 := Run(d1, BootCalls(env, m, d1));
            IndexRows(env.keys, d2) == [] && d2.legacy.None?
  {
    hide HexEncode, LoadIndex, IndexRows, DeleteCalls, CrashAt, Run, BootCalls, LogEntries, Replayed;
    var k, ev := env.keys, Delete(id, CrashPoint(3, None), true, n);
    var d1 := Effect(env, d, ev);
    NoIndexNoRows(k, d);
    DeletedIs(env, n, d, id, CrashPoint(3, None));
    EmptyLog(d1);
    BootRun(env, m, d1);
    RowsWhenMigrated(k, d1);
    ReplayedNothing([], d1.nodes.Keys);
  }
}
