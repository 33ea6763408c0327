/**
 The store in plain terms: operations that make their system calls one after the other, and crashes that stop them between two
 calls or inside one. Every such life is one of Recovery, without the failures that cost a node its row.
 */
module CrashLives {
  import opened Wrappers
  import opened Wal
  import opened Fragments
  import opened Documents
  import opened Encrypt
  import opened FileSystem
  import opened StoreModel
  import opened Startup
  import opened Faults
  import opened History
  import opened Recovery

  datatype Op = StartUp | Put(node: MemoryNode) | Drop(id: NodeId)

  /** An operation, the point where it stops, and whether the process is killed after it. It draws its nonces from `draw` on. */
  datatype Act = Act(op: Op, stop: CrashPoint, killed: bool, draw: nat)

  function Calls(env: Env, d: Disk, a: Act): seq<Syscall> {
    match a.op
    case StartUp => BootCalls(env, a.draw, d)
    case Put(node) => WriteCalls(env, a.draw, d, node)
    case Drop(id) => DeleteCalls(env, a.draw, d, id)
  }

  function DiskAfter(env: Env, acts: seq<Act>): Disk {
    if acts == [] then EMPTY_DISK
    else
      var d, last := DiskAfter(env, acts[..|acts| - 1]), acts[|acts| - 1];
      CrashAt(d, Calls(env, d, last), last.stop)
  }

  /** The last operation made all its calls and the process lives on. */
  predicate Running(env: Env, acts: seq<Act>) {
    && acts != []
    && var last := acts[|acts| - 1];
       !last.killed && last.stop.done >= |Calls(env, DiskAfter(env, acts[..|acts| - 1]), last)|
  }

  /** A process begins with a startup and does so once; ids are fresh. */
  predicate Lawful(env: Env, acts: seq<Act>) {
    && (forall i :: 0 <= i < |acts| ==> (acts[i].op.StartUp? <==> !Running(env, acts[..i])))
    && (forall i, j :: 0 <= i < j < |acts| && acts[i].op.Put? && acts[j].op.Put? ==> acts[i].op.node.id != acts[j].op.node.id)
  }

  // ---- Each is an event of a life ----

  const START := State(EMPTY_DISK, NO_HISTORY, false)

  /** The event is this operation. */
  predicate Performs(ev: Event, a: Act) {
    match a.op
    case StartUp => ev.Boot? && ev.draw == a.draw
    case Put(node) => ev.Write? && ev.node == node && ev.draw == a.draw && (a.stop.done >= 2 ==> ev.course.stop.done >= 1)
    case Drop(id) => ev.Delete? && ev.id == id && ev.stop == a.stop && ev.draw == a.draw
  }

  lemma StartUpEvent(env: Env, s: State, a: Act) returns (ev: Event)
    requires a.op.StartUp? && !s.up
    ensures Performs(ev, a) && Allowed(s, ev) && Safe(s, ev)
    ensures Effect(env, s.disk, ev) == CrashAt(s.disk, Calls(env, s.disk, a), a.stop)
    ensures Survives(ev) <==> !a.killed && a.stop.done >= |Calls(env, s.disk, a)|
    ensures Survives(ev) ==> Completes(s, ev)
  {
    hide BootStopped, BootCalls, CrashAt, LogEntries, Fragment, LogText, Migrated;
    var t := CutStartupIsStopped(env, a.draw, s.disk, a.stop);
    ev := Boot(t, !a.killed && a.stop.done >= |BootCalls(env, a.draw, s.disk)|, a.draw);
  }

  lemma PutEvent(env: Env, s: State, a: Act) returns (ev: Event)
    requires a.op.Put? && s.up && a.op.node.id !in s.history.begun
    ensures Performs(ev, a) && Allowed(s, ev) && Safe(s, ev)
    ensures Effect(env, s.disk, ev) == CrashAt(s.disk, Calls(env, s.disk, a), a.stop)
    ensures Survives(ev) <==> !a.killed && a.stop.done >= |Calls(env, s.disk, a)|
  {
    WriteTakesTwo(env, a.draw, s.disk, a.op.node);
    hide Written, WriteCalls, CrashAt, PrintLine;
    var c := CutWriteIsWritten(env, a.draw, s.disk, a.op.node, a.stop);
    ev := Write(a.op.node, c, !a.killed && a.stop.done >= |WriteCalls(env, a.draw, s.disk, a.op.node)|, a.draw);
  }

  lemma WriteTakesTwo(env: Env, n: nat, d: Disk, node: MemoryNode)
    ensures |WriteCalls(env, n, d, node)| >= 2
  {
    hide AppendIndexCalls, SealNode, LogLine;
  }

  lemma DropEvent(env: Env, s: State, a: Act) returns (ev: Event)
    requires a.op.Drop? && s.up
    ensures Performs(ev, a) && Allowed(s, ev) && Safe(s, ev)
    ensures Effect(env, s.disk, ev) == CrashAt(s.disk, Calls(env, s.disk, a), a.stop)
    ensures Survives(ev) <==> !a.killed && a.stop.done >= |Calls(env, s.disk, a)|
  {
    hide DeleteCalls, CrashAt;
    ev := Delete(a.op.id, a.stop, !a.killed && a.stop.done >= |DeleteCalls(env, a.draw, s.disk, a.op.id)|, a.draw);
  }

  lemma AnEvent(env: Env, s: State, a: Act) returns (ev: Event)
    requires a.op.StartUp? <==> !s.up
    requires a.op.Put? ==> a.op.node.id !in s.history.begun
    ensures Performs(ev, a) && Allowed(s, ev) && Safe(s, ev)
    ensures Effect(env, s.disk, ev) == CrashAt(s.disk, Calls(env, s.disk, a), a.stop)
    ensures Survives(ev) <==> !a.killed && a.stop.done >= |Calls(env, s.disk, a)|
    ensures ev.Boot? && Survives(ev) ==> Completes(s, ev)
  {
    hide Performs, Allowed, Safe, Effect, Calls, Survives, Completes, CrashAt;
    match a.op
    case StartUp => ev := StartUpEvent(env, s, a);
    case Put(_) =>
      ev := PutEvent(env, s, a);
      PerformsPut(ev, a);
    case Drop(_) =>
      ev := DropEvent(env, s, a);
      PerformsDrop(ev, a);
  }

  lemma PerformsPut(ev: Event, a: Act)
    requires Performs(ev, a) && a.op.Put?
    ensures ev.Write?
  {
  }

  lemma PerformsDrop(ev: Event, a: Act)
    requires Performs(ev, a) && a.op.Drop?
    ensures ev.Delete?
  {
  }

  // ---- The whole life ----

  predicate PutIn(acts: seq<Act>, id: NodeId) { exists i :: 0 <= i < |acts| && acts[i].op.Put? && acts[i].op.node.id == id }

  predicate DropIn(acts: seq<Act>, id: NodeId) { exists i :: 0 <= i < |acts| && acts[i].op == Drop(id) }

  /** What the history has of these operations. */
  ghost predicate Recorded(env: Env, h: History, acts: seq<Act>) {
    && (forall id :: id in h.begun <==> PutIn(acts, id))
    && (forall i :: 0 <= i < |acts| && acts[i].op.Put? ==>
          var node := acts[i].op.node;
          && node.id in h.begun && h.begun[node.id] == Sealed(node.(schemaVersion := 1), env.rand(acts[i].draw))
          && (acts[i].stop.done >= 2 ==> node.id in h.stored))
    && (forall id :: id in h.deleting ==> DropIn(acts, id))
  }

  lemma RecordedMore(env: Env, h: History, acts: seq<Act>, a: Act, ev: Event)
    requires Recorded(env, h, acts) && Performs(ev, a) && (a.op.Put? ==> a.op.node.id !in h.begun)
    ensures Recorded(env, Record(env, h, ev), acts + [a])
  {
    var all := acts + [a];
    var h' := Record(env, h, ev);
    forall id
      ensures PutIn(all, id) <==> PutIn(acts, id) || (a.op.Put? && a.op.node.id == id)
      ensures DropIn(all, id) <==> DropIn(acts, id) || a.op == Drop(id)
    {
      PutMore(acts, a, id);
    }
    hide PutIn, DropIn;
    forall i | 0 <= i < |all| && all[i].op.Put?
      ensures var node := all[i].op.node;
              && node.id in h'.begun && h'.begun[node.id] == Sealed(node.(schemaVersion := 1), env.rand(all[i].draw))
              && (all[i].stop.done >= 2 ==> node.id in h'.stored)
    {
      assert i < |acts| ==> all[i] == acts[i];
    }
  }

  lemma PutMore(acts: seq<Act>, a: Act, id: NodeId)
    ensures PutIn(acts + [a], id) <==> PutIn(acts, id) || (a.op.Put? && a.op.node.id == id)
    ensures DropIn(acts + [a], id) <==> DropIn(acts, id) || a.op == Drop(id)
  {
    var all := acts + [a];
    assert all[|acts|] == a && forall i :: 0 <= i < |acts| ==> all[i] == acts[i];
  }

  lemma LawfulStart(env: Env, acts: seq<Act>, n: nat)
    requires Lawful(env, acts) && n <= |acts|
    ensures Lawful(env, acts[..n])
  {
    hide Running;
    forall i | 0 <= i < n
      ensures acts[..n][i].op.StartUp? <==> !Running(env, acts[..n][..i])
    {
      assert acts[..n][..i] == acts[..i];
    }
  }

  lemma {:induction false} AllSafeMore(env: Env, s: State, run: seq<Event>, ev: Event)
    requires AllSafe(env, s, run) && Safe(After(env, s, run), ev)
    ensures AllSafe(env, s, run + [ev])
    decreases |run|
  {
    hide Safe, Next;
    if run == [] {
      assert [] + [ev] == [ev] && [ev][1..] == [];
      assert AllSafe(env, Next(env, s, ev), []);
    } else {
      assert (run + [ev])[1..] == run[1..] + [ev];
      AllSafeMore(env, Next(env, s, run[0]), run[1..], ev);
    }
  }

  /** Such a life is a safe one of Recovery, event by event. */
  lemma {:induction false} ALife(env: Env, acts: seq<Act>) returns (run: seq<Event>)
    requires Lawful(env, acts)
    ensures |run| == |acts| && forall i :: 0 <= i < |acts| ==> Performs(run[i], acts[i])
    ensures AllAllowed(env, START, run) && AllSafe(env, START, run)
    ensures var t := After(env, START, run);
            t.disk == DiskAfter(env, acts) && (t.up <==> Running(env, acts)) && Recorded(env, t.history, acts)
    ensures acts != [] && acts[|acts| - 1].op.StartUp? && Running(env, acts) ==>
              Completes(After(env, START, run[..|acts| - 1]), run[|acts| - 1])
    decreases |acts|
  {
    hide Performs, Allowed, Safe, Effect, Calls, Survives, Completes, CrashAt, Record, Recorded, Running, Lawful;
    if acts == [] {
      NothingRecorded(env);
      return [];
    }
    var init, last := acts[..|acts| - 1], acts[|acts| - 1];
    LawfulStart(env, acts, |init|);
    var before := ALife(env, init);
    var s := After(env, START, before);
    LawfulLast(env, acts, s);
    var ev := AnEvent(env, s, last);
    run := before + [ev];
    assert run[..|init|] == before && init + [last] == acts;
    RecordedMore(env, s.history, init, last, ev);
    AllSafeMore(env, START, before, ev);
    LastEvent(env, START, run);
    hide After, AllAllowed, AllSafe;
    RunningIs(env, acts);
    StartsCompletely(ev, last);
  }

  lemma NothingRecorded(env: Env)
    ensures Recorded(env, NO_HISTORY, []) && !Running(env, [])
  {
  }

  lemma LawfulLast(env: Env, acts: seq<Act>, s: State)
    requires acts != [] && Lawful(env, acts)
    requires (s.up <==> Running(env, acts[..|acts| - 1])) && Recorded(env, s.history, acts[..|acts| - 1])
    ensures var last := acts[|acts| - 1];
            (last.op.StartUp? <==> !s.up) && (last.op.Put? ==> last.op.node.id !in s.history.begun)
  {
    hide Running;
  }

  lemma RunningIs(env: Env, acts: seq<Act>)
    requires acts != []
    ensures var d, last := DiskAfter(env, acts[..|acts| - 1]), acts[|acts| - 1];
            && (Running(env, acts) <==> !last.killed && last.stop.done >= |Calls(env, d, last)|)
            && DiskAfter(env, acts) == CrashAt(d, Calls(env, d, last), last.stop)
  {
    hide Calls, CrashAt;
  }

  lemma StartsCompletely(ev: Event, a: Act)
    requires Performs(ev, a)
    ensures a.op.StartUp? ==> ev.Boot?
  {
  }

  /** After a startup a put node reads exactly if its file is whole, wherever the crashes came. */
  lemma PutReadsExactly(env: Env, acts: seq<Act>, i: nat)
    requires Lawful(env, acts) && acts != [] && acts[|acts| - 1].op.StartUp? && Running(env, acts)
    requires i < |acts| && acts[i].op.Put?
    ensures var node, d := acts[i].op.node, DiskAfter(env, acts);
            var stamped := node.(schemaVersion := 1);
            Read(env.keys, d, node.id) == Ok(stamped)
            <==> && node.id in d.nodes
                 && d.nodes[node.id] == Seal(env.keys, node.id, node.capturedAt, env.rand(acts[i].draw), NodeDoc(stamped))
    ensures acts[i].stop.done >= 2 && !DropIn(acts, acts[i].op.node.id) ==>
              Read(env.keys, DiskAfter(env, acts), acts[i].op.node.id) == Ok(acts[i].op.node.(schemaVersion := 1))
  {
    hide Performs, Running, Lawful, Completes, Good, Tidy, After, AllAllowed, AllSafe, Read, Forgotten, DiskAfter, DropIn;
    hide PutIn, Timeless, Seal;
    var run := ALife(env, acts);
    FreshStoreGood(env);
    SafeLifeForgetsNobody(env, START, run);
    var before, last := run[..|run| - 1], run[|run| - 1];
    assert before + [last] == run;
    Recovers(env, START, before, last);
    TidyForgetsNobody(env, After(env, START, run), acts[i].op.node.id);
  }

  /** So a node whose log line and file were written is there, with every field, after the next startup, unless it was dropped. */
  lemma PutReadsBack(env: Env, acts: seq<Act>, i: nat)
    requires Lawful(env, acts) && acts != [] && acts[|acts| - 1].op.StartUp? && Running(env, acts)
    requires i < |acts| && acts[i].op.Put? && acts[i].stop.done >= 2
    requires forall j :: 0 <= j < |acts| ==> acts[j].op != Drop(acts[i].op.node.id)
    ensures var node := acts[i].op.node;
            Read(env.keys, DiskAfter(env, acts), node.id) == Ok(node.(schemaVersion := 1))
  {
    hide Running, Lawful, Read, DiskAfter;
    PutReadsExactly(env, acts, i);
  }

  /** A dropped node is never read again, once its file was removed. */
  lemma DroppedNeverReads(env: Env, acts: seq<Act>, i: nat, j: nat)
    requires Lawful(env, acts)
    requires i < j < |acts| && acts[i].op.Put? && acts[j].op == Drop(acts[i].op.node.id) && acts[j].stop.done >= 1
    ensures Read(env.keys, DiskAfter(env, acts), acts[i].op.node.id).Err?
  {
    hide Running, Lawful, Good, Tidy, After, AllAllowed, AllSafe, Read, DiskAfter, DropIn, Allowed, Recorded;
    var run := ALife(env, acts);
    var id, ev := acts[i].op.node.id, run[j];
    assert Performs(run[i], acts[i]) && Performs(ev, acts[j]);
    FreshStoreGood(env);
    var before, later := run[..j], run[j + 1..];
    assert before + ([ev] + later) == run;
    AfterConcat(env, START, before, [ev] + later);
    RunKeepsGood(env, START, before);
    PutBegins(env, before, i);
    assert ev == Delete(id, ev.stop, ev.alive, ev.draw);
    CutDeleteNeverReads(env, After(env, START, before), id, ev.stop, ev.alive, ev.draw, later);
  }

  lemma {:induction false} PutBegins(env: Env, run: seq<Event>, i: nat)
    requires i < |run| && run[i].Write?
    ensures run[i].node.id in After(env, START, run).history.begun
    decreases |run|
  {
    hide Effect, Survives, After;
    LastEvent(env, START, run);
    var init, last := run[..|run| - 1], run[|run| - 1];
    if i < |init| {
      PutBegins(env, init, i);
      BegunStays(env, After(env, START, init), last, run[i].node.id);
    }
  }

  /** Whatever is read was put, and reads as it was put. */
  lemma ReadWasPut(env: Env, acts: seq<Act>, id: NodeId) returns (i: nat)
    requires Lawful(env, acts) && Read(env.keys, DiskAfter(env, acts), id).Ok?
    ensures i < |acts| && acts[i].op.Put? && acts[i].op.node.id == id
    ensures Read(env.keys, DiskAfter(env, acts), id) == Ok(acts[i].op.node.(schemaVersion := 1))
  {
    hide Performs, Running, Lawful, Good, Tidy, After, AllAllowed, AllSafe, DiskAfter, DropIn, Whole, RowTime;
    var run := ALife(env, acts);
    FreshStoreGood(env);
    RunKeepsGood(env, START, run);
    var t := After(env, START, run);
    ReadHasFile(env.keys, t.disk, id);
    hide Read;
    GoodFiles(env, t, id);
    ReadExactly(env, t, id);
    i :| 0 <= i < |acts| && acts[i].op.Put? && acts[i].op.node.id == id;
  }

  lemma ReadHasFile(k: Keys, d: Disk, id: NodeId)
    requires Read(k, d, id).Ok?
    ensures id in d.nodes
  {
  }
}
