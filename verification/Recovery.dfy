/**
 Whole lives of the store, in which every call may fail at any time: what survives, what never comes back, and which nodes
 a failure costs.
 */
module Recovery {
  import opened Wrappers
  import opened Text
  import opened Wal
  import opened Fragments
  import opened Documents
  import opened Encrypt
  import opened FileSystem
  import opened StoreModel
  import opened Startup
  import opened Rows
  import opened Faults
  import opened History

  // ---- Events and runs ----

  /**
   `alive` says that the process goes on; if it does not, the operation ended in a crash. `draw` is where in the random
   source an operation starts to draw nonces. A startup that is cut short is one whose later calls all failed.
   */
  datatype Event =
    | Boot(trouble: Trouble, alive: bool, draw: nat)
    | Kill
    | Write(node: MemoryNode, course: Course, alive: bool, draw: nat)
    | Delete(id: NodeId, stop: CrashPoint, alive: bool, draw: nat)

  datatype State = State(disk: Disk, history: History, up: bool)

  /** Ids are fresh. Nothing else is asked of an event: any of its calls may fail. */
  predicate Allowed(s: State, ev: Event) {
    match ev
    case Boot(t, _, _) => !s.up && Fits(s.disk, t)
    case Kill => s.up
    case Write(node, _, _, _) => s.up && node.id !in s.history.begun
    case Delete(_, _, _, _) => s.up
  }

  /** What an event does to the disk. */
  function Effect(env: Env, d: Disk, ev: Event): Disk {
    match ev
    case Boot(t, _, n) => if Fits(d, t) then BootStopped(env, n, d, t) else d
    case Kill => d
    case Write(node, c, _, n) => Written(env, n, d, node, c)
    case Delete(id, stop, _, n) => CrashAt(d, DeleteCalls(env, n, d, id), stop)
  }

  function Record(env: Env, h: History, ev: Event): History {
    match ev
    case Write(node, c, _, n) => RecordWrite(env, n, h, node, c)
    case Delete(id, stop, _, _) => RecordDelete(h, id, stop)
    case _ => h
  }

  predicate Survives(ev: Event) {
    match ev
    case Boot(_, alive, _) => alive
    case Kill => false
    case Write(_, _, alive, _) => alive
    case Delete(_, _, alive, _) => alive
  }

  /** The index save of a write or a delete went through. */
  predicate SavesIndex(ev: Event) {
    (ev.Write? && Renamed(ev.course.stop, 1)) || (ev.Delete? && Renamed(ev.stop, 1))
  }

  function Next(env: Env, s: State, ev: Event): State {
    State(Effect(env, s.disk, ev), Record(env, s.history, ev), Survives(ev))
  }

  function After(env: Env, s: State, run: seq<Event>): State
    decreases |run|
  {
    if run == [] then s else After(env, Next(env, s, run[0]), run[1..])
  }

  predicate AllAllowed(env: Env, s: State, run: seq<Event>)
    decreases |run|
  {
    run == [] || (Allowed(s, run[0]) && AllAllowed(env, Next(env, s, run[0]), run[1..]))
  }

  ghost predicate Good(env: Env, s: State) { Inv(env.keys, s.disk, s.history) }

  lemma StepKeepsGood(env: Env, s: State, ev: Event)
    requires Good(env, s) && Allowed(s, ev)
    ensures Good(env, Next(env, s, ev))
  {
    hide Inv, Written, DeleteCalls, CrashAt, BootStopped, RecordWrite, RecordDelete;
    match ev
    case Boot(t, _, n) => BootKeepsInv(env, n, s.disk, s.history, t);
    case Kill =>
    case Write(node, c, _, n) => WriteKeepsInv(env, n, s.disk, s.history, node, c);
    case Delete(id, stop, _, n) => DeleteKeepsInv(env, n, s.disk, s.history, id, stop);
  }

  /** At every moment of every life of the store the invariant holds. */
  lemma {:induction false} RunKeepsGood(env: Env, s: State, run: seq<Event>)
    requires Good(env, s) && AllAllowed(env, s, run)
    ensures Good(env, After(env, s, run))
    decreases |run|
  {
    hide Good, Next, Allowed;
    if run != [] {
      StepKeepsGood(env, s, run[0]);
      RunKeepsGood(env, Next(env, s, run[0]), run[1..]);
    }
  }

  lemma {:induction false} AfterConcat(env: Env, s: State, a: seq<Event>, b: seq<Event>)
    ensures After(env, s, a + b) == After(env, After(env, s, a), b)
    ensures AllAllowed(env, s, a + b) <==> AllAllowed(env, s, a) && AllAllowed(env, After(env, s, a), b)
    decreases |a|
  {
    hide Next, Allowed;
    if a == [] {
      assert a + b == b;
    } else {
      assert (a + b)[1..] == a[1..] + b;
      AfterConcat(env, Next(env, s, a[0]), a[1..], b);
    }
  }

  lemma OneEvent(env: Env, s: State, ev: Event)
    ensures After(env, s, [ev]) == Next(env, s, ev)
    ensures AllAllowed(env, s, [ev]) <==> Allowed(s, ev)
  {
    hide Next, Allowed;
    assert [ev][1..] == [];
    assert After(env, Next(env, s, ev), []) == Next(env, s, ev);
  }

  lemma LastEvent(env: Env, s: State, run: seq<Event>)
    requires run != []
    ensures var init, last := run[..|run| - 1], run[|run| - 1];
            && After(env, s, run) == Next(env, After(env, s, init), last)
            && (AllAllowed(env, s, run) <==> AllAllowed(env, s, init) && Allowed(After(env, s, init), last))
  {
    hide Next, Allowed, After, AllAllowed;
    var init, last := run[..|run| - 1], run[|run| - 1];
    assert init + [last] == run;
    AfterConcat(env, s, init, [last]);
    OneEvent(env, After(env, s, init), last);
  }

  /** What a run does to the disk; the history is only for stating theorems. */
  function Effects(env: Env, d: Disk, run: seq<Event>): Disk {
    if run == [] then d else Effect(env, Effects(env, d, run[..|run| - 1]), run[|run| - 1])
  }

  lemma {:induction false} AfterDisk(env: Env, s: State, run: seq<Event>)
    ensures After(env, s, run).disk == Effects(env, s.disk, run)
    decreases |run|
  {
    hide Effect, Record, Survives;
    if run != [] {
      AfterDisk(env, s, run[..|run| - 1]);
      LastEvent(env, s, run);
    }
  }

  // ---- Files ----

  /** No step ever restores or alters the file of a write that began earlier. */
  lemma StepFrame(env: Env, s: State, ev: Event, id: NodeId)
    requires Good(env, s) && Allowed(s, ev) && id in s.history.begun
    ensures var t := Next(env, s, ev);
            && id in t.history.begun && t.history.begun[id] == s.history.begun[id]
            && (id in t.disk.nodes ==> id in s.disk.nodes && t.disk.nodes[id] == s.disk.nodes[id])
  {
    hide Inv, BootStopped, Written, DeleteCalls, CrashAt, LoadIndex, IndexRows, RowsThrough, RowAdded, Without, LogText;
    hide SealNode, EffectiveRows, HexEncode, AnySaved, KnownIds, TornAppend;
    match ev
    case Boot(t, _, n) => BootStoppedIs(env, n, s.disk, t);
    case Kill =>
    case Write(node, c, _, n) => WrittenIs(env, n, s.disk, node, c);
    case Delete(x, stop, _, n) =>
      InvRows(env.keys, s.disk, s.history);
      DeletedIs(env, n, s.disk, x, stop);
  }

  /** The file of a begun write is there and whole. */
  predicate Whole(k: Keys, s: State, id: NodeId) {
    id in s.history.begun && id in s.disk.nodes && s.disk.nodes[id] == SealedBlob(k, s.history.begun[id])
  }

  function TimeOf(h: History, id: NodeId): int64
    requires id in h.begun
  {
    h.begun[id].node.capturedAt
  }

  // ---- Reading ----

  /** A record of a node, or a part of one: it reads exactly when it is whole and its row has the right timestamp. */
  lemma RecordReads(k: Keys, d: Disk, node: MemoryNode, nonce: Nonce)
    requires var blob := Seal(k, node.id, node.capturedAt, nonce, NodeDoc(node));
             node.id in d.nodes ==> d.nodes[node.id] <= blob
    ensures var blob := Seal(k, node.id, node.capturedAt, nonce, NodeDoc(node));
            var r := Read(k, d, node.id);
            && (r.Ok? ==> r.value == node)
            && (r.Ok? <==> node.id in d.nodes && d.nodes[node.id] == blob && RowTime(k, d, node.id) == node.capturedAt)
  {
    hide RowTime, Open, Seal;
    var id, ts := node.id, RowTime(k, d, node.id);
    var blob := Seal(k, id, node.capturedAt, nonce, NodeDoc(node));
    if id in d.nodes {
      if d.nodes[id] == blob {
        OpenSeal(k, id, node.capturedAt, nonce, NodeDoc(node));
        OpenBinds(k, id, node.capturedAt, nonce, NodeDoc(node), k, id, ts);
      } else {
        assert d.nodes[id] == blob[..|d.nodes[id]|];
        CutRecordNeverOpens(k, id, node.capturedAt, nonce, NodeDoc(node), |d.nodes[id]|, k, id, ts);
      }
    }
  }

  /**
   A read returns what was written, or an error; and it returns it exactly when the file is whole and its row has the
   timestamp it was sealed with (or it has none and is sealed at the instant a missing row stands for).
   */
  lemma ReadExactly(env: Env, s: State, id: NodeId)
    requires Good(env, s) && id in s.history.begun
    ensures var r := Read(env.keys, s.disk, id);
            && (r.Ok? ==> r.value == s.history.begun[id].node)
            && (r.Ok? <==> Whole(env.keys, s, id) && RowTime(env.keys, s.disk, id) == TimeOf(s.history, id))
  {
    hide Inv, Read, RowTime, Seal;
    FilePrefix(env.keys, s.disk, s.history, id);
    RecordReads(env.keys, s.disk, s.history.begun[id].node, s.history.begun[id].nonce);
  }

  // ---- Forgotten nodes ----

  /** A node whose file is there, but whose row after the next startup would not be the one it needs to be read. */
  predicate Forgotten(k: Keys, s: State, id: NodeId) {
    id in s.history.begun && id in s.disk.nodes && DueRow(k, s.disk, id) != Some(TimeOf(s.history, id))
  }

  /** What an event makes of the row to come, computed from the disk before it. */
  function DueAfter(k: Keys, d: Disk, ev: Event, id: NodeId): Option<int64> {
    match ev
    case Kill => DueRow(k, d, id)
    case Boot(t, _, _) =>
      if Fits(d, t) then LogRow(RowAfterBoot(k, d, t, id), if t.removed then [] else LogEntries(d), id in d.nodes, id)
      else DueRow(k, d, id)
    case Write(node, c, _, _) =>
      LogRow(RowAfterWrite(k, d, node, c, id), LogAfterWrite(d, node, c.cut),
             id in d.nodes || (id == node.id && FileLeft(c.stop)), id)
    case Delete(gone, stop, _, _) =>
      LogRow(RowAfterDelete(k, d, gone, stop, id), LogEntries(d), id in d.nodes && !(id == gone && FileGone(stop)), id)
  }

  /** Whether the file is there after it. */
  predicate ThereAfter(d: Disk, ev: Event, id: NodeId) {
    match ev
    case Write(node, c, _, _) => id in d.nodes || (id == node.id && FileLeft(c.stop))
    case Delete(gone, stop, _, _) => id in d.nodes && !(id == gone && FileGone(stop))
    case _ => id in d.nodes
  }

  /** Whatever fails in it, every event leaves exactly this row to come. */
  lemma DueAfterExactly(env: Env, s: State, ev: Event, id: NodeId)
    requires Good(env, s) && Allowed(s, ev)
    ensures DueRow(env.keys, Next(env, s, ev).disk, id) == DueAfter(env.keys, s.disk, ev, id)
    ensures id in Next(env, s, ev).disk.nodes <==> ThereAfter(s.disk, ev, id)
  {
    hide Inv, BootStopped, Written, DeleteCalls, CrashAt, DueRow, LogRow, RowAfterBoot, RowAfterWrite, RowAfterDelete;
    hide LogAfterWrite, LogEntries, LoadIndex, IndexRows, RowsThrough, EffectiveRows, HexEncode, AnySaved, KnownIds;
    match ev
    case Boot(t, _, n) =>
      BootDue(env, n, s.disk, t, id);
      BootStoppedIs(env, n, s.disk, t);
    case Kill =>
    case Write(node, c, _, n) => WriteDue(env, n, s.disk, node, c, id);
    case Delete(gone, stop, _, n) =>
      InvRows(env.keys, s.disk, s.history);
      DeleteDue(env, n, s.disk, gone, stop, id);
  }

  /** Part of a line that may stand for all of it: nothing but its line break is missing, and no fragment is before it. */
  predicate Logs(d: Disk, node: MemoryNode, cut: Option<nat>) {
    Fragment(LogText(d)) == "" && cut.GetOr(0) >= |Body(WalEntry(node.id, node.capturedAt))|
  }

  /** The save of the write drops everyone else's row. */
  predicate Wipes(d: Disk, c: Course) { Renamed(c.stop, 1) && (c.blind || !Migrated(d)) }

  /**
   The event costs the node, which was not forgotten, its row to come.

   A startup costs it if it ends with a wrong row, or without one and without the log entry. A write costs its own node if
   it leaves a file, does not save the row and does not log it, be it that the append failed or that the line was glued to a
   fragment; and others without a row, or whose row it wipes, if the log with what was appended to it does not give their
   time. A delete costs others only before the migration, by saving an empty index.
   */
  predicate Costs(env: Env, s: State, ev: Event, id: NodeId)
    requires id in Next(env, s, ev).history.begun
  {
    var k, d, ts := env.keys, s.disk, TimeOf(Next(env, s, ev).history, id);
    match ev
    case Kill => false
    case Boot(t, _, _) =>
      && id in d.nodes && Fits(d, t)
      && var row := RowAfterBoot(k, d, t, id);
         row != Some(ts) && (row.Some? || t.removed || FirstLogged(LogEntries(d), id) != Some(ts))
    case Write(node, c, _, _) =>
      if id == node.id then FileLeft(c.stop) && !Renamed(c.stop, 1) && !Logs(d, node, c.cut)
      else
        && id in d.nodes
        && (Wipes(d, c) || Find(EffectiveRows(k, d), HexEncode(id)).None?)
        && FirstLogged(LogAfterWrite(d, node, c.cut), id) != Some(ts)
    case Delete(gone, stop, _, _) =>
      && id in d.nodes && id != gone && Renamed(stop, 1) && !Migrated(d)
      && FirstLogged(LogEntries(d), id) != Some(ts)
  }

  lemma BegunAfter(env: Env, s: State, ev: Event, id: NodeId)
    requires id in Next(env, s, ev).history.begun
    ensures id in s.history.begun || (ev.Write? && ev.node.id == id)
    ensures ev.Write? && ev.node.id == id ==> TimeOf(Next(env, s, ev).history, id) == ev.node.capturedAt
    ensures !(ev.Write? && ev.node.id == id) ==> TimeOf(Next(env, s, ev).history, id) == TimeOf(s.history, id)
  {
    hide Effect;
  }

  /** A write's own node. */
  lemma OwnCost(env: Env, s: State, ev: Event)
    requires Good(env, s) && Allowed(s, ev) && ev.Write?
    ensures ev.node.id in Next(env, s, ev).history.begun
    ensures Forgotten(env.keys, Next(env, s, ev), ev.node.id) <==> Costs(env, s, ev, ev.node.id)
  {
    hide Inv, Written, DueRow, LogText, HexEncode, Find, IndexRows, EffectiveRows, Parse, PrintLine, Body, Fragment, LogOk;
    hide RowAdded, LogEntries;
    var k, d, id, ts, c := env.keys, s.disk, ev.node.id, ev.node.capturedAt, ev.course;
    var e := WalEntry(id, ts);
    DueAfterExactly(env, s, ev, id);
    FreshIsAbsent(k, d, s.history, id);
    RowAddedFinds(IndexRows(k, d), id, ts, c.blind, id);
    InvRows(k, d, s.history);
    FreshLogged(LogText(d), s.history.begun.Keys, e, Chars(e, c.cut));
    BodyIsShorter(e);
  }

  lemma BodyIsShorter(e: WalEntry)
    ensures |Body(e)| < |PrintLine(e)|
  {
  }

  lemma RowOfOther(k: Keys, d: Disk, node: MemoryNode, c: Course, id: NodeId)
    requires id != node.id
    ensures RowAfterWrite(k, d, node, c, id) == if Wipes(d, c) then None else Find(EffectiveRows(k, d), HexEncode(id))
  {
    hide IndexRows, EffectiveRows, Find, HexEncode, RowAdded;
    RowAddedFinds(IndexRows(k, d), node.id, node.capturedAt, c.blind, id);
    IndexedRows(k, d);
    FindNothing(HexEncode(id));
  }

  /** A node that an event finds not forgotten is forgotten after it exactly if the event costs it. */
  lemma CostsExactly(env: Env, s: State, ev: Event, id: NodeId)
    requires Good(env, s) && Allowed(s, ev) && id in Next(env, s, ev).history.begun && !Forgotten(env.keys, s, id)
    ensures Forgotten(env.keys, Next(env, s, ev), id) <==> Costs(env, s, ev, id)
  {
    if ev.Write? && ev.node.id == id {
      OwnCost(env, s, ev);
      return;
    }
    hide Inv, Next, Effect, DueRow, DueAfter, Costs, ThereAfter;
    BegunAfter(env, s, ev, id);
    DueAfterExactly(env, s, ev, id);
    CostsOfOthers(env, s, ev, id);
  }

  lemma CostsOfOthers(env: Env, s: State, ev: Event, id: NodeId)
    requires Allowed(s, ev) && id in s.history.begun && !Forgotten(env.keys, s, id) && !(ev.Write? && ev.node.id == id)
    requires id in Next(env, s, ev).history.begun && TimeOf(Next(env, s, ev).history, id) == TimeOf(s.history, id)
    ensures Costs(env, s, ev, id)
       <==> ThereAfter(s.disk, ev, id) && DueAfter(env.keys, s.disk, ev, id) != Some(TimeOf(s.history, id))
  {
    hide Inv, Next, Effect, DueRow, LogText, HexEncode, Find, IndexRows, EffectiveRows, Parse, RowAdded, LogEntries;
    hide RowAfterBoot, RowAfterWrite, LogAfterWrite, FirstLogged, Logs, Wipes;
    var k, d := env.keys, s.disk;
    DueRowIs(k, d, id);
    NoneLogged(id);
    match ev {
      case Boot(t, _, _) =>
      case Kill =>
      case Write(node, c, _, _) => RowOfOther(k, d, node, c, id);
      case Delete(gone, stop, _, _) => DeletedRowOfOther(k, d, gone, stop, id);
    }
  }

  lemma DeletedRowOfOther(k: Keys, d: Disk, gone: NodeId, stop: CrashPoint, id: NodeId)
    ensures RowAfterDelete(k, d, gone, stop, id)
         == if Renamed(stop, 1) && (id == gone || !Migrated(d)) then None else Find(EffectiveRows(k, d), HexEncode(id))
  {
    hide IndexRows, EffectiveRows, Find, HexEncode;
    IndexedRows(k, d);
    FindNothing(HexEncode(id));
  }

  /** The event happens to give a forgotten node its row back: characters glued to a fragment may complete it. */
  predicate Returns(env: Env, s: State, ev: Event, id: NodeId) {
    && Forgotten(env.keys, s, id) && ThereAfter(s.disk, ev, id)
    && DueAfter(env.keys, s.disk, ev, id) == Some(TimeOf(s.history, id))
  }

  /** The event at position i of the run costs the node its row, and no later one gives it back. */
  ghost predicate LostAt(env: Env, s: State, run: seq<Event>, id: NodeId, i: nat)
    requires i < |run|
  {
    var u := After(env, s, run[..i]);
    && id in Next(env, u, run[i]).history.begun && !Forgotten(env.keys, u, id) && Costs(env, u, run[i], id)
    && forall j :: i < j < |run| ==> !Returns(env, After(env, s, run[..j]), run[j], id)
  }

  ghost predicate LostIn(env: Env, s: State, run: seq<Event>, id: NodeId) {
    exists i :: 0 <= i < |run| && LostAt(env, s, run, id, i)
  }

  lemma StaysForgotten(env: Env, s: State, ev: Event, id: NodeId)
    requires Good(env, s) && Allowed(s, ev) && Forgotten(env.keys, s, id)
    ensures var t := Next(env, s, ev);
            Forgotten(env.keys, t, id) <==> id in t.disk.nodes && !Returns(env, s, ev, id)
  {
    hide Inv, Next, Effect, DueRow, DueAfter, ThereAfter;
    DueAfterExactly(env, s, ev, id);
    StepFrame(env, s, ev, id);
  }

  lemma LostInMore(env: Env, s: State, run: seq<Event>, id: NodeId)
    requires run != []
    ensures var init, last := run[..|run| - 1], run[|run| - 1];
            var u := After(env, s, init);
            LostIn(env, s, run, id)
            <==> || (LostIn(env, s, init, id) && !Returns(env, u, last, id))
                 || (id in Next(env, u, last).history.begun && !Forgotten(env.keys, u, id) && Costs(env, u, last, id))
  {
    hide After, Next, Forgotten, Costs, Returns;
    var n := |run| - 1;
    var init, last := run[..n], run[n];
    assert forall i :: 0 <= i <= n ==> init[..i] == run[..i];
    if i :| 0 <= i < n && LostAt(env, s, init, id, i) {
      assert !Returns(env, After(env, s, init), last, id) ==> LostAt(env, s, run, id, i);
    }
    if i :| 0 <= i < |run| && LostAt(env, s, run, id, i) {
      assert i < n ==> LostAt(env, s, init, id, i);
      assert i < n ==> !Returns(env, After(env, s, run[..n]), run[n], id);
    }
    if id in Next(env, After(env, s, init), last).history.begun && !Forgotten(env.keys, After(env, s, init), id)
       && Costs(env, After(env, s, init), last, id) {
      assert LostAt(env, s, run, id, n);
    }
  }

  lemma BegunStays(env: Env, s: State, ev: Event, id: NodeId)
    requires id in s.history.begun
    ensures id in Next(env, s, ev).history.begun
  {
    hide Effect;
  }

  lemma GoodFiles(env: Env, s: State, id: NodeId)
    requires Good(env, s) && id in s.disk.nodes
    ensures id in s.history.begun
  {
    hide Inv;
    FileIsBegun(env.keys, s.disk, s.history, id);
  }

  /**
   Who is forgotten: after any life a node that was not forgotten before it is so exactly if its file is there and some event
   of the life cost it its row and none gave it back.
   */
  lemma {:induction false} ForgottenExactly(env: Env, s: State, run: seq<Event>, id: NodeId)
    requires Good(env, s) && AllAllowed(env, s, run) && !Forgotten(env.keys, s, id)
    ensures var t := After(env, s, run);
            && (Forgotten(env.keys, t, id) <==> id in t.disk.nodes && LostIn(env, s, run, id))
            && (LostIn(env, s, run, id) ==> id in t.history.begun)
    decreases |run|
  {
    hide Good, Next, Allowed, Forgotten, Costs, Returns, LostIn;
    if run == [] {
      NobodyLost(env, s, id);
    } else {
      var init, last := run[..|run| - 1], run[|run| - 1];
      LastEvent(env, s, run);
      hide After, AllAllowed;
      ForgottenExactly(env, s, init, id);
      RunKeepsGood(env, s, init);
      LostInMore(env, s, run, id);
      var u := After(env, s, init);
      if id in u.history.begun {
        BegunStays(env, u, last, id);
      }
      ForgottenNext(env, u, last, id, LostIn(env, s, init, id));
    }
  }

  lemma NobodyLost(env: Env, s: State, id: NodeId)
    ensures !LostIn(env, s, [], id)
  {
  }

  lemma ForgottenNext(env: Env, s: State, ev: Event, id: NodeId, lost: bool)
    requires Good(env, s) && Allowed(s, ev)
    requires (Forgotten(env.keys, s, id) <==> id in s.disk.nodes && lost) && (lost ==> id in s.history.begun)
    ensures var t := Next(env, s, ev);
            Forgotten(env.keys, t, id)
            <==> && id in t.disk.nodes
                 && (|| (lost && !Returns(env, s, ev, id))
                     || (id in t.history.begun && !Forgotten(env.keys, s, id) && Costs(env, s, ev, id)))
  {
    hide Good, Next, Allowed, Costs, DueRow, DueAfter, ThereAfter, Returns;
    var t := Next(env, s, ev);
    if id in t.disk.nodes {
      StepKeepsGood(env, s, ev);
      GoodFiles(env, t, id);
      if lost {
        StepFrame(env, s, ev, id);
        StaysForgotten(env, s, ev, id);
      } else {
        CostsExactly(env, s, ev, id);
      }
    }
  }

  // ---- Lives without the failures that cost ----

  /** Log entries that may still become rows have the right time. */
  ghost predicate EntriesRight(k: Keys, s: State) {
    forall e :: e in LogEntries(s.disk) && e.id in s.disk.nodes && Find(EffectiveRows(k, s.disk), HexEncode(e.id)).None?
      ==> e.id in s.history.begun && e.ts == TimeOf(s.history, e.id)
  }

  ghost predicate Tidy(env: Env, s: State) {
    && (forall id :: !Forgotten(env.keys, s, id))
    && EntriesRight(env.keys, s)
    && (s.up ==> Migrated(s.disk) && Fragment(LogText(s.disk)) == "")
  }

  /**
   The event has none of the failures that can cost a node its row: a failed read of the index; a log append that fails
   when the row is not saved either, or fails part-way without a crash; a replay that gives up an entry whose save failed,
   or goes on although the migration failed. Crashes may come anywhere, and index saves of writes and deletes may fail.
   */
  predicate Safe(s: State, ev: Event) {
    match ev
    case Boot(t, alive, _) =>
      && Sighted(t)
      && (t.removed ==> MigratedBy(s.disk, t) && forall i :: 0 <= i < |t.saves| ==> Renamed(t.saves[i].stop, 0))
      && (MigratedBy(s.disk, t) || forall i :: 0 <= i < |t.saves| ==> !Renamed(t.saves[i].stop, 0))
      && (alive ==> MigratedBy(s.disk, t) && (t.removed || Fragment(LogText(s.disk)) == ""))
    case Kill => true
    case Write(node, c, alive, _) =>
      var line := PrintLine(WalEntry(node.id, node.capturedAt));
      && !c.blind
      && (FileLeft(c.stop) && !Renamed(c.stop, 1) ==> c.cut.GetOr(0) >= |line|)
      && (alive ==> c.cut.GetOr(0) >= |line| || c.cut.GetOr(0) == 0)
    case Delete(_, _, _, _) => true
  }

  lemma {:induction false} NoneRenamed(log: seq<WalEntry>, d: Disk, inIndex: set<string>, ends: seq<SaveEnd>)
    requires |ends| == |log| && forall i :: 0 <= i < |ends| ==> !Renamed(ends[i].stop, 0)
    ensures !AnySaved(log, d, inIndex, ends)
    decreases |log|
  {
    hide Renamed, Skipped;
    if log != [] {
      assert !Renamed(ends[0].stop, 0);
      assert forall i :: 0 <= i < |ends| - 1 ==> ends[1..][i] == ends[i + 1];
      NoneRenamed(log[1..], d, inIndex, ends[1..]);
    }
  }

  lemma AllRenamed(log: seq<WalEntry>, ends: seq<SaveEnd>, id: NodeId)
    requires |ends| == |log| && forall i :: 0 <= i < |ends| ==> Renamed(ends[i].stop, 0)
    ensures SavedSome(log, ends, id) <==> Named(log, id)
  {
    hide Renamed;
    if Named(log, id) {
      var e :| e in log && e.id == id;
      var i :| 0 <= i < |log| && log[i] == e;
      assert Renamed(ends[i].stop, 0);
    }
    if i :| 0 <= i < |log| && log[i].id == id && Renamed(ends[i].stop, 0) {
      assert log[i] in log;
    }
  }

  /** The row after a safe startup, for a node whose file is there. */
  lemma SafeBootRow(k: Keys, d: Disk, t: Trouble, id: NodeId)
    requires Fits(d, t) && Sighted(t)
    requires MigratedBy(d, t) || forall i :: 0 <= i < |t.saves| ==> !Renamed(t.saves[i].stop, 0)
    ensures var row := Find(EffectiveRows(k, d), HexEncode(id));
            RowAfterBoot(k, d, t, id)
            == if row.Some? || !MigratedBy(d, t) || id !in d.nodes then row else FirstSaved(LogEntries(d), t.saves, id)
  {
    hide EffectiveRows, HexEncode, Find, LogEntries, RowThrough, AnySaved, FirstSaved, Renamed;
    var es := EffectiveRows(k, d);
    if MigratedBy(d, t) {
      FindsListed(es, HexEncode(id));
      SightedRow(Find(es, HexEncode(id)), LogEntries(d), d, IdSet(es), t.saves, id);
    } else {
      NoneRenamed(LogEntries(d), d, KnownIds([], t.blind), t.saves);
    }
  }

  lemma SafeBootCostsNobody(env: Env, s: State, ev: Event, id: NodeId)
    requires Good(env, s) && Allowed(s, ev) && Tidy(env, s) && Safe(s, ev) && ev.Boot? && id in s.history.begun
    ensures !Costs(env, s, ev, id)
  {
    hide Inv, Effect, HexEncode, Find, EffectiveRows, LogEntries, RowAfterBoot, DueRow, FirstSaved, FirstLogged, Renamed;
    hide Named, SavedSome, Fragment;
    var k, d, t := env.keys, s.disk, ev.trouble;
    var log := LogEntries(d);
    if id in d.nodes {
      assert !Forgotten(k, s, id);
      DueRowIs(k, d, id);
      SafeBootRow(k, d, t, id);
      FirstSavedIs(log, t.saves, id);
      FirstLoggedIs(log, id);
      if t.removed {
        AllRenamed(log, t.saves, id);
      }
    }
  }

  lemma SafeWriteCostsNobody(env: Env, s: State, ev: Event, id: NodeId)
    requires Good(env, s) && Allowed(s, ev) && Tidy(env, s) && Safe(s, ev) && ev.Write?
    requires id in Next(env, s, ev).history.begun
    ensures !Costs(env, s, ev, id)
  {
    hide Inv, Effect, HexEncode, Find, EffectiveRows, LogEntries, RowAfterBoot, DueRow, FirstLogged, Renamed, Parse;
    hide Fragment, LogText, PrintLine, Body, EntriesRight;
    var k, d := env.keys, s.disk;
    var e := WalEntry(ev.node.id, ev.node.capturedAt);
    BodyIsShorter(e);
    if id != ev.node.id && id in d.nodes {
      BegunAfter(env, s, ev, id);
      assert !Forgotten(k, s, id);
      DueRowIs(k, d, id);
      OthersLogged(LogText(d), e, Chars(e, ev.course.cut), id);
      LogIsParsed(d);
    }
  }

  lemma LogIsParsed(d: Disk)
    ensures LogEntries(d) == Parse(LogText(d))
  {
    hide Parse;
  }

  lemma SafeCostsNobody(env: Env, s: State, ev: Event, id: NodeId)
    requires Good(env, s) && Allowed(s, ev) && Tidy(env, s) && Safe(s, ev)
    ensures !Forgotten(env.keys, Next(env, s, ev), id)
  {
    hide Good, Next, Tidy, Safe, Costs, DueRow, Allowed;
    var t := Next(env, s, ev);
    if id in t.history.begun {
      TidyForgetsNobody(env, s, id);
      CostsExactly(env, s, ev, id);
      match ev {
        case Boot(_, _, _) =>
          BootBegins(env, s, ev, id);
          SafeBootCostsNobody(env, s, ev, id);
        case Kill => KillCostsNobody(env, s, id);
        case Write(_, _, _, _) => SafeWriteCostsNobody(env, s, ev, id);
        case Delete(_, _, _, _) => SafeDeleteCostsNobody(env, s, ev, id);
      }
    }
  }

  lemma TidyForgetsNobody(env: Env, s: State, id: NodeId)
    requires Tidy(env, s)
    ensures !Forgotten(env.keys, s, id)
  {
    hide EntriesRight, Forgotten;
  }

  lemma BootBegins(env: Env, s: State, ev: Event, id: NodeId)
    requires ev.Boot? && id in Next(env, s, ev).history.begun
    ensures id in s.history.begun
  {
    hide Effect;
  }

  lemma KillCostsNobody(env: Env, s: State, id: NodeId)
    requires id in Next(env, s, Kill).history.begun
    ensures !Costs(env, s, Kill, id)
  {
  }

  lemma SafeDeleteCostsNobody(env: Env, s: State, ev: Event, id: NodeId)
    requires Tidy(env, s) && Allowed(s, ev) && ev.Delete? && id in Next(env, s, ev).history.begun
    ensures !Costs(env, s, ev, id)
  {
    hide Effect, LogEntries, FirstLogged, Fragment, Forgotten, EntriesRight;
  }

  lemma SafeBootEntries(env: Env, s: State, ev: Event)
    requires Good(env, s) && Allowed(s, ev) && Tidy(env, s) && Safe(s, ev) && ev.Boot?
    ensures EntriesRight(env.keys, Next(env, s, ev))
  {
    hide Inv, BootStopped, HexEncode, Find, EffectiveRows, LogEntries, RowAfterBoot, Forgotten, FirstSaved, Renamed;
    hide IndexRows, RowsThrough, LoadIndex, AnySaved, Fragment, KnownIds;
    var k, d, t := env.keys, s.disk, ev.trouble;
    var d' := BootStopped(env, ev.draw, d, t);
    BootStoppedIs(env, ev.draw, d, t);
    if t.removed {
      EmptyLog(d');
    } else {
      SameLog(d, d');
      forall e | e in LogEntries(d') && e.id in d'.nodes && Find(EffectiveRows(k, d'), HexEncode(e.id)).None?
        ensures e.id in s.history.begun && e.ts == TimeOf(s.history, e.id)
      {
        BootRow(env, ev.draw, d, t, e.id);
        SafeBootRow(k, d, t, e.id);
      }
    }
  }

  lemma SafeWriteEntries(env: Env, s: State, ev: Event)
    requires Good(env, s) && Allowed(s, ev) && Tidy(env, s) && Safe(s, ev) && ev.Write?
    ensures EntriesRight(env.keys, Next(env, s, ev))
  {
    hide Inv, Written, HexEncode, Find, EffectiveRows, LogEntries, RowAfterWrite, Forgotten, Parse, RowAdded, SealNode;
    hide IndexRows, LoadIndex, Fragment, LogText, PrintLine, Body, TornAppend;
    var k, d, node, c := env.keys, s.disk, ev.node, ev.course;
    var d' := Written(env, ev.draw, d, node, c);
    var line := WalEntry(node.id, node.capturedAt);
    var chars := Chars(line, c.cut);
    WrittenIs(env, ev.draw, d, node, c);
    TornAppendIs(d, node.id, node.capturedAt, c.cut);
    LogIsParsed(d);
    LogIsParsed(d');
    EndsInLine(LogText(d));
    ParseConcat(LogText(d), PrintLine(line)[..chars]);
    CutReads(line, chars);
    forall e | e in LogEntries(d') && e.id in d'.nodes && Find(EffectiveRows(k, d'), HexEncode(e.id)).None?
      ensures e.id in Next(env, s, ev).history.begun && e.ts == TimeOf(Next(env, s, ev).history, e.id)
    {
      WriteRow(env, ev.draw, d, node, c, e.id);
      FreshIsAbsent(k, d, s.history, node.id);
      if e in LogEntries(d) {
        assert e.id != node.id;
        RowOfOther(k, d, node, c, e.id);
      } else {
        assert e.id == node.id;
        if Renamed(c.stop, 1) {
          OwnRow(k, d, node, c);
        }
        assert chars == |PrintLine(line)|;
        assert PrintLine(line)[..chars] == PrintLine(line);
        ParsePrintedLine(line);
      }
    }
  }

  lemma OwnRow(k: Keys, d: Disk, node: MemoryNode, c: Course)
    requires Renamed(c.stop, 1)
    ensures RowAfterWrite(k, d, node, c, node.id).Some?
  {
    hide IndexRows, EffectiveRows, Find, HexEncode, RowAdded;
    RowAddedFinds(IndexRows(k, d), node.id, node.capturedAt, c.blind, node.id);
  }

  lemma SafeDeleteEntries(env: Env, s: State, ev: Event)
    requires Good(env, s) && Allowed(s, ev) && Tidy(env, s) && ev.Delete?
    ensures EntriesRight(env.keys, Next(env, s, ev))
  {
    hide Inv, DeleteCalls, CrashAt, HexEncode, Find, EffectiveRows, LogEntries, RowAfterDelete, Forgotten, Without, IndexRows;
    hide LoadIndex, Fragment, LogText;
    var k, d := env.keys, s.disk;
    var d' := CrashAt(d, DeleteCalls(env, ev.draw, d, ev.id), ev.stop);
    InvRows(k, d, s.history);
    DeletedIs(env, ev.draw, d, ev.id, ev.stop);
    SameLog(d, d');
    forall e | e in LogEntries(d') && e.id in d'.nodes && Find(EffectiveRows(k, d'), HexEncode(e.id)).None?
      ensures e.id in s.history.begun && e.ts == TimeOf(s.history, e.id)
    {
      DeleteRow(env, ev.draw, d, ev.id, ev.stop, e.id);
      DeletedRowOfOther(k, d, ev.id, ev.stop, e.id);
    }
  }

  lemma SafeStaysReady(env: Env, s: State, ev: Event)
    requires Good(env, s) && Allowed(s, ev) && Tidy(env, s) && Safe(s, ev)
    ensures var t := Next(env, s, ev);
            t.up ==> Migrated(t.disk) && Fragment(LogText(t.disk)) == ""
  {
    hide Inv, BootStopped, Written, DeleteCalls, CrashAt, IndexRows, RowsThrough, LoadIndex, AnySaved, RowAdded, Without;
    hide EffectiveRows, Fragment, PrintLine, Body, TornAppend, EntriesRight, Forgotten, SealNode, HexEncode, LogOk, Parse;
    hide Renamed, KnownIds;
    var k, d, h := env.keys, s.disk, s.history;
    match ev
    case Boot(t, _, n) =>
      BootStoppedIs(env, n, d, t);
      NothingLogged({});
    case Kill =>
    case Write(node, c, _, n) =>
      var e := WalEntry(node.id, node.capturedAt);
      WrittenIs(env, n, d, node, c);
      TornAppendIs(d, node.id, node.capturedAt, c.cut);
      InvRows(k, d, h);
      LogAppend(LogText(d), h.begun.Keys, e, Chars(e, c.cut));
      BodyIsShorter(e);
    case Delete(id, stop, _, n) =>
      InvRows(k, d, h);
      DeletedIs(env, n, d, id, stop);
  }

  lemma SafeStepKeepsTidy(env: Env, s: State, ev: Event)
    requires Good(env, s) && Allowed(s, ev) && Tidy(env, s) && Safe(s, ev)
    ensures Tidy(env, Next(env, s, ev))
  {
    SafeStaysReady(env, s, ev);
    hide Good, Next, Safe, EntriesRight, Forgotten, Fragment, LogText, Migrated, Allowed;
    forall id
      ensures !Forgotten(env.keys, Next(env, s, ev), id)
    {
      SafeCostsNobody(env, s, ev, id);
    }
    match ev
    case Boot(_, _, _) => SafeBootEntries(env, s, ev);
    case Kill => SafeKillEntries(env, s);
    case Write(_, _, _, _) => SafeWriteEntries(env, s, ev);
    case Delete(_, _, _, _) => SafeDeleteEntries(env, s, ev);
  }

  lemma SafeKillEntries(env: Env, s: State)
    requires EntriesRight(env.keys, s)
    ensures EntriesRight(env.keys, Next(env, s, Kill))
  {
    hide LogEntries, Find, EffectiveRows, HexEncode;
  }

  predicate AllSafe(env: Env, s: State, run: seq<Event>)
    decreases |run|
  {
    run == [] || (Safe(s, run[0]) && AllSafe(env, Next(env, s, run[0]), run[1..]))
  }

  /** In a life without the failures that cost nobody is ever forgotten. */
  lemma {:induction false} SafeLifeForgetsNobody(env: Env, s: State, run: seq<Event>)
    requires Good(env, s) && Tidy(env, s) && AllAllowed(env, s, run) && AllSafe(env, s, run)
    ensures Tidy(env, After(env, s, run))
    decreases |run|
  {
    hide Good, Next, Allowed, Tidy, Safe;
    if run != [] {
      SafeStepKeepsTidy(env, s, run[0]);
      StepKeepsGood(env, s, run[0]);
      SafeLifeForgetsNobody(env, Next(env, s, run[0]), run[1..]);
    }
  }

  const EMPTY_DISK := Disk(None, map[], None, None, None)
  const NO_HISTORY := History(map[], {}, {}, {})

  lemma FreshStoreGood(env: Env)
    ensures var s := State(EMPTY_DISK, NO_HISTORY, false);
            Good(env, s) && Tidy(env, s)
  {
    hide LogOk, Parse, Fragment, RowsOk;
    assert NO_HISTORY.begun.Keys == {};
    NothingLogged({});
    EmptyLog(EMPTY_DISK);
    NoIndexNoRows(env.keys, EMPTY_DISK);
    NoRowsOk({});
    assert LogText(EMPTY_DISK) == "";
    assert EffectiveRows(env.keys, EMPTY_DISK) == [];
  }

  /** A store left by an earlier version: a plaintext index that lists every node file rightly. */
  lemma LegacyStoreGood(env: Env, d: Disk, h: History, es: seq<IndexEntry>)
    requires d.wal.None? && d.index.None? && d.legacy == Some(Listed(es))
    requires h == NO_HISTORY.(begun := h.begun, stored := h.begun.Keys)
    requires forall id :: id in h.begun ==> h.begun[id].node.id == id
    requires d.nodes == map id | id in h.begun :: SealedBlob(env.keys, h.begun[id])
    requires RowsOk(es, h.begun.Keys) && forall id :: id in h.begun ==> Find(es, HexEncode(id)) == Some(TimeOf(h, id))
    ensures Good(env, State(d, h, false)) && Tidy(env, State(d, h, false))
  {
    hide LogOk, Parse, Fragment, HexEncode, Find, SealedBlob, RowsOk, DueRow, Replayed, FirstLogged;
    var s := State(d, h, false);
    NothingLogged(h.begun.Keys);
    EmptyLog(d);
    forall id
      ensures !Forgotten(env.keys, s, id)
    {
      DueRowIs(env.keys, d, id);
    }
  }

  // ---- What a life leaves on the disk ----

  /**
   In every reachable state: no id has two rows, every file is whole or a prefix of what was sealed, and a file whose node is
   not forgotten has its row, or is named by the log, with the timestamp it was sealed with.
   */
  lemma UnlistedFileIsLogged(env: Env, s: State, run: seq<Event>, id: NodeId)
    requires Good(env, s) && AllAllowed(env, s, run)
    ensures var t := After(env, s, run);
            var row := Find(EffectiveRows(env.keys, t.disk), HexEncode(id));
            && NoDuplicates(EffectiveRows(env.keys, t.disk))
            && (id in t.disk.nodes ==>
                  && id in t.history.begun
                  && t.disk.nodes[id] <= SealedBlob(env.keys, t.history.begun[id])
                  && (!Forgotten(env.keys, t, id) ==>
                        || row == Some(TimeOf(t.history, id))
                        || (row.None? && WalEntry(id, TimeOf(t.history, id)) in LogEntries(t.disk))))
  {
    hide Inv, After, AllAllowed, SealedBlob, HexEncode, Find, LogEntries, EffectiveRows, DueRow, FirstLogged, LogOk;
    RunKeepsGood(env, s, run);
    var t := After(env, s, run);
    InvRows(env.keys, t.disk, t.history);
    if id in t.disk.nodes {
      FileIsBegun(env.keys, t.disk, t.history, id);
      FilePrefix(env.keys, t.disk, t.history, id);
      DueRowIs(env.keys, t.disk, id);
      FirstLoggedIs(LogEntries(t.disk), id);
    }
  }

  // ---- Reading back ----

  /** A startup that goes to its end with the rows migrated and the log gone, even if saves failed on the way. */
  predicate Completes(s: State, ev: Event) { ev.Boot? && ev.alive && MigratedBy(s.disk, ev.trouble) && ev.trouble.removed }

  lemma SettledRows(k: Keys, d: Disk, id: NodeId)
    requires d.wal.None? && Migrated(d)
    ensures DueRow(k, d, id) == Find(IndexRows(k, d), HexEncode(id))
  {
    hide IndexRows, LogEntries, EffectiveRows, Find, HexEncode, DueRow, FirstLogged;
    DueRowIs(k, d, id);
    IndexedRows(k, d);
    EmptyLog(d);
    assert FirstLogged([], id) == None by { NoneLogged(id); }
  }

  lemma NoneLogged(id: NodeId)
    ensures FirstLogged([], id) == None
  {
  }

  lemma CompletedRows(env: Env, s: State, ev: Event, id: NodeId)
    requires Allowed(s, ev) && Completes(s, ev)
    ensures var t := Next(env, s, ev);
            t.up && RowTime(env.keys, t.disk, id) == DueRow(env.keys, t.disk, id).GetOr(ZERO_TIME)
  {
    hide BootStopped, IndexRows, RowsThrough, LoadIndex, AnySaved, KnownIds, LogEntries, EffectiveRows, DueRow, Find;
    hide HexEncode;
    BootStoppedIs(env, ev.draw, s.disk, ev.trouble);
    SettledRows(env.keys, Next(env, s, ev).disk, id);
  }

  /** Sealed at the instant a missing row stands for, and without a row. */
  predicate Timeless(k: Keys, s: State, id: NodeId)
    requires id in s.history.begun
  {
    DueRow(k, s.disk, id).None? && TimeOf(s.history, id) == ZERO_TIME
  }

  /**
   Recovery: after any life, whatever failed in it, that ends with a startup, a node reads back exactly when its file is whole
   and it is not forgotten (or is sealed at the instant a missing row stands for), and it reads as it was written. So every
   node whose file was written, whose delete never began and who is not forgotten reads back.
   */
  lemma Recovers(env: Env, s: State, run: seq<Event>, last: Event)
    requires Good(env, s) && AllAllowed(env, s, run + [last]) && Completes(After(env, s, run), last)
    ensures var t := After(env, s, run + [last]);
            && (forall id :: id in t.history.begun ==>
                  && (Read(env.keys, t.disk, id).Ok? ==> Read(env.keys, t.disk, id).value == t.history.begun[id].node)
                  && (Read(env.keys, t.disk, id).Ok?
                      <==> Whole(env.keys, t, id) && (!Forgotten(env.keys, t, id) || Timeless(env.keys, t, id))))
            && (forall id :: id in t.history.stored - t.history.deleting && !Forgotten(env.keys, t, id)
                  ==> id in t.history.begun && Read(env.keys, t.disk, id) == Ok(t.history.begun[id].node))
  {
    hide Good, Next, Allowed, After, AllAllowed, Read, Whole, Completes, Forgotten, Timeless;
    var u, t := After(env, s, run), After(env, s, run + [last]);
    AfterConcat(env, s, run, [last]);
    OneEvent(env, u, last);
    RunKeepsGood(env, s, run + [last]);
    forall id | id in t.history.begun
      ensures Read(env.keys, t.disk, id).Ok? ==> Read(env.keys, t.disk, id).value == t.history.begun[id].node
      ensures Read(env.keys, t.disk, id).Ok?
              <==> Whole(env.keys, t, id) && (!Forgotten(env.keys, t, id) || Timeless(env.keys, t, id))
    {
      ReadsSettled(env, u, last, id);
    }
    forall id | id in t.history.stored - t.history.deleting
      ensures id in t.history.begun && Whole(env.keys, t, id)
    {
      StoredIsWhole(env, t, id);
    }
  }

  lemma ReadsSettled(env: Env, s: State, ev: Event, id: NodeId)
    requires Allowed(s, ev) && Completes(s, ev) && Good(env, Next(env, s, ev)) && id in Next(env, s, ev).history.begun
    ensures var t := Next(env, s, ev);
            && (Read(env.keys, t.disk, id).Ok? ==> Read(env.keys, t.disk, id).value == t.history.begun[id].node)
            && (Read(env.keys, t.disk, id).Ok?
                <==> Whole(env.keys, t, id) && (!Forgotten(env.keys, t, id) || Timeless(env.keys, t, id)))
  {
    hide Good, Next, Allowed, Completes, Read, RowTime, DueRow, SealedBlob;
    CompletedRows(env, s, ev, id);
    ReadExactly(env, Next(env, s, ev), id);
  }

  lemma StoredIsWhole(env: Env, s: State, id: NodeId)
    requires Good(env, s) && id in s.history.stored - s.history.deleting
    ensures id in s.history.begun && Whole(env.keys, s, id)
  {
    hide Inv, SealedBlob;
    FileIsBegun(env.keys, s.disk, s.history, id);
    FilePrefix(env.keys, s.disk, s.history, id);
  }

  /** Any startup, completed or not: a node reads exactly if its file is whole and these saves gave it the right row. */
  lemma StartupReads(env: Env, s: State, ev: Event, id: NodeId)
    requires Good(env, s) && Allowed(s, ev) && ev.Boot? && id in s.history.begun
    ensures var d, t := s.disk, ev.trouble;
            var before := RowsBefore(env.keys, d, t);
            var row := RowThrough(Find(before, HexEncode(id)), LogEntries(d), d, KnownIds(before, t.blind), t.saves, id);
            var u := Next(env, s, ev);
            id in u.history.begun
            && (Read(env.keys, u.disk, id).Ok? <==> Whole(env.keys, u, id) && row.GetOr(ZERO_TIME) == TimeOf(s.history, id))
  {
    hide Good, BootStopped, IndexRows, RowsThrough, RowThrough, LoadIndex, AnySaved, KnownIds, LogEntries, RowsBefore, Find;
    hide HexEncode, Read, SealedBlob, Migrated;
    var d, t := s.disk, ev.trouble;
    var before := RowsBefore(env.keys, d, t);
    StepKeepsGood(env, s, ev);
    ReadExactly(env, Next(env, s, ev), id);
    BootStoppedIs(env, ev.draw, d, t);
    RowsThroughFinds(before, LogEntries(d), d, KnownIds(before, t.blind), t.saves, id);
  }

  /** The write is on record, its file was written whole, and no delete of it began. */
  predicate OnRecord(s: State, id: NodeId, sealed: Sealed) {
    && id in s.history.begun && s.history.begun[id] == sealed
    && id in s.history.stored && id !in s.history.deleting
  }

  lemma StepKeepsRecord(env: Env, s: State, ev: Event, id: NodeId, sealed: Sealed)
    requires OnRecord(s, id, sealed) && Allowed(s, ev) && !(ev.Delete? && ev.id == id)
    ensures OnRecord(Next(env, s, ev), id, sealed)
  {
    hide Effect;
  }

  lemma {:induction false} RunKeepsRecord(env: Env, s: State, run: seq<Event>, id: NodeId, sealed: Sealed)
    requires OnRecord(s, id, sealed) && AllAllowed(env, s, run)
    requires forall i :: 0 <= i < |run| ==> !(run[i].Delete? && run[i].id == id)
    ensures OnRecord(After(env, s, run), id, sealed)
    decreases |run|
  {
    hide Next, Allowed, OnRecord;
    if run != [] {
      StepKeepsRecord(env, s, run[0], id, sealed);
      RunKeepsRecord(env, Next(env, s, run[0]), run[1..], id, sealed);
    }
  }

  /** A write whose file got written. */
  predicate Files(ev: Event) { ev.Write? && ev.course.stop.done >= 1 }

  lemma WriteGoesOnRecord(env: Env, s: State, ev: Event)
    requires Good(env, s) && Allowed(s, ev) && Files(ev)
    ensures OnRecord(Next(env, s, ev), ev.node.id, Sealed(ev.node.(schemaVersion := 1), env.rand(ev.draw)))
  {
    hide Effect, Inv;
    if ev.node.id in s.history.deleting {
      FileIsBegun(env.keys, s.disk, s.history, ev.node.id);
    }
  }

  /**
   Whatever happened before it and whatever writes, deletes of other nodes, startups, failures and crashes come after it: a
   node whose file got written reads back as it was written (with the schema version stamped on it) after a startup,
   exactly if it is not forgotten then (or is sealed at the instant a missing row stands for).
   */
  lemma WrittenNodeReadsBack(env: Env, s: State, ev: Event, later: seq<Event>, last: Event)
    requires Good(env, s) && Files(ev)
    requires AllAllowed(env, s, [ev] + later + [last]) && Completes(After(env, s, [ev] + later), last)
    requires forall i :: 0 <= i < |later| ==> !(later[i].Delete? && later[i].id == ev.node.id)
    ensures var t := After(env, s, [ev] + later + [last]);
            && ev.node.id in t.history.begun
            && (Read(env.keys, t.disk, ev.node.id) == Ok(ev.node.(schemaVersion := 1))
                <==> !Forgotten(env.keys, t, ev.node.id) || Timeless(env.keys, t, ev.node.id))
  {
    hide Good, Next, Allowed, After, AllAllowed, Read, OnRecord, Whole, Forgotten, Timeless, Completes;
    var id := ev.node.id;
    var sealed := Sealed(ev.node.(schemaVersion := 1), env.rand(ev.draw));
    AfterConcat(env, s, [ev] + later, [last]);
    AfterConcat(env, s, [ev], later);
    OneEvent(env, s, ev);
    var u := After(env, s, [ev] + later);
    OneEvent(env, u, last);
    WriteGoesOnRecord(env, s, ev);
    RunKeepsRecord(env, Next(env, s, ev), later, id, sealed);
    CompletionIsNoDelete(u, last);
    StepKeepsRecord(env, u, last, id, sealed);
    Recovers(env, s, [ev] + later, last);
    RunKeepsGood(env, s, [ev] + later + [last]);
    RecordIsStored(Next(env, u, last), id, sealed);
    StoredIsWhole(env, Next(env, u, last), id);
  }

  lemma CompletionIsNoDelete(s: State, ev: Event)
    requires Completes(s, ev)
    ensures !ev.Delete?
  {
  }

  lemma RecordIsStored(s: State, id: NodeId, sealed: Sealed)
    requires OnRecord(s, id, sealed)
    ensures id in s.history.begun && s.history.begun[id] == sealed && id in s.history.stored - s.history.deleting
  {
  }

  // ---- Nothing comes back ----

  /** A begun write whose file is missing or cut. */
  predicate Broken(k: Keys, s: State, id: NodeId) { id in s.history.begun && !Whole(k, s, id) }

  lemma {:induction false} BrokenStaysBroken(env: Env, s: State, run: seq<Event>, id: NodeId)
    requires Good(env, s) && AllAllowed(env, s, run) && Broken(env.keys, s, id)
    ensures Broken(env.keys, After(env, s, run), id)
    decreases |run|
  {
    hide Good, Next, Allowed, SealedBlob;
    if run != [] {
      StepFrame(env, s, run[0], id);
      StepKeepsGood(env, s, run[0]);
      BrokenStaysBroken(env, Next(env, s, run[0]), run[1..], id);
    }
  }

  lemma BrokenNeverReads(env: Env, s: State, ev: Event, run: seq<Event>, id: NodeId)
    requires Good(env, s) && AllAllowed(env, s, [ev] + run) && Broken(env.keys, Next(env, s, ev), id)
    ensures Read(env.keys, After(env, s, [ev] + run).disk, id).Err?
  {
    hide Good, Next, Allowed, After, AllAllowed, Read, Whole, RowTime;
    AfterConcat(env, s, [ev], run);
    OneEvent(env, s, ev);
    StepKeepsGood(env, s, ev);
    RunKeepsGood(env, s, [ev] + run);
    BrokenStaysBroken(env, Next(env, s, ev), run, id);
    ReadExactly(env, After(env, s, [ev] + run), id);
  }

  lemma {:induction false} DeletedMonotone(env: Env, s: State, run: seq<Event>, id: NodeId)
    requires id in s.history.deleted
    ensures id in After(env, s, run).history.deleted
    decreases |run|
  {
    if run != [] {
      NextKeepsDeleted(env, s, run[0], id);
      hide Next;
      DeletedMonotone(env, Next(env, s, run[0]), run[1..], id);
    }
  }

  lemma NextKeepsDeleted(env: Env, s: State, ev: Event, id: NodeId)
    requires id in s.history.deleted
    ensures id in Next(env, s, ev).history.deleted
  {
    hide Effect;
  }

  /** A completed delete is final: no later failure, crash, restart or replay brings back the file, the row or the content. */
  lemma DeletedNodeNeverReturns(env: Env, s: State, id: NodeId, stop: CrashPoint, alive: bool, n: nat, later: seq<Event>)
    requires Good(env, s) && id in s.history.begun && stop.done >= 3
    requires AllAllowed(env, s, [Delete(id, stop, alive, n)] + later)
    ensures var t := After(env, s, [Delete(id, stop, alive, n)] + later);
            && Read(env.keys, t.disk, id) == Err(NotFound)
            && Find(EffectiveRows(env.keys, t.disk), HexEncode(id)).None?
  {
    hide Good, Next, Allowed, After, AllAllowed, Read, EffectiveRows, Find, HexEncode;
    var ev := Delete(id, stop, alive, n);
    AfterConcat(env, s, [ev], later);
    OneEvent(env, s, ev);
    DeleteGoesOnRecord(env, s, id, stop, alive, n);
    RunKeepsGood(env, s, [ev] + later);
    DeletedMonotone(env, Next(env, s, ev), later, id);
    DeletedIsGone(env, After(env, s, [ev] + later), id);
  }

  lemma DeleteGoesOnRecord(env: Env, s: State, id: NodeId, stop: CrashPoint, alive: bool, n: nat)
    requires id in s.history.begun && stop.done >= 3
    ensures id in Next(env, s, Delete(id, stop, alive, n)).history.deleted
  {
    hide DeleteCalls, CrashAt;
  }

  lemma DeletedIsGone(env: Env, s: State, id: NodeId)
    requires Good(env, s) && id in s.history.deleted
    ensures Read(env.keys, s.disk, id) == Err(NotFound)
    ensures Find(EffectiveRows(env.keys, s.disk), HexEncode(id)).None?
  {
    hide SealedBlob, HexEncode, Find, LoadIndex, LogOk, EffectiveRows, RowsOk;
  }

  /** A delete stopped anywhere after the file was removed: whatever happens next, the node is never read again. */
  lemma CutDeleteNeverReads(env: Env, s: State, id: NodeId, stop: CrashPoint, alive: bool, n: nat, run: seq<Event>)
    requires Good(env, s) && id in s.history.begun && FileGone(stop)
    requires AllAllowed(env, s, [Delete(id, stop, alive, n)] + run)
    ensures Read(env.keys, After(env, s, [Delete(id, stop, alive, n)] + run).disk, id).Err?
  {
    hide Good, Next, Allowed, After, AllAllowed, Read, Broken;
    var ev := Delete(id, stop, alive, n);
    AfterConcat(env, s, [ev], run);
    OneEvent(env, s, ev);
    CutDeleteBreaks(env, s, id, stop, alive, n);
    BrokenNeverReads(env, s, ev, run, id);
  }

  lemma CutDeleteBreaks(env: Env, s: State, id: NodeId, stop: CrashPoint, alive: bool, n: nat)
    requires Good(env, s) && id in s.history.begun && FileGone(stop) && Allowed(s, Delete(id, stop, alive, n))
    ensures Broken(env.keys, Next(env, s, Delete(id, stop, alive, n)), id)
  {
    hide Inv, DeleteCalls, CrashAt, SealedBlob, DueRow, DueAfter;
    DueAfterExactly(env, s, Delete(id, stop, alive, n), id);
    StepFrame(env, s, Delete(id, stop, alive, n), id);
  }

  /** A write that stopped before its node file was whole: whatever happens next, no torn content is ever read. */
  lemma CutWriteNeverReads(env: Env, s: State, ev: Event, run: seq<Event>)
    requires Good(env, s) && ev.Write? && !FileWhole(env, ev.draw, ev.node, ev.course.stop)
    requires AllAllowed(env, s, [ev] + run)
    ensures Read(env.keys, After(env, s, [ev] + run).disk, ev.node.id).Err?
  {
    hide Good, Next, Allowed, After, AllAllowed, Read, Broken, SealNode;
    AfterConcat(env, s, [ev], run);
    OneEvent(env, s, ev);
    CutWriteBreaks(env, s, ev);
    BrokenNeverReads(env, s, ev, run, ev.node.id);
  }

  /** The file of a write is whole exactly if it was written whole. */
  lemma OwnFile(env: Env, s: State, ev: Event)
    requires Good(env, s) && Allowed(s, ev) && ev.Write?
    ensures Whole(env.keys, Next(env, s, ev), ev.node.id) <==> FileWhole(env, ev.draw, ev.node, ev.course.stop)
  {
    hide Inv, Written, SealNode, SealedBlob, LogText, IndexRows, RowAdded, LoadIndex, Find, EffectiveRows, HexEncode, TornAppend;
    hide LogEntries;
    WrittenIs(env, ev.draw, s.disk, ev.node, ev.course);
    SealNodeIsSealed(env, ev.draw, s.history, ev.node, ev.course);
    FreshIsAbsent(env.keys, s.disk, s.history, ev.node.id);
  }

  lemma CutWriteBreaks(env: Env, s: State, ev: Event)
    requires Good(env, s) && Allowed(s, ev) && ev.Write? && !FileWhole(env, ev.draw, ev.node, ev.course.stop)
    ensures Broken(env.keys, Next(env, s, ev), ev.node.id)
  {
    hide Good, Effect, SealNode, Whole;
    OwnFile(env, s, ev);
  }

  // ---- What single failures cost ----

  /** The row to come of a write's own node. */
  function OwnDue(d: Disk, node: MemoryNode, c: Course): Option<int64> {
    var e := WalEntry(node.id, node.capturedAt);
    if Renamed(c.stop, 1) then Some(node.capturedAt)
    else if FileLeft(c.stop) && Fragment(LogText(d)) == "" then FirstLogged(Parse(PrintLine(e)[..Chars(e, c.cut)]), node.id)
    else None
  }

  lemma OwnDueIs(env: Env, s: State, ev: Event)
    requires Good(env, s) && Allowed(s, ev) && ev.Write?
    ensures DueRow(env.keys, Next(env, s, ev).disk, ev.node.id) == OwnDue(s.disk, ev.node, ev.course)
  {
    hide Inv, Written, DueRow, LogText, HexEncode, Find, IndexRows, EffectiveRows, Parse, PrintLine, Body, Fragment, LogOk;
    hide RowAdded, LogEntries, FirstLogged;
    var k, d, id, c := env.keys, s.disk, ev.node.id, ev.course;
    var e := WalEntry(id, ev.node.capturedAt);
    DueAfterExactly(env, s, ev, id);
    FreshIsAbsent(k, d, s.history, id);
    RowAddedFinds(IndexRows(k, d), id, ev.node.capturedAt, c.blind, id);
    InvRows(k, d, s.history);
    FreshLogged(LogText(d), s.history.begun.Keys, e, Chars(e, c.cut));
  }

  lemma OwnDueWhen(d: Disk, node: MemoryNode, c: Course)
    ensures Logs(d, node, c.cut) && FileLeft(c.stop) ==> OwnDue(d, node, c) == Some(node.capturedAt)
    ensures !Renamed(c.stop, 1) && (Fragment(LogText(d)) != "" || c.cut.GetOr(0) == 0) ==> OwnDue(d, node, c).None?
  {
    hide Fragment, LogText, Parse, PrintLine, Body;
    var e := WalEntry(node.id, node.capturedAt);
    CutReads(e, Chars(e, c.cut));
    BodyIsShorter(e);
    ParseNothing();
    assert PrintLine(e)[..0] == "";
  }

  lemma CleanBootReads(env: Env, d: Disk, n: nat, id: NodeId)
    ensures var d' := Run(d, BootCalls(env, n, d));
            d'.nodes == d.nodes && RowTime(env.keys, d', id) == DueRow(env.keys, d, id).GetOr(ZERO_TIME)
  {
    hide BootCalls, Run, IndexRows, Find, HexEncode, Replayed, LogEntries, EffectiveRows, LoadIndex, StartupRows;
    BootRun(env, n, d);
  }

  /**
   When a write survives its own failures: from any state of any life, wherever it fails, the next startup that goes without
   failure reads its node exactly if the file is whole and the row to come has its time. That is so if the index save went
   through or the line was logged; it is not so if the line was glued to a fragment, or nothing was left of it.
   */
  lemma WriteReads(env: Env, s: State, ev: Event, n: nat)
    requires Good(env, s) && Allowed(s, ev) && ev.Write?
    ensures var d, node, c := s.disk, ev.node, ev.course;
            var d' := Next(env, s, ev).disk;
            var r := Read(env.keys, Run(d', BootCalls(env, n, d')), node.id);
            var whole := FileWhole(env, ev.draw, node, c.stop);
            && (r.Ok? ==> r.value == node.(schemaVersion := 1))
            && (r.Ok? <==> whole && OwnDue(d, node, c).GetOr(ZERO_TIME) == node.capturedAt)
            && (Logs(d, node, c.cut) ==> (r.Ok? <==> whole))
            && (Fragment(LogText(d)) != "" || c.cut.GetOr(0) == 0 ==>
                  (r.Ok? <==> whole && (Renamed(c.stop, 1) || node.capturedAt == ZERO_TIME)))
  {
    hide Inv, Effect, Read, BootCalls, Run, DueRow, RowTime, Seal, Logs, OwnDue, Fragment, LogText;
    var k, d, node, c := env.keys, s.disk, ev.node, ev.course;
    var t := Next(env, s, ev);
    var d' := t.disk;
    StepKeepsGood(env, s, ev);
    FilePrefix(k, d', t.history, node.id);
    OwnFile(env, s, ev);
    OwnDueIs(env, s, ev);
    OwnDueWhen(d, node, c);
    OwnDueSaved(d, node, c);
    CleanBootReads(env, d', n, node.id);
    RecordReads(k, Run(d', BootCalls(env, n, d')), node.(schemaVersion := 1), env.rand(ev.draw));
  }

  lemma OwnDueSaved(d: Disk, node: MemoryNode, c: Course)
    ensures Renamed(c.stop, 1) ==> OwnDue(d, node, c) == Some(node.capturedAt)
  {
  }

  lemma SameReads(k: Keys, d: Disk, d': Disk, id: NodeId)
    requires RowTime(k, d, id) == RowTime(k, d', id)
    requires (id in d.nodes <==> id in d'.nodes) && (id in d.nodes ==> d.nodes[id] == d'.nodes[id])
    ensures Read(k, d, id) == Read(k, d', id)
  {
    hide RowTime, Open;
  }

  /** A write spares the others if it wipes no rows and its line, or what was left of it, did not run into a fragment. */
  lemma WriteSparesOthers(env: Env, s: State, ev: Event, n: nat, m: nat, x: NodeId)
    requires Good(env, s) && Allowed(s, ev) && ev.Write? && x != ev.node.id
    requires !Wipes(s.disk, ev.course) && (Fragment(LogText(s.disk)) == "" || ev.course.cut.GetOr(0) == 0)
    ensures var d' := Next(env, s, ev).disk;
            Read(env.keys, Run(d', BootCalls(env, n, d')), x) == Read(env.keys, Run(s.disk, BootCalls(env, m, s.disk)), x)
  {
    hide Inv, Written, Read, BootCalls, Run, DueRow, RowTime, Fragment, LogText, Parse, PrintLine, RowAfterWrite, EffectiveRows;
    hide Find, HexEncode, Wipes, LogEntries, FirstLogged, IndexRows, RowAdded, SealNode, LoadIndex, TornAppend;
    var k, d, node, c := env.keys, s.disk, ev.node, ev.course;
    var e := WalEntry(node.id, node.capturedAt);
    DueAfterExactly(env, s, ev, x);
    DueRowIs(k, d, x);
    RowOfOther(k, d, node, c, x);
    LogIsParsed(d);
    OthersLogged(LogText(d), e, Chars(e, c.cut), x);
    WrittenIs(env, ev.draw, d, node, c);
    CleanBootReads(env, Next(env, s, ev).disk, n, x);
    CleanBootReads(env, d, m, x);
    SameReads(k, Run(Next(env, s, ev).disk, BootCalls(env, n, Next(env, s, ev).disk)), Run(d, BootCalls(env, m, d)), x);
  }

  /**
   What a whole line costs others when it is glued to a fragment: the fragment goes with it. So a node without a row that was
   not forgotten is forgotten exactly if the whole lines do not give its time, that is, if the fragment was its entry.
   */
  lemma GluedLineCosts(env: Env, s: State, ev: Event, x: NodeId)
    requires Good(env, s) && Allowed(s, ev) && ev.Write? && x != ev.node.id && x in s.history.begun
    requires !Wipes(s.disk, ev.course) && Fragment(LogText(s.disk)) != ""
    requires ev.course.cut.GetOr(0) >= |PrintLine(WalEntry(ev.node.id, ev.node.capturedAt))|
    requires !Forgotten(env.keys, s, x)
    ensures Forgotten(env.keys, Next(env, s, ev), x)
       <==> && x in s.disk.nodes && Find(EffectiveRows(env.keys, s.disk), HexEncode(x)).None?
            && FirstLogged(Parse(WholeLines(LogText(s.disk))), x) != Some(TimeOf(s.history, x))
  {
    hide Inv, Effect, Forgotten, LogText, Find, HexEncode, EffectiveRows, Fragment, WholeLines, Parse, PrintLine, FirstLogged;
    hide LogOk, Body, Wipes;
    var d, e := s.disk, WalEntry(ev.node.id, ev.node.capturedAt);
    BegunStays(env, s, ev, x);
    BegunAfter(env, s, ev, x);
    CostsExactly(env, s, ev, x);
    InvRows(env.keys, d, s.history);
    BodyIsShorter(e);
    LogAppend(LogText(d), s.history.begun.Keys, e, |PrintLine(e)|);
    assert Parse(WholeLines(LogText(d))) + [] == Parse(WholeLines(LogText(d)));
  }

  /**
   What a failed read of the index costs: if the save after it goes through, its row is the only one left, and every other
   node is thrown back on the log.
   */
  lemma BlindSaveCosts(env: Env, s: State, ev: Event, x: NodeId)
    requires Good(env, s) && Allowed(s, ev) && ev.Write? && ev.course.blind && Renamed(ev.course.stop, 1)
    ensures var d, node, d' := s.disk, ev.node, Next(env, s, ev).disk;
            && IndexRows(env.keys, d') == [IndexEntry(HexEncode(node.id), node.capturedAt)]
            && DueRow(env.keys, d', x)
               == if x == node.id then Some(node.capturedAt)
                  else if x in d.nodes then FirstLogged(LogAfterWrite(d, node, ev.course.cut), x)
                  else None
  {
    hide Inv, Written, DueRow, LogText, HexEncode, Find, EffectiveRows, LogEntries, FirstLogged, LogAfterWrite, IndexRows;
    hide RowAfterWrite, SealNode, LoadIndex, TornAppend;
    WrittenIs(env, ev.draw, s.disk, ev.node, ev.course);
    DueAfterExactly(env, s, ev, x);
    if x == ev.node.id {
      OwnDueIs(env, s, ev);
      OwnDueSaved(s.disk, ev.node, ev.course);
    } else {
      RowOfOther(env.keys, s.disk, ev.node, ev.course, x);
    }
  }

  /** An index that does not open is replaced by the one new row, and so is one that cannot be read. */
  lemma UnreadableIndexIsReplaced(env: Env, n: nat, d: Disk, id: NodeId, ts: int64, blind: bool)
    requires LoadIndex(env.keys, d).Err? || blind
    ensures var calls := AppendCalls(env, n, d, id, ts, blind);
            IndexRows(env.keys, Run(d, calls)) == [IndexEntry(HexEncode(id), ts)]
  {
    hide LoadIndex, HexEncode, AppendIndexCalls, Run, CrashAt, SaveCalls;
    var whole := CrashPoint(2, None);
    AppendTakesTwo(env, n, d, id, ts, blind);
    CrashAfterAll(d, AppendCalls(env, n, d, id, ts, blind), whole);
    AppendStopped(env, n, d, id, ts, blind, whole);
    FindNothing(HexEncode(id));
  }

  // ---- Orphans ----

  /** A node file that neither the rows nor the log know, whole lines and fragment alike. */
  ghost predicate Orphan(k: Keys, d: Disk, id: NodeId) {
    id in d.nodes && Find(EffectiveRows(k, d), HexEncode(id)).None? && !Mentioned(LogText(d), id)
  }

  lemma {:induction false} UnnamedGetsNoRow(log: seq<WalEntry>, d: Disk, inIndex: set<string>, ends: seq<SaveEnd>,
                                            id: NodeId)
    requires |ends| == |log| && !Named(log, id)
    ensures RowThrough(None, log, d, inIndex, ends, id).None?
    decreases |log|
  {
    hide Renamed, Skipped;
    if log != [] {
      assert log[0] in log && forall e :: e in log[1..] ==> e in log;
      UnnamedGetsNoRow(log[1..], d, inIndex, ends[1..], id);
    }
  }

  lemma OrphanBoot(env: Env, n: nat, d: Disk, h: History, t: Trouble, id: NodeId)
    requires Inv(env.keys, d, h) && Fits(d, t) && Orphan(env.keys, d, id)
    ensures Orphan(env.keys, BootStopped(env, n, d, t), id)
  {
    hide Inv, BootStopped, IndexRows, RowsThrough, RowThrough, LoadIndex, AnySaved, KnownIds, Find, HexEncode, Mentioned;
    hide Named, Parse, EffectiveRows, LogOk;
    var k := env.keys;
    InvRows(k, d, h);
    LogIsParsed(d);
    UnmentionedUnlogged(LogText(d), h.begun.Keys, id);
    var before := RowsBefore(k, d, t);
    FindNothing(HexEncode(id));
    UnnamedGetsNoRow(LogEntries(d), d, KnownIds(before, t.blind), t.saves, id);
    BootRow(env, n, d, t, id);
    BootStoppedIs(env, n, d, t);
    NothingMentioned(id);
  }

  lemma NothingMentioned(id: NodeId)
    ensures !Mentioned("", id)
  {
    NothingLogged({});
    hide Parse, Fragment, WholeLines;
  }

  lemma OrphanWrite(env: Env, n: nat, d: Disk, h: History, node: MemoryNode, c: Course, id: NodeId)
    requires Inv(env.keys, d, h) && id != node.id && Orphan(env.keys, d, id)
    ensures Orphan(env.keys, Written(env, n, d, node, c), id)
  {
    hide Inv, Written, Find, HexEncode, Mentioned, EffectiveRows, LogOk, LogText, RowAfterWrite, PrintLine, IndexRows;
    hide RowAdded, SealNode, LoadIndex, TornAppend, Wipes;
    var e := WalEntry(node.id, node.capturedAt);
    InvRows(env.keys, d, h);
    WrittenIs(env, n, d, node, c);
    TornAppendIs(d, node.id, node.capturedAt, c.cut);
    WriteRow(env, n, d, node, c, id);
    RowOfOther(env.keys, d, node, c, id);
    StaysUnmentioned(LogText(d), h.begun.Keys, e, Chars(e, c.cut), id);
  }

  lemma OrphanDelete(env: Env, n: nat, d: Disk, gone: NodeId, stop: CrashPoint, id: NodeId)
    requires LoadIndex(env.keys, d).Ok? && Orphan(env.keys, d, id)
    ensures var d' := CrashAt(d, DeleteCalls(env, n, d, gone), stop);
            id in d'.nodes ==> Orphan(env.keys, d', id)
  {
    hide LoadIndex, DeleteCalls, CrashAt, Find, HexEncode, Mentioned, EffectiveRows, IndexRows, Without, RowAfterDelete;
    DeletedIs(env, n, d, gone, stop);
    DeleteRow(env, n, d, gone, stop, id);
    DeleteRowNone(env.keys, d, gone, stop, id);
  }

  lemma OrphanStep(env: Env, s: State, ev: Event, id: NodeId)
    requires Good(env, s) && Allowed(s, ev) && id in s.history.begun && Orphan(env.keys, s.disk, id)
    ensures var d' := Next(env, s, ev).disk;
            id in d'.nodes ==> Orphan(env.keys, d', id)
  {
    hide Inv, Orphan, BootStopped, Written, DeleteCalls, CrashAt;
    match ev
    case Boot(t, _, n) => OrphanBoot(env, n, s.disk, s.history, t, id);
    case Kill =>
    case Write(node, c, _, n) => OrphanWrite(env, n, s.disk, s.history, node, c, id);
    case Delete(gone, stop, _, n) =>
      InvRows(env.keys, s.disk, s.history);
      OrphanDelete(env, n, s.disk, gone, stop, id);
  }

  lemma {:induction false} OrphanRun(env: Env, s: State, run: seq<Event>, id: NodeId)
    requires Good(env, s) && AllAllowed(env, s, run) && id in s.history.begun
    requires id in s.disk.nodes ==> Orphan(env.keys, s.disk, id)
    ensures var t := After(env, s, run);
            && id in t.history.begun && (id in t.disk.nodes ==> Orphan(env.keys, t.disk, id))
    decreases |run|
  {
    hide Good, Next, Allowed, Orphan;
    if run != [] {
      var t := Next(env, s, run[0]);
      StepKeepsGood(env, s, run[0]);
      StepFrame(env, s, run[0], id);
      if id in t.disk.nodes {
        OrphanStep(env, s, run[0], id);
      }
      OrphanRun(env, t, run[1..], id);
    }
  }

  lemma OrphanReads(k: Keys, d: Disk, id: NodeId)
    requires Orphan(k, d, id)
    ensures RowTime(k, d, id) == ZERO_TIME
  {
    hide IndexRows, EffectiveRows, Find, HexEncode, Mentioned;
    IndexedRows(k, d);
    FindNothing(HexEncode(id));
  }

  /**
   A node that neither the rows nor the log know stays so through every later life, whatever fails or succeeds in it; it reads
   exactly if its file is still whole and it is sealed at the instant a missing row stands for.
   */
  lemma OrphanStaysLost(env: Env, s: State, run: seq<Event>, id: NodeId)
    requires Good(env, s) && AllAllowed(env, s, run) && Orphan(env.keys, s.disk, id)
    ensures var t := After(env, s, run);
            && id in t.history.begun && (id in t.disk.nodes ==> Orphan(env.keys, t.disk, id))
            && (Read(env.keys, t.disk, id).Ok? <==> Whole(env.keys, t, id) && TimeOf(t.history, id) == ZERO_TIME)
  {
    hide Good, Next, Allowed, After, AllAllowed, Read, SealedBlob, RowTime, Orphan;
    OrphanHasFile(env.keys, s.disk, id);
    GoodFiles(env, s, id);
    OrphanRun(env, s, run, id);
    RunKeepsGood(env, s, run);
    var t := After(env, s, run);
    ReadExactly(env, t, id);
    if id in t.disk.nodes {
      OrphanReads(env.keys, t.disk, id);
    }
  }

  lemma OrphanHasFile(k: Keys, d: Disk, id: NodeId)
    requires Orphan(k, d, id)
    ensures id in d.nodes
  {
  }

  /** The log goes although saves failed: a file without a row for which no save went through is an orphan from then on. */
  lemma FailedReindexOrphans(env: Env, s: State, ev: Event, id: NodeId)
    requires Good(env, s) && Allowed(s, ev) && Completes(s, ev) && Sighted(ev.trouble)
    ensures Orphan(env.keys, Next(env, s, ev).disk, id)
       <==> && id in s.disk.nodes
            && Find(EffectiveRows(env.keys, s.disk), HexEncode(id)).None?
            && !SavedSome(LogEntries(s.disk), ev.trouble.saves, id)
  {
    hide Inv, BootStopped, IndexRows, RowsThrough, LoadIndex, AnySaved, KnownIds, Find, HexEncode, Mentioned;
    hide EffectiveRows, LogEntries, SavedSome, FirstSaved;
    var k, d, t := env.keys, s.disk, ev.trouble;
    FaultyStartupRow(env, ev.draw, d, t, id);
    BootStoppedIs(env, ev.draw, d, t);
    IndexedRows(k, Next(env, s, ev).disk);
    NothingMentioned(id);
  }

  /** A write orphans its node exactly if it left a file, its save did not go through and the log does not mention it. */
  lemma WriteOrphans(env: Env, s: State, ev: Event)
    requires Good(env, s) && Allowed(s, ev) && ev.Write?
    ensures Orphan(env.keys, Next(env, s, ev).disk, ev.node.id)
       <==> && FileLeft(ev.course.stop) && !Renamed(ev.course.stop, 1)
            && (Fragment(LogText(s.disk)) != "" || ev.course.cut.GetOr(0) <= 32)
  {
    hide Inv, Written, Find, HexEncode, EffectiveRows, LogOk, LogText, PrintLine, IndexRows, Parse, Body;
    hide RowAdded, SealNode, LoadIndex, TornAppend, Mentioned, LogEntries;
    var k, d, id, c := env.keys, s.disk, ev.node.id, ev.course;
    var e := WalEntry(id, ev.node.capturedAt);
    FreshIsAbsent(k, d, s.history, id);
    WrittenIs(env, ev.draw, d, ev.node, c);
    TornAppendIs(d, id, ev.node.capturedAt, c.cut);
    WriteRow(env, ev.draw, d, ev.node, c, id);
    RowAddedFinds(IndexRows(k, d), id, ev.node.capturedAt, c.blind, id);
    InvRows(k, d, s.history);
    OwnMention(LogText(d), s.history.begun.Keys, e, Chars(e, c.cut));
    LongerThanId(e);
  }

  lemma LongerThanId(e: WalEntry)
    ensures |PrintLine(e)| > 33
  {
    BodyShape(e);
  }
}
