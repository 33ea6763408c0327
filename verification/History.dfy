/**
 What the store was asked for, and what holds of the disk at every moment of its life, whichever calls fail.

 A call that fails leaves on the disk what a crash at that call would leave, so one kind of stop point serves both.
 */
module History {
  import opened Wrappers
  import opened Text
  import opened Wal
  import opened Fragments
  import opened Documents
  import opened Encrypt
  import opened FileSystem
  import opened StoreModel
  import opened Startup
  import opened Rows
  import opened Faults

  // ---- Ghost history ----

  datatype Sealed = Sealed(node: MemoryNode, nonce: Nonce)

  /** What was asked for: writes that began, node files that were fully written, deletes that began, deletes that finished. */
  datatype History = History(
    begun: map<NodeId, Sealed>,
    stored: set<NodeId>,
    deleting: set<NodeId>,
    deleted: set<NodeId>)

  function SealedBlob(k: Keys, s: Sealed): Blob {
    Seal(k, s.node.id, s.node.capturedAt, s.nonce, NodeDoc(s.node))
  }

  // ---- The invariant ----

  ghost predicate HistoryOk(h: History) {
    && h.stored <= h.begun.Keys
    && h.deleted <= h.deleting <= h.begun.Keys
    && forall id :: id in h.begun ==> h.begun[id].node.id == id
  }

  /** Every node file is what was sealed, or a prefix of it. */
  ghost predicate FilesOk(k: Keys, d: Disk, h: History) {
    forall id :: id in d.nodes ==> id in h.begun && d.nodes[id] <= SealedBlob(k, h.begun[id])
  }

  ghost predicate StoredKept(k: Keys, d: Disk, h: History)
    requires h.stored <= h.begun.Keys
  {
    forall id :: id in h.stored - h.deleting ==> id in d.nodes && d.nodes[id] == SealedBlob(k, h.begun[id])
  }

  ghost predicate DeletedGone(es: seq<IndexEntry>, d: Disk, h: History) {
    forall id :: id in h.deleted ==> id !in d.nodes && Find(es, HexEncode(id)).None?
  }

  /** The index opens; rows and log speak of begun writes only; the log is whole lines and then a fragment. */
  ghost predicate Inv(k: Keys, d: Disk, h: History) {
    && HistoryOk(h)
    && LoadIndex(k, d).Ok?
    && RowsOk(EffectiveRows(k, d), h.begun.Keys)
    && LogOk(LogText(d), h.begun.Keys)
    && FilesOk(k, d, h)
    && StoredKept(k, d, h)
    && DeletedGone(EffectiveRows(k, d), d, h)
  }

  lemma InvRows(k: Keys, d: Disk, h: History)
    requires Inv(k, d, h)
    ensures RowsOk(EffectiveRows(k, d), h.begun.Keys) && LogOk(LogText(d), h.begun.Keys) && LoadIndex(k, d).Ok?
  {
    hide RowsOk, EffectiveRows, LoadIndex, LogOk, LogText, Find;
  }

  /** The rows in index.enc are those startup works from, or there are none. */
  lemma IndexedRows(k: Keys, d: Disk)
    ensures if Migrated(d) then IndexRows(k, d) == EffectiveRows(k, d) else d.index.None? && IndexRows(k, d) == []
  {
  }

  lemma IndexRowsOk(k: Keys, d: Disk, h: History)
    requires Inv(k, d, h)
    ensures RowsOk(IndexRows(k, d), h.begun.Keys)
  {
    hide RowsOk, Inv, EffectiveRows, IndexRows;
    InvRows(k, d, h);
    IndexedRows(k, d);
    NoRowsOk(h.begun.Keys);
  }

  /** Nothing on the disk mentions a fresh id. */
  lemma FreshIsAbsent(k: Keys, d: Disk, h: History, id: NodeId)
    requires Inv(k, d, h) && id !in h.begun
    ensures id !in d.nodes && Find(EffectiveRows(k, d), HexEncode(id)).None? && Find(IndexRows(k, d), HexEncode(id)).None?
    ensures !Named(LogEntries(d), id)
  {
    hide LogOk, EffectiveRows, IndexRows, Find, RowsOk, LoadIndex, HexEncode, Parse, SealedBlob;
    RowsAreOfIds(EffectiveRows(k, d), h.begun.Keys, id);
    IndexedRows(k, d);
    FindNothing(HexEncode(id));
    LogIds(LogText(d), h.begun.Keys);
    NotNamed(Parse(LogText(d)), h.begun.Keys, id);
  }

  lemma FilePrefix(k: Keys, d: Disk, h: History, id: NodeId)
    requires Inv(k, d, h) && id in h.begun
    ensures h.begun[id].node.id == id
    ensures id in d.nodes ==> d.nodes[id] <= SealedBlob(k, h.begun[id])
    ensures id in h.stored - h.deleting ==> id in d.nodes && d.nodes[id] == SealedBlob(k, h.begun[id])
  {
    hide SealedBlob, HexEncode, Find, LoadIndex, LogOk, EffectiveRows, RowsOk;
  }

  lemma FileIsBegun(k: Keys, d: Disk, h: History, id: NodeId)
    requires Inv(k, d, h) && (id in d.nodes || id in h.stored || id in h.deleting)
    ensures id in h.begun
  {
    hide SealedBlob, HexEncode, Find, LoadIndex, LogOk, EffectiveRows, RowsOk;
  }

  // ---- Startup keeps the invariant, whatever fails in it ----

  lemma {:induction false} RowsThroughOk(es: seq<IndexEntry>, log: seq<WalEntry>, d: Disk, inIndex: set<string>,
                                         ends: seq<SaveEnd>, ids: set<NodeId>)
    requires |ends| == |log| && RowsOk(es, ids) && forall e :: e in log ==> e.id in ids
    ensures RowsOk(RowsThrough(es, log, d, inIndex, ends), ids)
    decreases |log|
  {
    hide RowsOk, Skipped, Renamed, HexEncode, AddRow;
    if log != [] {
      var e, end := log[0], ends[0];
      assert e in log && forall x :: x in log[1..] ==> x in log;
      AddRowOk(es, ids, e.id, e.ts);
      OneRowOk(e.id, e.ts, ids);
      var next := if Skipped(d, e, inIndex) || !Renamed(end.stop, 0) then es else RowAdded(es, e.id, e.ts, end.blind);
      RowsThroughOk(next, log[1..], d, inIndex, ends[1..], ids);
    }
  }

  lemma {:induction false} NoFileNoRow(row: Option<int64>, log: seq<WalEntry>, d: Disk, inIndex: set<string>,
                                       ends: seq<SaveEnd>, id: NodeId)
    requires |ends| == |log| && row.None? && id !in d.nodes
    ensures RowThrough(row, log, d, inIndex, ends, id).None?
    decreases |log|
  {
    hide Renamed, HexEncode;
    if log != [] {
      NoFileNoRow(row, log[1..], d, inIndex, ends[1..], id);
    }
  }

  lemma BootRowsOk(env: Env, n: nat, d: Disk, h: History, t: Trouble)
    requires Inv(env.keys, d, h) && Fits(d, t)
    ensures RowsOk(EffectiveRows(env.keys, BootStopped(env, n, d, t)), h.begun.Keys)
  {
    hide Inv, RowsOk, LogOk, BootStopped, RowsThrough, IndexRows, KnownIds, AnySaved, LoadIndex, Parse;
    var k, ids := env.keys, h.begun.Keys;
    InvRows(k, d, h);
    LogIds(LogText(d), ids);
    NoRowsOk(ids);
    var before := RowsBefore(k, d, t);
    RowsThroughOk(before, LogEntries(d), d, KnownIds(before, t.blind), t.saves, ids);
    BootStoppedIs(env, n, d, t);
    IndexedRows(k, BootStopped(env, n, d, t));
  }

  lemma BootRowNone(k: Keys, d: Disk, t: Trouble, id: NodeId)
    requires Fits(d, t) && id !in d.nodes && Find(EffectiveRows(k, d), HexEncode(id)).None?
    ensures RowAfterBoot(k, d, t, id).None?
  {
    hide EffectiveRows, Find, HexEncode, LogEntries, RowThrough, AnySaved, KnownIds;
    FindNothing(HexEncode(id));
    var before := RowsBefore(k, d, t);
    NoFileNoRow(None, LogEntries(d), d, KnownIds(before, t.blind), t.saves, id);
  }

  lemma BootDeletedGone(env: Env, n: nat, d: Disk, h: History, t: Trouble)
    requires DeletedGone(EffectiveRows(env.keys, d), d, h) && Fits(d, t)
    ensures var d' := BootStopped(env, n, d, t);
            DeletedGone(EffectiveRows(env.keys, d'), d', h)
  {
    hide BootStopped, RowsThrough, IndexRows, KnownIds, AnySaved, LoadIndex, EffectiveRows, Find, HexEncode;
    hide RowAfterBoot, ReplaySaves, RowsBefore;
    var d' := BootStopped(env, n, d, t);
    BootStoppedIs(env, n, d, t);
    forall id | id in h.deleted
      ensures id !in d'.nodes && Find(EffectiveRows(env.keys, d'), HexEncode(id)).None?
    {
      BootRow(env, n, d, t, id);
      BootRowNone(env.keys, d, t, id);
    }
  }

  lemma SameFilesOk(k: Keys, d: Disk, d': Disk, h: History)
    requires HistoryOk(h) && FilesOk(k, d, h) && StoredKept(k, d, h) && d'.nodes == d.nodes
    ensures FilesOk(k, d', h) && StoredKept(k, d', h)
  {
    hide SealedBlob;
  }

  lemma BootKeepsInv(env: Env, n: nat, d: Disk, h: History, t: Trouble)
    requires Inv(env.keys, d, h) && Fits(d, t)
    ensures Inv(env.keys, BootStopped(env, n, d, t), h)
  {
    hide RowsOk, LogOk, BootStopped, RowsThrough, IndexRows, KnownIds, AnySaved, LoadIndex, EffectiveRows;
    hide SealedBlob, ReplaySaves, RowsBefore, HistoryOk, FilesOk, StoredKept, DeletedGone;
    BootStoppedIs(env, n, d, t);
    BootRowsOk(env, n, d, h, t);
    NothingLogged(h.begun.Keys);
    BootDeletedGone(env, n, d, h, t);
    SameFilesOk(env.keys, d, BootStopped(env, n, d, t), h);
  }

  // ---- A write keeps it, wherever it fails ----

  function BeginWrite(env: Env, n: nat, h: History, node: MemoryNode): History {
    h.(begun := h.begun[node.id := Sealed(node.(schemaVersion := 1), env.rand(n))])
  }

  function RecordWrite(env: Env, n: nat, h: History, node: MemoryNode, c: Course): History {
    var begun := BeginWrite(env, n, h, node);
    if c.stop.done >= 1 then begun.(stored := begun.stored + {node.id}) else begun
  }

  lemma SealNodeIsSealed(env: Env, n: nat, h: History, node: MemoryNode, c: Course)
    ensures var h' := RecordWrite(env, n, h, node, c);
            node.id in h'.begun && SealNode(env, n, node) == SealedBlob(env.keys, h'.begun[node.id])
  {
    hide Seal;
  }

  lemma WriteRowsOk(env: Env, n: nat, d: Disk, h: History, node: MemoryNode, c: Course)
    requires Inv(env.keys, d, h) && node.id !in h.begun
    ensures var h' := RecordWrite(env, n, h, node, c);
            RowsOk(EffectiveRows(env.keys, Written(env, n, d, node, c)), h'.begun.Keys)
  {
    hide Inv, RowsOk, LogOk, IndexRows, LoadIndex, Written, AddRow, HexEncode, SealNode, TornAppend;
    var k, id, ts := env.keys, node.id, node.capturedAt;
    var ids := h.begun.Keys + {id};
    var d' := Written(env, n, d, node, c);
    InvRows(k, d, h);
    IndexRowsOk(k, d, h);
    RowsOkMore(IndexRows(k, d), h.begun.Keys, ids);
    RowsOkMore(EffectiveRows(k, d), h.begun.Keys, ids);
    AddRowOk(IndexRows(k, d), ids, id, ts);
    OneRowOk(id, ts, ids);
    WrittenIs(env, n, d, node, c);
    if !Renamed(c.stop, 1) {
      SameIndexRows(k, d, d');
    }
    assert RecordWrite(env, n, h, node, c).begun.Keys == ids;
  }

  lemma WriteLogOk(env: Env, n: nat, d: Disk, h: History, node: MemoryNode, c: Course)
    requires Inv(env.keys, d, h) && node.id !in h.begun
    ensures var h' := RecordWrite(env, n, h, node, c);
            LogOk(LogText(Written(env, n, d, node, c)), h'.begun.Keys)
  {
    hide Inv, LogOk, LogText, Written, TornAppend, PrintLine, RowAdded, IndexRows, SealNode, Parse, Body, LoadIndex;
    var e, ids := WalEntry(node.id, node.capturedAt), h.begun.Keys;
    InvRows(env.keys, d, h);
    WrittenIs(env, n, d, node, c);
    TornAppendIs(d, node.id, node.capturedAt, c.cut);
    LogAppend(LogText(d), ids, e, Chars(e, c.cut));
    assert RecordWrite(env, n, h, node, c).begun.Keys == ids + {e.id};
    LogOkMore(LogText(Written(env, n, d, node, c)), if Fragment(LogText(d)) == "" then ids + {e.id} else ids, ids + {e.id});
  }

  lemma WriteFilesOk(env: Env, n: nat, d: Disk, h: History, node: MemoryNode, c: Course)
    requires HistoryOk(h) && FilesOk(env.keys, d, h) && StoredKept(env.keys, d, h) && node.id !in h.begun
    ensures var d', h' := Written(env, n, d, node, c), RecordWrite(env, n, h, node, c);
            HistoryOk(h') && FilesOk(env.keys, d', h') && StoredKept(env.keys, d', h')
  {
    hide IndexRows, LoadIndex, Written, RowAdded, SealNode, SealedBlob, LogText;
    WrittenIs(env, n, d, node, c);
    SealNodeIsSealed(env, n, h, node, c);
  }

  lemma WriteDeletedGone(env: Env, n: nat, d: Disk, h: History, node: MemoryNode, c: Course)
    requires HistoryOk(h) && DeletedGone(EffectiveRows(env.keys, d), d, h) && node.id !in h.begun
    ensures var d' := Written(env, n, d, node, c);
            DeletedGone(EffectiveRows(env.keys, d'), d', RecordWrite(env, n, h, node, c))
  {
    hide EffectiveRows, Written, Find, HexEncode, RowAfterWrite, SealNode, IndexRows, LoadIndex, LogText, RowAdded;
    var d' := Written(env, n, d, node, c);
    WrittenIs(env, n, d, node, c);
    forall x | x in h.deleted
      ensures x !in d'.nodes && Find(EffectiveRows(env.keys, d'), HexEncode(x)).None?
    {
      WriteRow(env, n, d, node, c, x);
      WriteRowNone(env.keys, d, node, c, x);
    }
  }

  lemma WriteLoads(env: Env, n: nat, d: Disk, node: MemoryNode, c: Course)
    requires LoadIndex(env.keys, d).Ok?
    ensures LoadIndex(env.keys, Written(env, n, d, node, c)).Ok?
  {
    hide Written, LoadIndex, IndexRows, LogText, RowAdded, SealNode;
    WrittenIs(env, n, d, node, c);
  }

  lemma WriteKeepsInv(env: Env, n: nat, d: Disk, h: History, node: MemoryNode, c: Course)
    requires Inv(env.keys, d, h) && node.id !in h.begun
    ensures Inv(env.keys, Written(env, n, d, node, c), RecordWrite(env, n, h, node, c))
  {
    hide RowsOk, LogOk, LogText, LoadIndex, Written, EffectiveRows, HistoryOk, FilesOk, StoredKept, DeletedGone;
    hide RecordWrite;
    WriteRowsOk(env, n, d, h, node, c);
    WriteLogOk(env, n, d, h, node, c);
    WriteLoads(env, n, d, node, c);
    WriteFilesOk(env, n, d, h, node, c);
    WriteDeletedGone(env, n, d, h, node, c);
  }

  lemma WriteRowNone(k: Keys, d: Disk, node: MemoryNode, c: Course, x: NodeId)
    requires x != node.id && Find(EffectiveRows(k, d), HexEncode(x)).None?
    ensures RowAfterWrite(k, d, node, c, x).None?
  {
    hide EffectiveRows, IndexRows, Find, HexEncode, RowAdded;
    RowAddedFinds(IndexRows(k, d), node.id, node.capturedAt, c.blind, x);
    IndexedRows(k, d);
    FindNothing(HexEncode(x));
  }

  // ---- A delete keeps it, wherever it fails ----

  /** Deleting an id nobody ever wrote leaves no trace in the history. */
  function RecordDelete(h: History, id: NodeId, stop: CrashPoint): History {
    if id !in h.begun then h
    else h.(deleting := h.deleting + {id}, deleted := if stop.done >= 3 then h.deleted + {id} else h.deleted)
  }

  lemma DeleteRowsOk(env: Env, n: nat, d: Disk, h: History, id: NodeId, stop: CrashPoint)
    requires Inv(env.keys, d, h)
    ensures RowsOk(EffectiveRows(env.keys, CrashAt(d, DeleteCalls(env, n, d, id), stop)), h.begun.Keys)
  {
    hide Inv, RowsOk, LogOk, IndexRows, LoadIndex, DeleteCalls, CrashAt, Without, HexEncode;
    var k := env.keys;
    var d' := CrashAt(d, DeleteCalls(env, n, d, id), stop);
    InvRows(k, d, h);
    IndexRowsOk(k, d, h);
    WithoutOk(IndexRows(k, d), h.begun.Keys, HexEncode(id));
    DeletedIs(env, n, d, id, stop);
    if !Renamed(stop, 1) {
      SameIndexRows(k, d, d');
    }
  }

  lemma DeleteFilesOk(env: Env, n: nat, d: Disk, h: History, id: NodeId, stop: CrashPoint)
    requires LoadIndex(env.keys, d).Ok?
    requires HistoryOk(h) && FilesOk(env.keys, d, h) && StoredKept(env.keys, d, h)
    ensures var d', h' := CrashAt(d, DeleteCalls(env, n, d, id), stop), RecordDelete(h, id, stop);
            HistoryOk(h') && FilesOk(env.keys, d', h') && StoredKept(env.keys, d', h')
  {
    hide IndexRows, LoadIndex, DeleteCalls, CrashAt, Without, HexEncode, SealedBlob;
    DeletedIs(env, n, d, id, stop);
  }

  lemma DeleteDeletedGone(env: Env, n: nat, d: Disk, h: History, id: NodeId, stop: CrashPoint)
    requires LoadIndex(env.keys, d).Ok? && DeletedGone(EffectiveRows(env.keys, d), d, h)
    ensures var d' := CrashAt(d, DeleteCalls(env, n, d, id), stop);
            DeletedGone(EffectiveRows(env.keys, d'), d', RecordDelete(h, id, stop))
  {
    hide IndexRows, LoadIndex, DeleteCalls, CrashAt, Without, HexEncode, Find, EffectiveRows, RowAfterDelete;
    var d' := CrashAt(d, DeleteCalls(env, n, d, id), stop);
    DeletedIs(env, n, d, id, stop);
    forall x | x in RecordDelete(h, id, stop).deleted
      ensures x !in d'.nodes && Find(EffectiveRows(env.keys, d'), HexEncode(x)).None?
    {
      DeleteRow(env, n, d, id, stop, x);
      DeleteRowNone(env.keys, d, id, stop, x);
    }
  }

  lemma DeleteLeaves(env: Env, n: nat, d: Disk, id: NodeId, stop: CrashPoint)
    requires LoadIndex(env.keys, d).Ok?
    ensures var d' := CrashAt(d, DeleteCalls(env, n, d, id), stop);
            LoadIndex(env.keys, d').Ok? && LogText(d') == LogText(d) && (stop.done >= 1 ==> id !in d'.nodes)
  {
    hide IndexRows, LoadIndex, DeleteCalls, CrashAt, Without, HexEncode;
    DeletedIs(env, n, d, id, stop);
  }

  lemma DeleteKeepsInv(env: Env, n: nat, d: Disk, h: History, id: NodeId, stop: CrashPoint)
    requires Inv(env.keys, d, h)
    ensures var d' := CrashAt(d, DeleteCalls(env, n, d, id), stop);
            Inv(env.keys, d', RecordDelete(h, id, stop)) && (stop.done >= 1 ==> id !in d'.nodes)
  {
    hide RowsOk, LogOk, LogText, LoadIndex, DeleteCalls, CrashAt, EffectiveRows, HistoryOk, FilesOk, StoredKept, DeletedGone;
    DeleteRowsOk(env, n, d, h, id, stop);
    DeleteLeaves(env, n, d, id, stop);
    DeleteFilesOk(env, n, d, h, id, stop);
    DeleteDeletedGone(env, n, d, h, id, stop);
  }

  lemma DeleteRowNone(k: Keys, d: Disk, gone: NodeId, stop: CrashPoint, x: NodeId)
    requires Find(EffectiveRows(k, d), HexEncode(x)).None? || (x == gone && Renamed(stop, 1))
    ensures RowAfterDelete(k, d, gone, stop, x).None?
  {
    hide EffectiveRows, IndexRows, Find, HexEncode;
    IndexedRows(k, d);
    FindNothing(HexEncode(x));
  }
}
