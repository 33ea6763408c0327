/** Looking rows up by id, and what adding and dropping rows does to the others. */
module Rows {
  import opened Wrappers
  import opened Text
  import opened Wal
  import opened Documents
  import opened StoreModel
  import opened Startup

  // ---- Lookup ----

  lemma {:induction false} FoundRow(es: seq<IndexEntry>, hexId: string)
    ensures Find(es, hexId).Some? ==> IndexEntry(hexId, Find(es, hexId).value) in es
    ensures Find(es, hexId).None? <==> forall e :: e in es ==> e.id != hexId
  {
    if es != [] {
      FoundRow(es[1..], hexId);
      assert forall e :: e in es <==> e == es[0] || e in es[1..];
      if es[0].id == hexId {
        assert es[0] in es;
      }
    }
  }

  lemma {:induction false} FindAppended(es: seq<IndexEntry>, e: IndexEntry, hexId: string)
    ensures Find(es + [e], hexId)
         == if Find(es, hexId).Some? then Find(es, hexId) else if e.id == hexId then Some(e.ts) else None
  {
    if es == [] {
      assert es + [e] == [e];
      assert Find([e][1..], hexId) == None;
    } else {
      assert (es + [e])[1..] == es[1..] + [e];
      FindAppended(es[1..], e, hexId);
    }
  }

  lemma {:induction false} FindWithout(es: seq<IndexEntry>, hexId: string, other: string)
    ensures Find(Without(es, hexId), other) == if other == hexId then None else Find(es, other)
  {
    if es != [] {
      FindWithout(es[1..], hexId, other);
    }
  }

  lemma RowsOfOthers(es: seq<IndexEntry>, id: NodeId, ts: int64, x: NodeId)
    requires x != id
    ensures Find(AddRow(es, id, ts), HexEncode(x)) == Find(es, HexEncode(x))
    ensures Find(Without(es, HexEncode(id)), HexEncode(x)) == Find(es, HexEncode(x))
  {
    if HexEncode(x) == HexEncode(id) {
      HexInjective(x, id);
    }
    hide HexEncode, Find, Without;
    FindAppended(es, IndexEntry(HexEncode(id), ts), HexEncode(x));
    FindWithout(es, HexEncode(id), HexEncode(x));
  }

  lemma FindNothing(hexId: string)
    ensures Find([], hexId) == None
  {
  }

  lemma AddRowFindsTime(es: seq<IndexEntry>, id: NodeId, ts: int64, x: NodeId)
    ensures Find(AddRow(es, id, ts), HexEncode(x))
         == if x == id && Find(es, HexEncode(x)).None? then Some(ts) else Find(es, HexEncode(x))
  {
    hide HexEncode, Find;
    if x == id {
      FindAppended(es, IndexEntry(HexEncode(id), ts), HexEncode(x));
    } else {
      RowsOfOthers(es, id, ts, x);
    }
  }

  lemma FindSingle(id: NodeId, ts: int64, x: NodeId)
    ensures Find([IndexEntry(HexEncode(id), ts)], HexEncode(x)) == if x == id then Some(ts) else None
  {
    if HexEncode(x) == HexEncode(id) {
      HexInjective(x, id);
    }
    hide HexEncode;
    var row := IndexEntry(HexEncode(id), ts);
    assert [row][1..] == [];
    FindNothing(HexEncode(x));
  }

  /** A row found after a replay was there before, or has the timestamp of the first log entry for its id. */
  lemma {:induction false} ReplayedFinds(es: seq<IndexEntry>, log: seq<WalEntry>, files: set<NodeId>, id: NodeId)
    ensures Find(Replayed(es, log, files), HexEncode(id)) == LogRow(Find(es, HexEncode(id)), log, id in files, id)
    decreases |log|
  {
    hide Find, HexEncode, AddRow;
    if log != [] {
      var e := log[0];
      AddRowFindsTime(es, e.id, e.ts, id);
      ReplayedFinds(if e.id in files then AddRow(es, e.id, e.ts) else es, log[1..], files, id);
    }
  }

  /** The row a replay of this log makes of the row there was. */
  function LogRow(row: Option<int64>, log: seq<WalEntry>, there: bool, id: NodeId): Option<int64> {
    if row.Some? then row else if there then FirstLogged(log, id) else None
  }

  // ---- Rows over a set of ids ----

  ghost predicate NoDuplicates(es: seq<IndexEntry>) {
    forall i, j :: 0 <= i < j < |es| ==> es[i].id != es[j].id
  }

  /** Each id at most once, and only these. */
  ghost predicate RowsOk(es: seq<IndexEntry>, ids: set<NodeId>) {
    && NoDuplicates(es)
    && forall e :: e in es ==> exists id :: id in ids && e.id == HexEncode(id)
  }

  lemma NoRowsOk(ids: set<NodeId>)
    ensures RowsOk([], ids)
  {
  }

  lemma OneRowOk(id: NodeId, ts: int64, ids: set<NodeId>)
    requires id in ids
    ensures RowsOk([IndexEntry(HexEncode(id), ts)], ids)
  {
    hide HexEncode;
  }

  lemma RowsOkMore(es: seq<IndexEntry>, ids: set<NodeId>, more: set<NodeId>)
    requires RowsOk(es, ids) && ids <= more
    ensures RowsOk(es, more)
  {
    hide HexEncode;
    forall e | e in es
      ensures exists id :: id in more && e.id == HexEncode(id)
    {
      var id :| id in ids && e.id == HexEncode(id);
    }
  }

  lemma RowsAreOfIds(es: seq<IndexEntry>, ids: set<NodeId>, id: NodeId)
    requires RowsOk(es, ids)
    ensures Find(es, HexEncode(id)).Some? ==> id in ids
  {
    hide NoDuplicates;
    FoundRow(es, HexEncode(id));
    if Find(es, HexEncode(id)).Some? {
      var e := IndexEntry(HexEncode(id), Find(es, HexEncode(id)).value);
      var x :| x in ids && e.id == HexEncode(x);
      HexInjective(x, id);
    }
  }

  lemma AddRowOk(es: seq<IndexEntry>, ids: set<NodeId>, id: NodeId, ts: int64)
    requires RowsOk(es, ids) && id in ids
    ensures RowsOk(AddRow(es, id, ts), ids)
  {
    hide HexEncode;
    FoundRow(es, HexEncode(id));
    var es' := AddRow(es, id, ts);
    if es' != es {
      assert forall e :: e in es' <==> e in es || e == IndexEntry(HexEncode(id), ts);
    }
  }

  lemma {:induction false} WithoutIs(es: seq<IndexEntry>, hexId: string)
    ensures forall e :: e in Without(es, hexId) <==> e in es && e.id != hexId
  {
    if es != [] {
      WithoutIs(es[1..], hexId);
      assert forall e :: e in es <==> e == es[0] || e in es[1..];
    }
  }

  lemma {:induction false} WithoutNoDuplicates(es: seq<IndexEntry>, hexId: string)
    requires NoDuplicates(es)
    ensures NoDuplicates(Without(es, hexId))
  {
    if es != [] {
      WithoutNoDuplicates(es[1..], hexId);
      WithoutIs(es[1..], hexId);
      var rest := Without(es[1..], hexId);
      forall i | 0 <= i < |rest|
        ensures rest[i].id != es[0].id
      {
        assert rest[i] in es[1..];
      }
    }
  }

  lemma WithoutOk(es: seq<IndexEntry>, ids: set<NodeId>, hexId: string)
    requires RowsOk(es, ids)
    ensures RowsOk(Without(es, hexId), ids)
  {
    WithoutIs(es, hexId);
    WithoutNoDuplicates(es, hexId);
  }
}
