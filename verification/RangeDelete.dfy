/** Deleting every node of a time range, and the retention sweep. */
module RangeDelete {
  import opened Wrappers
  import opened Text
  import opened Wal
  import opened Documents
  import opened Encrypt
  import opened FileSystem
  import opened StoreModel
  import opened Startup
  import opened Rows
  import opened Faults
  import opened History
  import opened Recovery
  import opened EmbeddingCache

  // ---- Listing ----

  /** [after, before); no lower bound when `after` is the zero time. */
  predicate InRange(ts: int64, after: Option<int64>, before: int64) {
    (after.None? || ts >= after.value) && ts < before
  }

  function ListInRange(es: seq<IndexEntry>, after: Option<int64>, before: int64): seq<NodeId> {
    if es == [] then []
    else
      var rest := ListInRange(es[1..], after, before);
      if InRange(es[0].ts, after, before) && DecodeId(es[0].id).Some? then [DecodeId(es[0].id).value] + rest else rest
  }

  function ListOlderThan(es: seq<IndexEntry>, before: int64): seq<NodeId> {
    if es == [] then []
    else
      var rest := ListOlderThan(es[1..], before);
      if es[0].ts < before && DecodeId(es[0].id).Some? then [DecodeId(es[0].id).value] + rest else rest
  }

  /** The sweep lists what a range delete from the beginning of time lists. */
  lemma {:induction false} SweepIsRangeFromZero(es: seq<IndexEntry>, before: int64)
    ensures ListOlderThan(es, before) == ListInRange(es, None, before)
  {
    if es != [] {
      SweepIsRangeFromZero(es[1..], before);
    }
  }

  /** What is listed: the ids of exactly the rows from `after` on, if it is given, and before `before`. */
  lemma {:induction false} ListedExactly(es: seq<IndexEntry>, after: Option<int64>, before: int64, id: NodeId)
    ensures id in ListInRange(es, after, before)
       <==> exists i :: 0 <= i < |es| && DecodeId(es[i].id) == Some(id)
                        && (after.Some? ==> after.value <= es[i].ts) && es[i].ts < before
  {
    hide DecodeId;
    if es != [] {
      ListedExactly(es[1..], after, before, id);
      assert forall i :: 0 <= i < |es| - 1 ==> es[1..][i] == es[i + 1];
      if i :| 0 <= i < |es| && DecodeId(es[i].id) == Some(id) && (after.Some? ==> after.value <= es[i].ts)
              && es[i].ts < before {
        if i > 0 {
          assert es[1..][i - 1] == es[i];
        }
      }
    }
  }

  lemma AllListed(es: seq<IndexEntry>, after: Option<int64>, before: int64)
    ensures forall id: NodeId :: id in ListInRange(es, after, before)
              <==> exists i :: 0 <= i < |es| && DecodeId(es[i].id) == Some(id)
                               && (after.Some? ==> after.value <= es[i].ts) && es[i].ts < before
  {
    hide DecodeId, ListInRange;
    forall id: NodeId
      ensures id in ListInRange(es, after, before)
              <==> exists i :: 0 <= i < |es| && DecodeId(es[i].id) == Some(id)
                               && (after.Some? ==> after.value <= es[i].ts) && es[i].ts < before
    {
      ListedExactly(es, after, before, id);
    }
  }

  lemma OlderListed(es: seq<IndexEntry>, before: int64)
    ensures forall id: NodeId :: id in ListOlderThan(es, before)
              <==> exists i :: 0 <= i < |es| && DecodeId(es[i].id) == Some(id) && es[i].ts < before
  {
    hide DecodeId, ListInRange, ListOlderThan;
    SweepIsRangeFromZero(es, before);
    AllListed(es, None, before);
  }

  function Outside(es: seq<IndexEntry>, after: Option<int64>, before: int64): seq<IndexEntry> {
    if es == [] then []
    else if InRange(es[0].ts, after, before) then Outside(es[1..], after, before)
    else [es[0]] + Outside(es[1..], after, before)
  }

  lemma {:induction false} ListedAre(es: seq<IndexEntry>, ids: set<NodeId>, after: Option<int64>, before: int64, id: NodeId)
    requires forall e :: e in es ==> exists x :: x in ids && e.id == HexEncode(x)
    ensures id in ListInRange(es, after, before)
       <==> exists i :: 0 <= i < |es| && es[i].id == HexEncode(id) && InRange(es[i].ts, after, before)
  {
    hide HexEncode, DecodeId, InRange;
    if es != [] {
      var e := es[0];
      assert e in es && forall x :: x in es[1..] ==> x in es;
      var x :| x in ids && e.id == HexEncode(x);
      DecodeEncoded(x);
      if HexEncode(x) == HexEncode(id) {
        HexInjective(x, id);
      }
      ListedAre(es[1..], ids, after, before, id);
      assert forall i :: 0 <= i < |es| - 1 ==> es[1..][i] == es[i + 1];
    }
  }

  /** What lies outside: exactly the rows before `after`, if it is given, and from `before` on. */
  lemma {:induction false} OutsideExactly(es: seq<IndexEntry>, after: Option<int64>, before: int64, e: IndexEntry)
    ensures e in Outside(es, after, before)
       <==> e in es && ((after.Some? && e.ts < after.value) || e.ts >= before)
  {
    if es != [] {
      OutsideExactly(es[1..], after, before, e);
      assert forall x :: x in es <==> x == es[0] || x in es[1..];
    }
  }

  // ---- Deleting one after the other ----

  /** One delete for each listed id, in order. Each ends where it may, and the process goes on. */
  predicate DeletesOf(events: seq<Event>, ids: seq<NodeId>) {
    |events| == |ids| && forall i :: 0 <= i < |ids| ==> events[i].Delete? && events[i].id == ids[i] && events[i].alive
  }

  /** The ids whose rows went, in the order in which they went. */
  function Dropped(events: seq<Event>): seq<NodeId> {
    if events == [] then []
    else
      var last := events[|events| - 1];
      Dropped(events[..|events| - 1]) + if last.Delete? && SavesIndex(last) then [last.id] else []
  }

  function WithoutAll(es: seq<IndexEntry>, ids: seq<NodeId>): seq<IndexEntry> {
    if ids == [] then es else Without(WithoutAll(es, ids[..|ids| - 1]), HexEncode(ids[|ids| - 1]))
  }

  lemma DeleteStep(env: Env, s: State, ev: Event)
    requires Good(env, s) && s.up && ev.Delete? && ev.alive
    ensures var t := Next(env, s, ev);
            && Allowed(s, ev) && Good(env, t) && t.up
            && IndexRows(env.keys, t.disk)
               == (if SavesIndex(ev) then Without(IndexRows(env.keys, s.disk), HexEncode(ev.id)) else IndexRows(env.keys, s.disk))
            && t.disk.nodes.Keys <= s.disk.nodes.Keys
            && (SavesIndex(ev) ==> ev.id !in t.disk.nodes)
  {
    hide IndexRows, HexEncode, Without, LoadIndex, DeleteCalls, Inv, CrashAt;
    InvRows(env.keys, s.disk, s.history);
    DeletedIs(env, ev.draw, s.disk, ev.id, ev.stop);
    StepKeepsGood(env, s, ev);
  }

  lemma DeleteReadsOthers(env: Env, s: State, ev: Event, x: NodeId)
    requires Good(env, s) && s.up && ev.Delete? && x != ev.id
    ensures Read(env.keys, Next(env, s, ev).disk, x) == Read(env.keys, s.disk, x)
  {
    hide IndexRows, HexEncode, Find, Without, LoadIndex, Open, Inv, CrashAt, DeleteCalls;
    var d := s.disk;
    InvRows(env.keys, d, s.history);
    DeletedIs(env, ev.draw, d, ev.id, ev.stop);
    RowsOfOthers(IndexRows(env.keys, d), ev.id, 0, x);
  }

  /**
   A row of deletes, each stopped where it may, is a life of the store: it keeps the invariant, drops exactly the rows of
   the deletes whose rename went through, and leaves every node that is not listed as it was.
   */
  lemma {:induction false} DeletesAre(env: Env, s: State, events: seq<Event>, ids: seq<NodeId>)
    requires Good(env, s) && s.up && DeletesOf(events, ids)
    ensures AllAllowed(env, s, events)
    ensures var t := After(env, s, events);
            && Good(env, t) && t.up
            && IndexRows(env.keys, t.disk) == WithoutAll(IndexRows(env.keys, s.disk), Dropped(events))
            && t.disk.nodes.Keys <= s.disk.nodes.Keys
            && (forall id :: id in Dropped(events) ==> id in ids && id !in t.disk.nodes)
            && (forall x: NodeId :: x !in ids ==> Read(env.keys, t.disk, x) == Read(env.keys, s.disk, x))
    decreases |events|
  {
    hide Good, Next, IndexRows, HexEncode, Read, Without, WithoutAll, Allowed, SavesIndex, Dropped;
    NothingDropped(IndexRows(env.keys, s.disk));
    if events != [] {
      var ev, init, before := events[|events| - 1], events[..|events| - 1], ids[..|ids| - 1];
      DeletesAre(env, s, init, before);
      var s1 := After(env, s, init);
      assert init + [ev] == events && before + [ev.id] == ids;
      DeleteStep(env, s1, ev);
      AfterConcat(env, s, init, [ev]);
      OneEvent(env, s1, ev);
      DroppedMore(init, ev);
      WithoutMore(IndexRows(env.keys, s.disk), Dropped(init), ev.id);
      forall x: NodeId | x !in ids
        ensures Read(env.keys, Next(env, s1, ev).disk, x) == Read(env.keys, s1.disk, x) && x !in before
      {
        DeleteReadsOthers(env, s1, ev, x);
      }
    }
  }

  lemma NothingDropped(es: seq<IndexEntry>)
    ensures Dropped([]) == [] && WithoutAll(es, []) == es
  {
  }

  lemma DroppedMore(events: seq<Event>, ev: Event)
    requires ev.Delete?
    ensures Dropped(events + [ev]) == if SavesIndex(ev) then Dropped(events) + [ev.id] else Dropped(events)
  {
    hide SavesIndex;
    assert (events + [ev])[..|events|] == events;
  }

  lemma WithoutMore(es: seq<IndexEntry>, ids: seq<NodeId>, id: NodeId)
    ensures WithoutAll(es, ids + [id]) == Without(WithoutAll(es, ids), HexEncode(id))
  {
    hide Without, HexEncode;
    assert (ids + [id])[..|ids|] == ids;
  }

  function HexSet(ids: seq<NodeId>): set<string> { set id | id in ids :: HexEncode(id) }

  function FilterOut(es: seq<IndexEntry>, gone: set<string>): seq<IndexEntry> {
    if es == [] then []
    else if es[0].id in gone then FilterOut(es[1..], gone)
    else [es[0]] + FilterOut(es[1..], gone)
  }

  lemma {:induction false} WithoutFilter(es: seq<IndexEntry>, hexId: string, gone: set<string>)
    ensures Without(FilterOut(es, gone), hexId) == FilterOut(es, gone + {hexId})
  {
    if es != [] {
      WithoutFilter(es[1..], hexId, gone);
    }
  }

  lemma {:induction false} FilterFinds(es: seq<IndexEntry>, gone: set<string>, hexId: string)
    ensures Find(FilterOut(es, gone), hexId) == if hexId in gone then None else Find(es, hexId)
  {
    if es != [] {
      FilterFinds(es[1..], gone, hexId);
    }
  }

  lemma {:induction false} WithoutAllFilters(es: seq<IndexEntry>, ids: seq<NodeId>)
    ensures WithoutAll(es, ids) == FilterOut(es, HexSet(ids))
    decreases |ids|
  {
    hide HexEncode, Without;
    if ids == [] {
      FilterNothing(es);
    } else {
      var init, last := ids[..|ids| - 1], ids[|ids| - 1];
      WithoutAllFilters(es, init);
      WithoutFilter(es, HexEncode(last), HexSet(init));
      assert ids == init + [last];
      assert forall id :: id in ids <==> id == last || id in init;
      assert HexSet(ids) == HexSet(init) + {HexEncode(last)};
    }
  }

  lemma {:induction false} FilterNothing(es: seq<IndexEntry>)
    ensures FilterOut(es, HexSet([])) == es
  {
    if es != [] {
      FilterNothing(es[1..]);
    }
  }

  lemma {:induction false} FilterIsOutside(es: seq<IndexEntry>, gone: set<string>, after: Option<int64>, before: int64)
    requires forall e :: e in es ==> (e.id in gone <==> InRange(e.ts, after, before))
    ensures FilterOut(es, gone) == Outside(es, after, before)
  {
    if es != [] {
      assert es[0] in es && forall e :: e in es[1..] ==> e in es;
      FilterIsOutside(es[1..], gone, after, before);
    }
  }

  lemma ListedRows(es: seq<IndexEntry>, all: set<NodeId>, after: Option<int64>, before: int64)
    requires RowsOk(es, all)
    ensures forall e :: e in es ==> (e.id in HexSet(ListInRange(es, after, before)) <==> InRange(e.ts, after, before))
  {
    hide HexEncode, ListInRange;
    var ids := ListInRange(es, after, before);
    forall e | e in es
      ensures e.id in HexSet(ids) <==> InRange(e.ts, after, before)
    {
      var x :| x in all && e.id == HexEncode(x);
      var i :| 0 <= i < |es| && es[i] == e;
      ListedAre(es, all, after, before, x);
      if e.id in HexSet(ids) {
        var y :| y in ids && HexEncode(y) == e.id;
        HexInjective(x, y);
      }
    }
  }

  predicate Distinct(ids: seq<NodeId>) { forall i, j :: 0 <= i < j < |ids| ==> ids[i] != ids[j] }

  lemma {:induction false} ListedDistinct(es: seq<IndexEntry>, all: set<NodeId>, after: Option<int64>, before: int64)
    requires RowsOk(es, all)
    ensures Distinct(ListInRange(es, after, before))
  {
    hide HexEncode, DecodeId, Distinct, InRange;
    if es == [] {
      DistinctNone([]);
    } else {
      assert es[0] in es && forall e :: e in es[1..] ==> e in es;
      ListedDistinct(es[1..], all, after, before);
      var x :| x in all && es[0].id == HexEncode(x);
      DecodeEncoded(x);
      NoSecondRow(es, x);
      ListedAre(es[1..], all, after, before, x);
      DistinctFirst(x, ListInRange(es[1..], after, before));
    }
  }

  lemma NoSecondRow(es: seq<IndexEntry>, id: NodeId)
    requires NoDuplicates(es) && es != [] && es[0].id == HexEncode(id)
    ensures forall i :: 0 <= i < |es| - 1 ==> es[1..][i].id != HexEncode(id)
  {
  }

  lemma {:induction false} DistinctCount(ids: seq<NodeId>)
    requires Distinct(ids)
    ensures |set id | id in ids| == |ids|
    decreases |ids|
  {
    if ids != [] {
      var init, last := ids[..|ids| - 1], ids[|ids| - 1];
      DistinctCount(init);
      assert (set id | id in ids) == (set id | id in init) + {last};
    }
  }

  lemma {:induction false} DroppedDistinct(events: seq<Event>, ids: seq<NodeId>)
    requires DeletesOf(events, ids) && Distinct(ids)
    ensures Distinct(Dropped(events)) && |Dropped(events)| <= |ids|
    ensures forall id :: id in Dropped(events) ==> id in ids
    ensures |Dropped(events)| == |ids| ==> Dropped(events) == ids
    decreases |events|
  {
    hide SavesIndex, Distinct, Dropped;
    if events == [] {
      NothingDropped([]);
      DistinctNone(ids);
    } else {
      var ev, init, before := events[|events| - 1], events[..|events| - 1], ids[..|ids| - 1];
      DistinctLast(ids);
      DroppedDistinct(init, before);
      DroppedMore(init, ev);
      assert events == init + [ev] && ids == before + [ev.id];
      DistinctAdd(Dropped(init), ev.id);
    }
  }

  lemma DistinctFirst(id: NodeId, ids: seq<NodeId>)
    requires Distinct(ids)
    ensures id !in ids ==> Distinct([id] + ids)
  {
  }

  lemma DistinctNone(ids: seq<NodeId>)
    requires ids == []
    ensures Distinct(ids)
  {
  }

  lemma DistinctLast(ids: seq<NodeId>)
    requires Distinct(ids) && ids != []
    ensures Distinct(ids[..|ids| - 1]) && ids[|ids| - 1] !in ids[..|ids| - 1]
  {
  }

  lemma DistinctAdd(ids: seq<NodeId>, id: NodeId)
    requires Distinct(ids)
    ensures id !in ids ==> Distinct(ids + [id])
  {
  }

  /** The listed ids that have no row any more. */
  function Gone(k: Keys, d: Disk, ids: seq<NodeId>): set<NodeId> {
    set id | id in ids && Find(IndexRows(k, d), HexEncode(id)).None?
  }

  /**
   A range delete, wherever its single deletes stop: the listed nodes that lost their row are exactly those whose delete
   got its rename through, as many as it reports deleted, and they are not found any more; the other rows are as they were,
   in order; and every node that is not listed reads as before.
   */
  lemma RangeDeleteIs(env: Env, s: State, after: Option<int64>, before: int64, events: seq<Event>)
    requires Good(env, s) && s.up
    requires DeletesOf(events, ListInRange(IndexRows(env.keys, s.disk), after, before))
    ensures var es := IndexRows(env.keys, s.disk);
            var ids := ListInRange(es, after, before);
            var d' := Effects(env, s.disk, events);
            && IndexRows(env.keys, d') == FilterOut(es, HexSet(Dropped(events)))
            && Gone(env.keys, d', ids) == (set id | id in Dropped(events))
            && |Gone(env.keys, d', ids)| == |Dropped(events)|
            && (forall id :: id in Dropped(events) ==> Read(env.keys, d', id) == Err(NotFound))
            && (forall x: NodeId :: x !in ids ==> Read(env.keys, d', x) == Read(env.keys, s.disk, x))
  {
    hide IndexRows, HexEncode, WithoutAll, ListInRange, EffectiveRows, RowsOk, After, Inv, Find;
    hide SavesIndex, Distinct, FilterOut;
    hide Effects, AllAllowed, DeletesOf, Dropped;
    var es := IndexRows(env.keys, s.disk);
    var ids := ListInRange(es, after, before);
    var gone := Dropped(events);
    DeletesAre(env, s, events, ids);
    AfterDisk(env, s, events);
    WithoutAllFilters(es, gone);
    IndexRowsOk(env.keys, s.disk, s.history);
    ListedDistinct(es, s.history.begun.Keys, after, before);
    DroppedDistinct(events, ids);
    DistinctCount(gone);
    forall id | id in ids
      ensures Find(FilterOut(es, HexSet(gone)), HexEncode(id)).None? <==> id in gone
    {
      ListedHasRow(es, s.history.begun.Keys, after, before, id);
      FilterFinds(es, HexSet(gone), HexEncode(id));
      InHexSet(gone, id);
    }
  }

  lemma InHexSet(ids: seq<NodeId>, id: NodeId)
    ensures HexEncode(id) in HexSet(ids) <==> id in ids
  {
    if HexEncode(id) in HexSet(ids) {
      var x :| x in ids && HexEncode(x) == HexEncode(id);
      HexInjective(x, id);
    }
  }

  lemma ListedHasRow(es: seq<IndexEntry>, all: set<NodeId>, after: Option<int64>, before: int64, id: NodeId)
    requires RowsOk(es, all) && id in ListInRange(es, after, before)
    ensures Find(es, HexEncode(id)).Some?
  {
    hide HexEncode, ListInRange, NoDuplicates;
    ListedAre(es, all, after, before, id);
    FoundRow(es, HexEncode(id));
  }

  /** With no failure the rows left are exactly the old rows outside [after, before), in order. */
  lemma RangeDeleteExact(env: Env, s: State, after: Option<int64>, before: int64, events: seq<Event>)
    requires Good(env, s) && s.up
    requires var ids := ListInRange(IndexRows(env.keys, s.disk), after, before);
             DeletesOf(events, ids) && |Dropped(events)| == |ids|
    ensures var es := IndexRows(env.keys, s.disk);
            var ids := ListInRange(es, after, before);
            var d' := Effects(env, s.disk, events);
            && IndexRows(env.keys, d') == Outside(es, after, before)
            && (forall id :: id in ids ==> Read(env.keys, d', id) == Err(NotFound))
            && (forall x: NodeId :: x !in ids ==> Read(env.keys, d', x) == Read(env.keys, s.disk, x))
  {
    hide IndexRows, HexEncode, WithoutAll, ListInRange, EffectiveRows, RowsOk, Inv, Find, FilterOut, Outside;
    hide Effects, DeletesOf, Dropped, Gone, Distinct;
    var es := IndexRows(env.keys, s.disk);
    var ids := ListInRange(es, after, before);
    RangeDeleteIs(env, s, after, before, events);
    IndexRowsOk(env.keys, s.disk, s.history);
    ListedDistinct(es, s.history.begun.Keys, after, before);
    DroppedDistinct(events, ids);
    ListedRows(es, s.history.begun.Keys, after, before);
    FilterIsOutside(es, HexSet(ids), after, before);
  }

  /** Whether a node's row says that it lies in the range. */
  lemma ListedByRow(es: seq<IndexEntry>, all: set<NodeId>, after: Option<int64>, before: int64, id: NodeId)
    requires RowsOk(es, all)
    ensures var row := Find(es, HexEncode(id));
            id in ListInRange(es, after, before)
            <==> row.Some? && (after.Some? ==> after.value <= row.value) && row.value < before
  {
    hide HexEncode, ListInRange;
    ListedAre(es, all, after, before, id);
    FoundRow(es, HexEncode(id));
    if Find(es, HexEncode(id)).Some? {
      var e := IndexEntry(HexEncode(id), Find(es, HexEncode(id)).value);
      var i :| 0 <= i < |es| && es[i] == e;
      forall j | 0 <= j < |es| && es[j].id == HexEncode(id)
        ensures es[j] == e
      {
        assert i == j;
      }
    }
  }

  /**
   What a range delete without failure comes to: a row is left exactly if it was there and lies before `after` (if that is
   given) or not before `before`; a node whose row lies in between is gone, and every other node reads as before.
   */
  lemma RangeDeleteKeeps(env: Env, s: State, after: Option<int64>, before: int64, events: seq<Event>)
    requires Good(env, s) && s.up
    requires var ids := ListInRange(IndexRows(env.keys, s.disk), after, before);
             DeletesOf(events, ids) && |Dropped(events)| == |ids|
    ensures var es, d' := IndexRows(env.keys, s.disk), Effects(env, s.disk, events);
            && (forall e :: e in IndexRows(env.keys, d')
                  <==> e in es && ((after.Some? && e.ts < after.value) || e.ts >= before))
            && (forall x: NodeId ::
                  var row := Find(es, HexEncode(x));
                  if row.Some? && (after.Some? ==> after.value <= row.value) && row.value < before
                  then Read(env.keys, d', x) == Err(NotFound)
                  else Read(env.keys, d', x) == Read(env.keys, s.disk, x))
  {
    hide IndexRows, HexEncode, ListInRange, RowsOk, Inv, Find, Outside, Effects, DeletesOf, Dropped, Read, EffectiveRows;
    var es, d' := IndexRows(env.keys, s.disk), Effects(env, s.disk, events);
    RangeDeleteExact(env, s, after, before, events);
    IndexRowsOk(env.keys, s.disk, s.history);
    forall e
      ensures e in IndexRows(env.keys, d') <==> e in es && ((after.Some? && e.ts < after.value) || e.ts >= before)
    {
      OutsideExactly(es, after, before, e);
    }
    forall x: NodeId
      ensures var row := Find(es, HexEncode(x));
              if row.Some? && (after.Some? ==> after.value <= row.value) && row.value < before
              then Read(env.keys, d', x) == Err(NotFound)
              else Read(env.keys, d', x) == Read(env.keys, s.disk, x)
    {
      ListedByRow(es, s.history.begun.Keys, after, before, x);
    }
  }
}
