/** Which requests a table sends, and when. */
module Requests {
  import opened TableTypes
  import opened TableSpec
  import opened TableInvariants

  // ---------------------------------------------------------------- loading rows

  /** A load was asked for less than seven seconds ago, and not answered since. */
  predicate UnderWay(t: Table, id: nat, now: int) {
    id in t.loading && now < t.loading[id] + 7
  }

  /** The loads that are asked for when these rows are wanted. */
  function Due(t: Table, ids: seq<nat>, now: int): seq<Request> {
    if ids == [] then []
    else
      var n := |ids| - 1;
      Due(t, ids[..n], now) + if UnderWay(t, ids[n], now) then [] else [LoadRow(ids[n])]
  }

  /** Loads that were asked for before keep their time; the others get the present one. */
  function Timed(loading: map<nat, int>, ids: set<nat>, now: int): map<nat, int> {
    (map id | id in ids :: now) + loading
  }

  function SetOf(ids: seq<nat>): set<nat> {
    set id | id in ids
  }

  lemma {:induction false} WantedRows(t: Table, ids: seq<nat>, now: int)
    requires StrictlyAscending(ids)
    ensures RefreshAll(t, ids, now) ==
      t.(sent := t.sent + Due(t, ids, now), loading := Timed(t.loading, SetOf(ids), now))
  {
    hide Refresh;
    if ids == [] {
      assert Timed(t.loading, {}, now) == t.loading;
    } else {
      var n := |ids| - 1;
      WantedRows(t, ids[..n], now);
      NextWanted(t, RefreshAll(t, ids[..n], now), ids, now);
    }
  }

  lemma {:induction false} NextWanted(t: Table, u: Table, ids: seq<nat>, now: int)
    requires StrictlyAscending(ids) && ids != []
    requires var before := ids[..|ids| - 1];
      u == t.(sent := t.sent + Due(t, before, now), loading := Timed(t.loading, SetOf(before), now))
    ensures Refresh(u, ids[|ids| - 1], now) ==
            t.(sent := t.sent + Due(t, ids, now), loading := Timed(t.loading, SetOf(ids), now))
  {
    hide Due;
    var n := |ids| - 1;
    var done, id := SetOf(ids[..n]), ids[n];
    LastOfSet(ids);
    hide SetOf;
    TimedElsewhere(t.loading, done, id, now);
    WantedRow(u, id, now);
    TimedStep(t.loading, done, id, now);
    hide Timed, Refresh;
    DueStep(t, t.sent, ids, now);
    assert UnderWay(u, id, now) == UnderWay(t, id, now);
  }

  lemma {:induction false} DueStep(t: Table, sent: seq<Request>, ids: seq<nat>, now: int)
    requires ids != []
    ensures var n := |ids| - 1;
      (sent + Due(t, ids[..n], now)) + (if UnderWay(t, ids[n], now) then [] else [LoadRow(ids[n])])
      == sent + Due(t, ids, now)
  {
  }

  lemma {:induction false} LastOfSet(ids: seq<nat>)
    requires StrictlyAscending(ids) && ids != []
    ensures var n := |ids| - 1; SetOf(ids) == SetOf(ids[..n]) + {ids[n]} && ids[n] !in SetOf(ids[..n])
  {
    var n := |ids| - 1;
    assert ids == ids[..n] + [ids[n]];
  }

  lemma {:induction false} TimedElsewhere(loading: map<nat, int>, ids: set<nat>, id: nat, now: int)
    requires id !in ids
    ensures id in Timed(loading, ids, now) <==> id in loading
    ensures id in loading ==> Timed(loading, ids, now)[id] == loading[id]
  {
  }

  lemma {:induction false} WantedRow(t: Table, id: nat, now: int)
    ensures Refresh(t, id, now) == t.(sent := t.sent + if UnderWay(t, id, now) then [] else [LoadRow(id)],
                                      loading := Timed(t.loading, {id}, now))
  {
    assert Timed(t.loading, {id}, now) == if id in t.loading then t.loading else t.loading[id := now];
  }

  lemma {:induction false} TimedStep(loading: map<nat, int>, ids: set<nat>, id: nat, now: int)
    ensures Timed(Timed(loading, ids, now), {id}, now) == Timed(loading, ids + {id}, now)
  {
  }

  /** A row that is wanted again within seven seconds is not asked for again; later it is, and the time of the first
      request stays. */
  lemma {:induction false} WantedTwice(t: Table, id: nat, first: int, second: int)
    requires id !in t.loading
    ensures var r := Step(Step(t, JournalAddOp(id, first)), JournalAddOp(id, second));
      && r.sent == t.sent + [LoadRow(id)] + (if second < first + 7 then [] else [LoadRow(id)])
      && r.loading == t.loading[id := first]
  {
  }

  /** An answer lets the row be asked for again at once. */
  lemma {:induction false} WantedAfterAnswer(t: Table, id: nat, rows: seq<Row>, first: int, second: int)
    requires rows != []
    ensures var u := Step(Step(t, JournalAddOp(id, first)), RowReplyOp(id, rows, None));
      Step(u, JournalAddOp(id, second)).sent == u.sent + [LoadRow(id)]
  {
    var a := GetNew(t, id, first);
    MergeSendsNothing(a.(loading := a.loading - {id}), rows);
  }

  lemma {:induction false} MergeSendsNothing(t: Table, rows: seq<Row>)
    ensures MergeRows(t, rows).sent == t.sent && MergeRows(t, rows).loading == t.loading
  {
    RowsSendNothing(t, rows);
  }

  lemma {:induction false} RowsSendNothing(t: Table, rows: seq<Row>)
    ensures ApplyRows(t, rows).sent == t.sent && ApplyRows(t, rows).loading == t.loading
  {
    if rows != [] {
      RowsSendNothing(t, rows[..|rows| - 1]);
      RowSendsNothing(ApplyRows(t, rows[..|rows| - 1]), rows[|rows| - 1]);
    }
  }

  lemma {:induction false} RowSendsNothing(t: Table, row: Row)
    ensures ApplyRow(t, row).sent == t.sent && ApplyRow(t, row).loading == t.loading
  {
    hide FindAdd, FindMatch, FieldsOf;
  }

  /** A remote change of a row asks for the row once if no load of it was ever asked for, and not at all while one is
      under way; when a load was lost, each model asks once more. */
  lemma {:induction false} ChangedRowIsWanted(t: Table, id: nat, now: int)
    requires id in t.cells && !IsPendingOverlay(t.cells[id].state) && t.shown != []
    ensures var r := Step(t, JournalModifyOp(id, now));
      if id !in t.loading then r.sent == t.sent + [LoadRow(id)] && r.loading == t.loading[id := now]
      else
        && r.loading == t.loading
        && r.sent == t.sent + if now < t.loading[id] + 7 then [] else seq(|t.shown|, _ => LoadRow(id))
  {
    WantedTimes(Staled(t, id), id, now, |t.shown|);
  }

  lemma {:induction false} WantedTimes(t: Table, id: nat, now: int, times: nat)
    ensures var r := RefreshTimes(t, id, now, times);
      if times == 0 then r == t
      else if id !in t.loading then r == t.(sent := t.sent + [LoadRow(id)], loading := t.loading[id := now])
      else if now < t.loading[id] + 7 then r == t
      else r == t.(sent := t.sent + seq(times, _ => LoadRow(id)))
  {
    if times > 0 {
      WantedTimes(t, id, now, times - 1);
    }
  }

  /** A remote change of a row under a pending edit or delete asks for the row, and does nothing else. */
  lemma {:induction false} ChangedOverlayIsWanted(t: Table, id: nat, now: int)
    requires id in t.cells && (t.cells[id].state.PendingEdit? || t.cells[id].state.PendingDelete?)
    ensures var r := Step(t, JournalModifyOp(id, now));
      if UnderWay(t, id, now) then r == t
      else r == t.(sent := t.sent + [LoadRow(id)],
                   loading := if id in t.loading then t.loading else t.loading[id := now])
  {
  }

  // ---------------------------------------------------------------- models

  /** The first model asks for the whole table, a later one does not; each asks for the stale rows that are not
      under way, and shows every row. */
  lemma {:induction false} AttachedModel(t: Table, now: int)
    ensures var r, stale := Step(t, AttachOp(now)), AscendingIds(set id | id in t.cells && t.cells[id].state.Stale?);
      && r == t.(sent := r.sent, loading := r.loading, shown := r.shown)
      && r.sent == t.sent + (if t.shown == [] then [Page(0, 0)] else []) + Due(t, stale, now)
      && r.shown == t.shown + [t.cells.Keys]
      && (forall id :: id in t.cells && t.cells[id].state.Stale? ==> id in r.loading)
  {
    hide RefreshAll, UnderWay, Due, Timed;
    var t1 := if t.shown == [] then t.(sent := t.sent + [Page(0, 0)]) else t;
    var ids := AscendingIds(StaleRows(t));
    WantedRows(t1, ids, now);
    SameDue(t, t1, ids, now);
    TimedCovers(t.loading, ids, now);
  }

  lemma {:induction false} TimedCovers(loading: map<nat, int>, ids: seq<nat>, now: int)
    ensures forall id :: id in ids ==> id in Timed(loading, SetOf(ids), now)
  {
  }

  lemma {:induction false} SameDue(t: Table, u: Table, ids: seq<nat>, now: int)
    requires u.loading == t.loading
    ensures Due(u, ids, now) == Due(t, ids, now)
  {
    if ids != [] {
      SameDue(t, u, ids[..|ids| - 1], now);
    }
  }

  /** A new table with its first model has asked for everything, and for nothing else. */
  lemma {:induction false} FirstModel(now: int)
    ensures Step(EMPTY_TABLE, AttachOp(now)) == EMPTY_TABLE.(shown := [{}], sent := [Page(0, 0)])
  {
    assert StaleRows(EMPTY_TABLE) == {};
    assert AscendingIds(StaleRows(EMPTY_TABLE)) == [];
    assert EMPTY_TABLE.cells.Keys == {};
  }

  // ---------------------------------------------------------------- pages

  /** A reply to a page is followed by a request from the key it names, for as many rows as are still wanted. */
  lemma {:induction false} PageIsFollowed(t: Table, rows: seq<Row>, next: Option<nat>, count: nat)
    ensures Step(t, ReplyOp(rows, next, count)).sent == t.sent +
      if next.None? then []
      else if count == 0 then [Page(next.value, 0)]
      else if |rows| < count then [Page(next.value, count - |rows|)]
      else []
  {
    var t1 := if Continues(rows, next, count) then t.(sent := t.sent + [NextPage(rows, next, count)]) else t;
    MergeSendsNothing(t1, rows);
  }

  /** The answer to a row load asks for more only if it brought no row. */
  lemma {:induction false} LoadIsFollowed(t: Table, id: nat, rows: seq<Row>, next: Option<nat>)
    ensures var r := Step(t, RowReplyOp(id, rows, next));
      && id !in r.loading
      && r.sent == t.sent + if next.Some? && rows == [] then [Page(next.value, 1)] else []
  {
    var u := t.(loading := t.loading - {id});
    PageIsFollowed(u, rows, next, 1);
    var t1 := if Continues(rows, next, 1) then u.(sent := u.sent + [NextPage(rows, next, 1)]) else u;
    MergeSendsNothing(t1, rows);
  }
}
