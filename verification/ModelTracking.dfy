/** What the list models show is what the table holds, up to rows that are still being loaded. */
module ModelTracking {
  import opened TableTypes
  import opened TableSpec
  import opened Restoration
  import opened TableInvariants

  /** A model shows only rows of the table, and a row it does not show is waiting for its value. */
  ghost predicate Tracked(cells: map<nat, Cell>, shows: set<nat>, except: set<nat>) {
    && shows <= cells.Keys
    && forall id :: id in cells && id !in shows && id !in except ==> cells[id].state.Loading? || cells[id].state.Stale?
  }

  ghost predicate Tracks(t: Table) {
    forall i :: 0 <= i < |t.shown| ==> Tracked(t.cells, t.shown[i], {})
  }

  /** In the middle of a merge the rows of the reply may not be shown yet. */
  ghost predicate TracksBut(t: Table, except: set<nat>) {
    forall i :: 0 <= i < |t.shown| ==> Tracked(t.cells, t.shown[i], except)
  }

  lemma {:induction false} ShowTracks(t: Table, ids: set<nat>)
    requires TracksBut(t, ids) && ids <= t.cells.Keys
    ensures Tracks(ShowRows(t, ids))
  {
  }

  lemma {:induction false} DeleteTracks(t: Table, id: nat, except: set<nat>)
    requires TracksBut(t, except)
    ensures TracksBut(DeleteRow(t, id), except)
  {
    var r := DeleteRow(t, id);
    forall i | 0 <= i < |r.shown| ensures Tracked(r.cells, r.shown[i], except) {
      assert Tracked(t.cells, t.shown[i], except);
      assert r.shown[i] == t.shown[i] - {id};
      assert r.cells == t.cells - {id};
    }
  }

  lemma {:induction false} DraftEditTracks(t: Table, id: nat, changes: Fields)
    requires Inv(t) && Tracks(t)
    ensures Tracks(DraftEditRow(t, id, changes))
  {
    if !t.pending && id in t.cells && !t.cells[id].state.DraftDelete? {
      var r := DraftEditRow(t, id, changes);
      assert EditShape(t, id, r);
      forall i | 0 <= i < |r.shown| ensures Tracked(r.cells, r.shown[i], {}) {
        assert Tracked(t.cells, t.shown[i], {});
        assert r.shown[i] == t.shown[i] || r.shown[i] == t.shown[i] + {id};
      }
    }
  }

  lemma {:induction false} DraftAddTracks(t: Table, fields: Fields)
    requires Tracks(t)
    ensures Tracks(DraftAddRow(t, fields))
  {
    var r := DraftAddRow(t, fields);
    if r != t {
      var id := NextDraftId(t.cells.Keys);
      forall i | 0 <= i < |r.shown| ensures Tracked(r.cells, r.shown[i], {}) {
        assert Tracked(t.cells, t.shown[i], {});
        assert r.shown[i] == t.shown[i] + {id};
      }
    }
  }

  lemma {:induction false} DraftDeleteTracks(t: Table, id: nat)
    requires Tracks(t)
    ensures Tracks(DraftDeleteRow(t, id))
  {
    if !t.pending && id in t.cells {
      var r := DraftDeleteRow(t, id);
      if t.cells[id].state.DraftAdd? {
        var t1 := t.(adds := WithoutDraft(t.adds, id));
        assert TracksBut(t1, {});
        DeleteTracks(t1, id, {});
      } else {
        forall i | 0 <= i < |r.shown| ensures Tracked(r.cells, r.shown[i], {}) {
          assert Tracked(t.cells, t.shown[i], {});
          assert r.shown[i] == t.shown[i] + {id};
        }
      }
    }
  }

  lemma {:induction false} MarkPendingTracks(t: Table)
    requires Tracks(t)
    ensures Tracks(MarkEditsPending(t))
  {
    var r := MarkEditsPending(t);
    forall i | 0 <= i < |r.shown| ensures Tracked(r.cells, r.shown[i], {}) {
      assert Tracked(t.cells, t.shown[i], {});
      assert r.shown[i] == t.shown[i] + t.backups.Keys * t.cells.Keys;
    }
  }

  lemma {:induction false} MarkStaleTracks(t: Table, id: nat, now: int)
    requires Tracks(t)
    ensures Tracks(MarkStale(t, id, now))
  {
    MarkStaleIs(t, id, now);
    var r := Staled(t, id);
    assert forall i :: 0 <= i < |r.shown| ==> Tracked(t.cells, t.shown[i], {});
  }

  lemma {:induction false} GetNewTracks(t: Table, id: nat, now: int)
    requires Tracks(t)
    ensures Tracks(GetNew(t, id, now))
  {
    assert forall i :: 0 <= i < |t.shown| ==> Tracked(t.cells, t.shown[i], {});
  }

  lemma {:induction false} ApplyRowTracks(t: Table, row: Row, except: set<nat>)
    requires TracksBut(t, except)
    ensures TracksBut(ApplyRow(t, row), except + {row.id})
  {
    var t1 := t.(cells := t.cells[row.id := Cell(row, Loaded)]);
    forall i | 0 <= i < |t1.shown| ensures Tracked(t1.cells, t1.shown[i], except + {row.id}) {
      assert Tracked(t.cells, t.shown[i], except);
    }
    InsertionTracks(t1, row, except + {row.id});
    if row.id in t.cells {
      OverwriteFrame(t1, t.cells[row.id], row);
    }
  }

  lemma {:induction false} InsertionTracks(t: Table, row: Row, except: set<nat>)
    requires TracksBut(t, except)
    ensures TracksBut(CheckPendingInsertion(t, row), except)
  {
    var k := FindMatch(t.adds, row);
    if k < |t.adds| {
      var t1 := t.(adds := t.adds[..k] + t.adds[k + 1..]);
      assert TracksBut(t1, except);
      DeleteTracks(t1, DraftIdOf(t.adds[k]), except);
    }
  }

  lemma {:induction false} OverwriteFrame(t: Table, was: Cell, row: Row)
    ensures CheckOverwrittenEdit(t, was, row).cells == t.cells && CheckOverwrittenEdit(t, was, row).shown == t.shown
  {
    DropsOnlyBackups();
    hide FindAdd, FieldsOf, DropBackup;
  }

  lemma {:induction false} DropsOnlyBackups()
    ensures forall t: Table, id: nat :: DropBackup(t, id).cells == t.cells && DropBackup(t, id).shown == t.shown
  {
  }

  lemma {:induction false} ApplyRowsTracks(t: Table, rows: seq<Row>)
    requires Tracks(t)
    ensures TracksBut(ApplyRows(t, rows), IdsOf(rows))
  {
    if rows == [] {
      assert IdsOf(rows) == {};
    } else {
      var n := |rows| - 1;
      ApplyRowsTracks(t, rows[..n]);
      ApplyRowTracks(ApplyRows(t, rows[..n]), rows[n], IdsOf(rows[..n]));
      assert IdsOf(rows) == IdsOf(rows[..n]) + {rows[n].id} by {
        assert forall k :: 0 <= k < n ==> rows[..n][k] == rows[k];
      }
    }
  }

  lemma {:induction false} ReplyTracks(t: Table, rows: seq<Row>, next: Option<nat>, count: nat)
    requires Inv(t) && Tracks(t) && FromBackend(rows)
    ensures Tracks(ProcessRowsResponse(t, rows, next, count))
  {
    var t1 := if Continues(rows, next, count) then t.(sent := t.sent + [NextPage(rows, next, count)]) else t;
    InvFrame(t, t1);
    MergeIsApply(t1, rows);
    ReplyMerge(t1, rows);
    RowCellsDomain(rows);
    assert Tracks(t1);
    ApplyRowsTracks(t1, rows);
    ShowTracks(ApplyRows(t1, rows), IdsOf(rows));
  }

  lemma {:induction false} AttachTracks(t: Table, now: int)
    requires Tracks(t)
    ensures Tracks(AttachModel(t, now))
  {
    RefreshAllFrame(if t.shown == [] then FullRefresh(t) else t, AscendingIds(StaleRows(t)), now);
    var r := AttachModel(t, now);
    forall i | 0 <= i < |r.shown| ensures Tracked(r.cells, r.shown[i], {}) {
      if i < |t.shown| {
        assert Tracked(t.cells, t.shown[i], {});
      }
    }
  }

  lemma {:induction false} ResetTracks(t: Table)
    requires Inv(t) && Tracks(t) && NoDraftAdd(t)
    ensures Tracks(Step(t, ResetOp))
  {
    ResetIs(t);
    var r := Step(t, ResetOp);
    forall i | 0 <= i < |r.shown| ensures Tracked(r.cells, r.shown[i], {}) {
      assert Tracked(t.cells, t.shown[i], {});
    }
  }

  lemma {:induction false} StepTracks(t: Table, op: Op)
    requires Inv(t) && Tracks(t) && Admissible(t, op)
    ensures Tracks(Step(t, op))
  {
    match op
    case EditOp(id, changes) => DraftEditTracks(t, id, changes);
    case AddOp(fields) => DraftAddTracks(t, fields);
    case DeleteOp(id) => DraftDeleteTracks(t, id);
    case PendOp => MarkPendingTracks(t);
    case ResetOp => ResetTracks(t);
    case ReplyOp(rows, next, count) => ReplyTracks(t, rows, next, count);
    case RowReplyOp(id, rows, next) =>
      var t1 := t.(loading := t.loading - {id});
      InvFrame(t, t1);
      assert Tracks(t1);
      ReplyTracks(t1, rows, next, 1);
    case JournalDeleteOp(id) =>
      assert TracksBut(t, {});
      DeleteTracks(t, id, {});
    case JournalModifyOp(id, now) => MarkStaleTracks(t, id, now);
    case JournalAddOp(id, now) => GetNewTracks(t, id, now);
    case FullRefreshOp => assert Tracks(FullRefresh(t));
    case AttachOp(now) => AttachTracks(t, now);
  }

  /** Over every run, every model shows a subset of the table, and misses only rows still waiting for a value. */
  lemma {:induction false} ModelsTrackTable(ops: seq<Op>)
    requires AdmissibleRun(EMPTY_TABLE, ops)
    ensures Tracks(Run(EMPTY_TABLE, ops))
  {
    if ops != [] {
      var n := |ops| - 1;
      ModelsTrackTable(ops[..n]);
      RunKeepsInv(EMPTY_TABLE, ops[..n]);
      StepTracks(Run(EMPTY_TABLE, ops[..n]), ops[n]);
    }
  }

  // ---------------------------------------------------------------- what the models are told

  function Union(sets: seq<set<nat>>): set<nat> {
    if sets == [] then {} else Union(sets[..|sets| - 1]) + sets[|sets| - 1]
  }

  lemma {:induction false} UnionOfOne(ids: set<nat>)
    ensures Union([ids]) == ids && Union([]) == {}
  {
    assert [ids][..0] == [];
  }

  /** The models are told of these IDs, and of every row of the table that is not as it was before, except new
      placeholders and these rows. */
  ghost predicate Tells(t: Table, r: Table, except: set<nat>) {
    && t.told <= r.told
    && forall id :: id in r.cells && id !in except && (id !in t.cells || r.cells[id] != t.cells[id]) ==>
         id in Union(r.told[|t.told|..]) || (id !in t.cells && r.cells[id].state.Loading?)
  }

  lemma {:induction false} ToldOnce(t: Table, r: Table, ids: set<nat>)
    requires r.told == t.told + [ids]
    ensures r.told[|t.told|..] == [ids] && Union(r.told[|t.told|..]) == ids
  {
    UnionOfOne(ids);
  }

  lemma {:induction false} ToldNothing(t: Table, r: Table)
    requires r.told == t.told
    ensures Union(r.told[|t.told|..]) == {}
  {
  }

  lemma {:induction false} RowsTellNothing(t: Table, rows: seq<Row>)
    ensures ApplyRows(t, rows).told == t.told
  {
    if rows != [] {
      RowsTellNothing(t, rows[..|rows| - 1]);
      RowTellsNothing(ApplyRows(t, rows[..|rows| - 1]), rows[|rows| - 1]);
    }
  }

  lemma {:induction false} RowTellsNothing(t: Table, row: Row)
    ensures ApplyRow(t, row).told == t.told
  {
    hide FindAdd, FindMatch, FieldsOf;
  }

  lemma {:induction false} ReplyTells(t: Table, rows: seq<Row>, next: Option<nat>, count: nat)
    requires Inv(t) && FromBackend(rows)
    ensures var r := ProcessRowsResponse(t, rows, next, count);
      && Tells(t, r, {}) && (rows != [] ==> r.told == t.told + [IdsOf(rows)])
  {
    var t1 := if Continues(rows, next, count) then t.(sent := t.sent + [NextPage(rows, next, count)]) else t;
    InvFrame(t, t1);
    MergeIsApply(t1, rows);
    ReplyMerge(t1, rows);
    RowCellsDomain(rows);
    RowsTellNothing(t1, rows);
    if rows != [] {
      ToldOnce(t, ProcessRowsResponse(t, rows, next, count), IdsOf(rows));
    }
  }

  lemma {:induction false} EditTells(t: Table, id: nat, changes: Fields)
    requires Inv(t)
    ensures Tells(t, DraftEditRow(t, id, changes), if Refused(t, id, changes) then {id} else {})
  {
    var r := DraftEditRow(t, id, changes);
    if !t.pending && id in t.cells && !t.cells[id].state.DraftDelete? && !Refused(t, id, changes) {
      ToldOnce(t, r, {id});
    }
  }

  /** A change of ID, which is refused after the row has been emptied. */
  predicate Refused(t: Table, id: nat, changes: Fields) {
    !t.pending && id in t.cells && !t.cells[id].state.DraftDelete? && Overlay(changes, t.cells[id].row).id != id
  }

  lemma {:induction false} AddTells(t: Table, fields: Fields)
    ensures Tells(t, DraftAddRow(t, fields), {})
  {
    if DraftAddRow(t, fields) != t {
      ToldOnce(t, DraftAddRow(t, fields), {NextDraftId(t.cells.Keys)});
    }
  }

  lemma {:induction false} DeleteTells(t: Table, id: nat)
    ensures Tells(t, DraftDeleteRow(t, id), {})
  {
    if !t.pending && id in t.cells && !t.cells[id].state.DraftAdd? {
      ToldOnce(t, DraftDeleteRow(t, id), {id});
    }
  }

  lemma {:induction false} PendingTells(t: Table)
    ensures Tells(t, MarkEditsPending(t), {})
  {
    ToldOnce(t, MarkEditsPending(t), t.backups.Keys * t.cells.Keys);
  }

  lemma {:induction false} ResetTells(t: Table)
    requires Inv(t) && NoDraftAdd(t)
    ensures Tells(t, Step(t, ResetOp), {})
  {
    ResetIs(t);
    ToldOnce(t, Step(t, ResetOp), t.backups.Keys - Unrestored(t.cells, t.backups.Keys));
  }

  lemma {:induction false} StaleTells(t: Table, id: nat, now: int)
    ensures Tells(t, MarkStale(t, id, now), {})
  {
    MarkStaleIs(t, id, now);
    if !(id in t.cells && IsPendingOverlay(t.cells[id].state)) {
      ToldOnce(t, MarkStale(t, id, now), {id});
    }
  }

  /** Every step tells the models of every row whose value or load state it changes, except a new placeholder, and
      the row that a refused change of ID empties. */
  lemma {:induction false} ChangesAreTold(t: Table, op: Op)
    requires Inv(t) && Admissible(t, op)
    ensures Tells(t, Step(t, op), if op.EditOp? && Refused(t, op.id, op.changes) then {op.id} else {})
  {
    hide DraftEditRow, DraftAddRow, DraftDeleteRow, MarkEditsPending, ProcessRowsResponse, MarkStale, Inv;
    match op
    case EditOp(id, changes) => EditTells(t, id, changes);
    case AddOp(fields) => AddTells(t, fields);
    case DeleteOp(id) => DeleteTells(t, id);
    case PendOp => PendingTells(t);
    case ResetOp => ResetTells(t);
    case ReplyOp(rows, next, count) => ReplyTells(t, rows, next, count);
    case RowReplyOp(id, rows, next) =>
      InvFrame(t, t.(loading := t.loading - {id}));
      ReplyTells(t.(loading := t.loading - {id}), rows, next, 1);
    case JournalModifyOp(id, now) => StaleTells(t, id, now);
    case AttachOp(now) =>
      RefreshAllFrame(if t.shown == [] then FullRefresh(t) else t, AscendingIds(StaleRows(t)), now);
    case _ =>
  }
}
