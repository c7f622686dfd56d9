/** The table as it would be without local edits, and its simulation by a cache that cannot be edited. */
module Simulation {
  import opened TableTypes
  import opened TableSpec
  import opened Restoration
  import opened TableInvariants

  /** What the backend last said about a row: the backup if the row is edited or deleted locally. */
  function BaseCell(t: Table, id: nat): Cell
    requires id in t.cells
  {
    if IsOverlaid(t.cells[id].state) && id in t.backups then t.backups[id] else t.cells[id]
  }

  function BaseView(t: Table): map<nat, Cell> {
    map id | id in t.cells && !IsLocalAdd(t.cells[id].state) :: BaseCell(t, id)
  }

  /** The base view never shows a local edit, and no row of the draft region. */
  lemma {:induction false} BaseViewIsUnedited(t: Table)
    requires Inv(t)
    ensures forall id :: id in BaseView(t) ==>
      id < BASE_DRAFT_ID && BaseView(t)[id].row.id == id && IsUnedited(BaseView(t)[id].state)
  {
  }

  // ---------------------------------------------------------------- the plain cache

  /** A cache with no editing: rows of a reply are Loaded, journal entries delete, mark stale, or add a placeholder. */
  function PlainStep(p: map<nat, Cell>, op: Op): map<nat, Cell> {
    match op
    case ReplyOp(rows, _, _) => p + RowCells(rows)
    case RowReplyOp(_, rows, _) => p + RowCells(rows)
    case JournalDeleteOp(id) => p - {id}
    case JournalModifyOp(id, _) => if id in p then p[id := Cell(p[id].row, Stale)] else p
    case JournalAddOp(id, _) => if id in p then p else p[id := Cell(Row(id, "", []), Loading)]
    case _ => p
  }

  function PlainRun(p: map<nat, Cell>, ops: seq<Op>): map<nat, Cell> {
    if ops == [] then p else PlainStep(PlainRun(p, ops[..|ops| - 1]), ops[|ops| - 1])
  }

  // ---------------------------------------------------------------- local operations

  /** The edits that empty a row's fields: refused because they change the ID of a row without a backup. */
  predicate Hollows(t: Table, id: nat, changes: Fields) {
    && !t.pending && id in t.cells && IsUnedited(t.cells[id].state)
    && Overlay(changes, t.cells[id].row).id != id
    && Hollow(t.cells[id].row) != t.cells[id].row
  }

  lemma {:induction false} ViewAfterWrite(t: Table, id: nat, r: Table)
    requires id in r.cells && r.cells == t.cells[id := r.cells[id]] && r.backups - {id} == t.backups - {id}
    ensures BaseView(r) ==
      if IsLocalAdd(r.cells[id].state) then BaseView(t) - {id} else BaseView(t)[id := BaseCell(r, id)]
  {
    BackupsElsewhere(t.backups, r.backups, id);
  }

  lemma {:induction false} ViewAfterRemoval(t: Table, id: nat, r: Table)
    requires r.cells == t.cells - {id} && r.backups - {id} == t.backups - {id}
    ensures BaseView(r) == BaseView(t) - {id}
  {
    BackupsElsewhere(t.backups, r.backups, id);
  }

  lemma {:induction false} BackupsElsewhere(b: map<nat, Cell>, c: map<nat, Cell>, id: nat)
    requires b - {id} == c - {id}
    ensures forall k :: k != id ==> (k in b <==> k in c) && (k in b ==> b[k] == c[k])
  {
    forall k | k != id ensures (k in b <==> k in c) && (k in b ==> b[k] == c[k]) {
      assert k in b <==> k in b - {id};
      assert k in c <==> k in c - {id};
      assert k in b ==> b[k] == (b - {id})[k] == (c - {id})[k];
    }
  }

  /** A draft edit leaves the base view alone unless it is refused after the row was moved out. */
  lemma {:induction false} DraftEditBaseView(t: Table, id: nat, changes: Fields)
    requires Inv(t)
    ensures BaseView(DraftEditRow(t, id, changes)) == BaseView(t) <==> !Hollows(t, id, changes)
    ensures Hollows(t, id, changes) ==>
      BaseView(DraftEditRow(t, id, changes)) == BaseView(t)[id := Cell(Hollow(t.cells[id].row), t.cells[id].state)]
  {
    hide FindAdd;
    var r := DraftEditRow(t, id, changes);
    if !t.pending && id in t.cells && !t.cells[id].state.DraftDelete? {
      EditedView(t, id, r);
      var was := t.cells[id];
      if Overlay(changes, was.row).id != id && IsUnedited(was.state) {
        assert r.cells[id] == Cell(Hollow(was.row), was.state);
        assert BaseView(t)[id] == was && BaseView(r)[id] == r.cells[id];
        assert r.cells[id] == was ==> BaseView(t)[id := was] == BaseView(t);
      }
    }
  }

  /** After an edit the base view differs at most in the row itself, and there only if it has no backup. */
  lemma {:induction false} EditedView(t: Table, id: nat, r: Table)
    requires Inv(t) && !t.pending && id in t.cells && EditShape(t, id, r)
    ensures BaseView(r) == if IsUnedited(r.cells[id].state) then BaseView(t)[id := r.cells[id]] else BaseView(t)
  {
    ViewAfterWrite(t, id, r);
  }

  lemma {:induction false} DraftAddBaseView(t: Table, fields: Fields)
    requires Inv(t)
    ensures BaseView(DraftAddRow(t, fields)) == BaseView(t)
  {
    assert NextDraftId(t.cells.Keys) !in t.cells.Keys;
  }

  lemma {:induction false} DraftDeleteBaseView(t: Table, id: nat)
    requires Inv(t)
    ensures BaseView(DraftDeleteRow(t, id)) == BaseView(t)
  {
  }

  lemma {:induction false} MarkPendingBaseView(t: Table)
    requires Inv(t)
    ensures BaseView(MarkEditsPending(t)) == BaseView(t)
  {
  }

  // ---------------------------------------------------------------- remote events

  lemma {:induction false} JournalDeleteBaseView(t: Table, id: nat)
    requires Inv(t)
    ensures BaseView(DeleteRow(t, id)) == BaseView(t) - {id}
  {
  }

  lemma {:induction false} MarkStaleBaseView(t: Table, id: nat, now: int)
    requires Inv(t) && id < BASE_DRAFT_ID
    ensures BaseView(MarkStale(t, id, now)) ==
      if id in t.cells && IsPendingOverlay(t.cells[id].state) then BaseView(t)
      else PlainStep(BaseView(t), JournalModifyOp(id, now))
  {
    hide MarkStale;
    MarkStaleIs(t, id, now);
    var r := Staled(t, id);
    if id in t.cells && !IsPendingOverlay(t.cells[id].state) {
      ViewAfterWrite(t, id, r);
      assert BaseView(t)[id].row == r.cells[id].row;
    }
    assert BaseView(MarkStale(t, id, now)) ==
           if id in t.cells && IsPendingOverlay(t.cells[id].state) then BaseView(t) else BaseView(r);
  }

  lemma {:induction false} GetNewBaseView(t: Table, id: nat, now: int)
    requires Inv(t) && id < BASE_DRAFT_ID
    ensures BaseView(GetNew(t, id, now)) == PlainStep(BaseView(t), JournalAddOp(id, now))
  {
  }

  lemma {:induction false} ApplyRowBaseView(t: Table, row: Row)
    requires Inv(t) && row.id < BASE_DRAFT_ID
    ensures BaseView(ApplyRow(t, row)) == BaseView(t)[row.id := Cell(row, Loaded)]
  {
    MergeOne(t, row);
    AppliedView(t, row, ApplyRow(t, row));
  }

  lemma {:induction false} AppliedView(t: Table, row: Row, r: Table)
    requires Inv(t) && row.id < BASE_DRAFT_ID
    requires var k := FindMatch(t.adds, row);
      || (k < |t.adds| && r.cells == (t.cells - {DraftIdOf(t.adds[k])})[row.id := Cell(row, Loaded)]
                       && r.backups == t.backups - {DraftIdOf(t.adds[k])})
      || (r.cells == t.cells[row.id := Cell(row, Loaded)] && r.backups - {row.id} == t.backups - {row.id})
    ensures BaseView(r) == BaseView(t)[row.id := Cell(row, Loaded)]
  {
    var k := FindMatch(t.adds, row);
    if r.cells == t.cells[row.id := Cell(row, Loaded)] && r.backups - {row.id} == t.backups - {row.id} {
      ViewAfterWrite(t, row.id, r);
    } else {
      var id := DraftIds(t.adds)[k];
      assert id in DraftIds(t.adds);
      var s := t.(cells := t.cells - {id}, backups := r.backups);
      ViewAfterRemoval(t, id, s);
      ViewAfterWrite(s, row.id, r);
    }
  }

  lemma {:induction false} OverrideStep(p: map<nat, Cell>, rows: seq<Row>)
    requires rows != []
    ensures var n := |rows| - 1;
      (p + RowCells(rows[..n]))[rows[n].id := Cell(rows[n], Loaded)] == p + RowCells(rows)
  {
  }

  lemma {:induction false} ApplyRowsBaseView(t: Table, rows: seq<Row>)
    requires Inv(t) && FromBackend(rows)
    ensures BaseView(ApplyRows(t, rows)) == BaseView(t) + RowCells(rows)
  {
    if rows == [] {
      assert BaseView(t) + map[] == BaseView(t);
    } else {
      var n := |rows| - 1;
      ApplyRowsBaseView(t, rows[..n]);
      ApplyRowsKeepsInv(t, rows[..n]);
      ApplyRowBaseView(ApplyRows(t, rows[..n]), rows[n]);
      OverrideStep(BaseView(t), rows);
    }
  }

  lemma {:induction false} ReplyBaseView(t: Table, rows: seq<Row>, next: Option<nat>, count: nat)
    requires Inv(t) && FromBackend(rows)
    ensures BaseView(ProcessRowsResponse(t, rows, next, count)) == BaseView(t) + RowCells(rows)
  {
    var t1 := if Continues(rows, next, count) then t.(sent := t.sent + [NextPage(rows, next, count)]) else t;
    InvFrame(t, t1);
    ViewFrame(t, t1);
    MergeBaseView(t1, rows);
  }

  /** The base view is made of rows and backups only. */
  lemma {:induction false} ViewFrame(t: Table, r: Table)
    requires t.cells == r.cells && t.backups == r.backups
    ensures BaseView(t) == BaseView(r)
  {
  }

  lemma {:induction false} MergeBaseView(t: Table, rows: seq<Row>)
    requires Inv(t) && FromBackend(rows)
    ensures BaseView(MergeRows(t, rows)) == BaseView(t) + RowCells(rows)
  {
    if rows == [] {
      assert BaseView(t) + map[] == BaseView(t);
    } else {
      MergeIsApply(t, rows);
      ApplyRowsBaseView(t, rows);
      ViewFrame(ApplyRows(t, rows), MergeRows(t, rows));
    }
  }

  // ---------------------------------------------------------------- reset

  lemma {:induction false} ResetView(t: Table)
    requires Inv(t) && NoDraftAdd(t)
    ensures BaseView(Step(t, ResetOp)) == Restored(t.cells, t.backups, t.backups.Keys)
  {
    ResetIs(t);
    AllRestored(t);
  }

  /** Row by row, restoring by the backups gives the base view exactly when the table is restorable. */
  lemma {:induction false} RestoredIsBaseView(t: Table)
    requires Inv(t) && NoDraftAdd(t)
    ensures Restored(t.cells, t.backups, t.backups.Keys) == BaseView(t) <==> Restorable(t)
  {
    var r, b := Restored(t.cells, t.backups, t.backups.Keys), BaseView(t);
    assert r.Keys == b.Keys;
    forall id | id in r
      ensures r[id] == b[id] <==>
        (id in t.backups ==>
          && (t.cells[id].state.DraftDelete? || t.cells[id].state.PendingDelete? ==>
            t.cells[id].row == t.backups[id].row)
          && (IsUnedited(t.cells[id].state) ==> t.cells[id].state == t.backups[id].state))
    {
    }
    if r == b {
      forall id | id in t.cells && id in t.backups
        ensures t.cells[id].state.DraftDelete? || t.cells[id].state.PendingDelete? ==>
          t.cells[id].row == t.backups[id].row
        ensures IsUnedited(t.cells[id].state) ==> t.cells[id].state == t.backups[id].state
      {
        if !t.cells[id].state.PendingAdd? {
          assert id in r && r[id] == b[id];
        }
      }
    }
  }

  // ---------------------------------------------------------------- simulation

  /** A remote change of a row under a pending edit refreshes the row without marking it stale. */
  predicate Defers(t: Table, op: Op) {
    op.JournalModifyOp? && op.id in t.cells && IsPendingOverlay(t.cells[op.id].state)
  }

  /** A step that neither hangs, nor forges, nor empties a row, nor restores one wrongly, nor breaks the
      backend's promises. */
  ghost predicate Faithful(t: Table, op: Op) {
    && Admissible(t, op)
    && (op.EditOp? ==> !Hollows(t, op.id, op.changes))
    && (op.ResetOp? ==> Restorable(t))
  }

  lemma {:induction false} FaithfulStep(t: Table, op: Op)
    requires Inv(t) && Faithful(t, op)
    ensures BaseView(Step(t, op)) == if Defers(t, op) then BaseView(t) else PlainStep(BaseView(t), op)
  {
    match op
    case EditOp(id, changes) => DraftEditBaseView(t, id, changes);
    case AddOp(fields) => DraftAddBaseView(t, fields);
    case DeleteOp(id) => DraftDeleteBaseView(t, id);
    case PendOp => MarkPendingBaseView(t);
    case ResetOp =>
      ResetView(t);
      RestoredIsBaseView(t);
    case ReplyOp(rows, next, count) => ReplyBaseView(t, rows, next, count);
    case RowReplyOp(id, rows, next) =>
      var t1 := t.(loading := t.loading - {id});
      InvFrame(t, t1);
      ViewFrame(t, t1);
      ReplyBaseView(t1, rows, next, 1);
    case JournalDeleteOp(id) => JournalDeleteBaseView(t, id);
    case JournalModifyOp(id, now) => MarkStaleBaseView(t, id, now);
    case JournalAddOp(id, now) => GetNewBaseView(t, id, now);
    case FullRefreshOp =>
    case AttachOp(now) =>
      RefreshAllFrame(if t.shown == [] then FullRefresh(t) else t, AscendingIds(StaleRows(t)), now);
      ViewFrame(t, AttachModel(t, now));
  }

  /** The same rows and states, except the values of some rows and the states of some. */
  ghost predicate Near(b: map<nat, Cell>, p: map<nat, Cell>, rows: set<nat>, states: set<nat>) {
    && b.Keys == p.Keys
    && forall id :: id in b ==> (b[id].row == p[id].row || id in rows) && (b[id].state == p[id].state || id in states)
  }

  /** The row a step empties, or the rows whose edited value a reset keeps because they were deleted after. */
  function SpoiledRows(t: Table, op: Op): set<nat> {
    match op
    case EditOp(id, changes) => if Hollows(t, id, changes) then {id} else {}
    case ResetOp => set id | id in t.cells && id in t.backups
      && (t.cells[id].state.DraftDelete? || t.cells[id].state.PendingDelete?) && t.cells[id].row != t.backups[id].row
    case _ => {}
  }

  /** The row whose stale mark a step defers, or the rows to which a reset gives the state of a leftover backup. */
  function SpoiledStates(t: Table, op: Op): set<nat> {
    match op
    case JournalModifyOp(id, _) => if Defers(t, op) then {id} else {}
    case ResetOp => set id | id in t.cells && id in t.backups
      && IsUnedited(t.cells[id].state) && t.cells[id].state != t.backups[id].state
    case _ => {}
  }

  lemma {:induction false} RestoredNear(t: Table)
    requires Inv(t) && NoDraftAdd(t)
    ensures Near(Restored(t.cells, t.backups, t.backups.Keys), BaseView(t), SpoiledRows(t, ResetOp),
      SpoiledStates(t, ResetOp))
  {
    assert Restored(t.cells, t.backups, t.backups.Keys).Keys == BaseView(t).Keys;
  }

  /** Each step of the table, a reset and a refused edit among them, changes the base view as it changes a cache
      without editing, up to the rows it spoils. */
  lemma {:induction false} SimulationStep(t: Table, op: Op)
    requires Inv(t) && Admissible(t, op)
    ensures Near(BaseView(Step(t, op)), PlainStep(BaseView(t), op), SpoiledRows(t, op), SpoiledStates(t, op))
  {
    if op.ResetOp? {
      ResetView(t);
      RestoredNear(t);
    } else if op.EditOp? && Hollows(t, op.id, op.changes) {
      DraftEditBaseView(t, op.id, op.changes);
    } else {
      FaithfulStep(t, op);
    }
  }

  function Reported(op: Op): set<nat> {
    if op.ReplyOp? || op.RowReplyOp? then IdsOf(op.rows) else {}
  }

  /** The rows a step puts right again, whatever was wrong with their values. */
  function CorrectedRows(op: Op): set<nat> {
    if op.JournalDeleteOp? then {op.id} else Reported(op)
  }

  function CorrectedStates(op: Op): set<nat> {
    if op.JournalModifyOp? then {op.id} else CorrectedRows(op)
  }

  /** The rows spoiled in a run and not put right since. */
  ghost function WrongRows(t: Table, ops: seq<Op>): set<nat> {
    if ops == [] then {}
    else
      var n := |ops| - 1;
      WrongRows(t, ops[..n]) - CorrectedRows(ops[n]) + SpoiledRows(Run(t, ops[..n]), ops[n])
  }

  ghost function WrongStates(t: Table, ops: seq<Op>): set<nat> {
    if ops == [] then {}
    else
      var n := |ops| - 1;
      WrongStates(t, ops[..n]) - CorrectedStates(ops[n]) + SpoiledStates(Run(t, ops[..n]), ops[n])
  }

  lemma {:induction false} NearStep(b: map<nat, Cell>, p: map<nat, Cell>, rows: set<nat>, states: set<nat>, op: Op)
    requires Near(b, p, rows, states)
    ensures Near(PlainStep(b, op), PlainStep(p, op), rows - CorrectedRows(op), states - CorrectedStates(op))
  {
    if op.ReplyOp? || op.RowReplyOp? {
      RowCellsDomain(op.rows);
    }
  }

  lemma {:induction false} NearTransitive(b: map<nat, Cell>, c: map<nat, Cell>, p: map<nat, Cell>,
                                          rows: set<nat>, states: set<nat>, rows': set<nat>, states': set<nat>)
    requires Near(b, c, rows, states) && Near(c, p, rows', states')
    ensures Near(b, p, rows' + rows, states' + states)
  {
  }

  /** After the run the base view is that of a plain cache that only the remote events of the run have reached,
      up to the rows spoiled and not put right since. */
  ghost predicate FollowsPlainCache(t: Table, ops: seq<Op>) {
    Near(BaseView(Run(t, ops)), PlainRun(BaseView(t), ops), WrongRows(t, ops), WrongStates(t, ops))
  }

  /** Over every run, with any interleaving of local edits, resets and remote events, the base view stays what a
      cache without editing would hold after the same remote events. */
  lemma {:induction false} SimulationRun(t: Table, ops: seq<Op>)
    requires Inv(t) && AdmissibleRun(t, ops)
    ensures FollowsPlainCache(t, ops)
  {
    if ops != [] {
      var n := |ops| - 1;
      var u, p, op := Run(t, ops[..n]), PlainRun(BaseView(t), ops[..n]), ops[n];
      SimulationRun(t, ops[..n]);
      RunKeepsInv(t, ops[..n]);
      SimulationStep(u, op);
      NearStep(BaseView(u), p, WrongRows(t, ops[..n]), WrongStates(t, ops[..n]), op);
      NearTransitive(BaseView(Step(u, op)), PlainStep(BaseView(u), op), PlainStep(p, op),
                     SpoiledRows(u, op), SpoiledStates(u, op),
                     WrongRows(t, ops[..n]) - CorrectedRows(op), WrongStates(t, ops[..n]) - CorrectedStates(op));
    }
  }

  // ---------------------------------------------------------------- what is wrong meanwhile

  function Overlaid(t: Table): set<nat> {
    set id | id in t.cells && IsPendingOverlay(t.cells[id].state)
  }

  /** A pending edit or delete stays until its row is deleted or reported again, or the edits are reset. */
  lemma {:induction false} OverlayPersists(t: Table, op: Op, id: nat)
    requires Inv(t) && Admissible(t, op) && !op.ResetOp?
    requires id in t.cells && IsPendingOverlay(t.cells[id].state) && id in Step(t, op).cells
    ensures id in Reported(op) || Step(t, op).cells[id] == t.cells[id]
  {
    match op
    case ReplyOp(rows, next, count) => ReplyCells(t, rows, next, count);
    case RowReplyOp(k, rows, next) =>
      InvFrame(t, t.(loading := t.loading - {k}));
      ReplyCells(t.(loading := t.loading - {k}), rows, next, 1);
    case JournalModifyOp(k, now) => MarkStaleIs(t, k, now);
    case AttachOp(now) =>
      RefreshAllFrame(if t.shown == [] then FullRefresh(t) else t, AscendingIds(StaleRows(t)), now);
    case _ =>
  }

  lemma {:induction false} ReplyCells(t: Table, rows: seq<Row>, next: Option<nat>, count: nat)
    requires Inv(t) && FromBackend(rows)
    ensures RowCells(rows).Keys == IdsOf(rows)
    ensures var r := ProcessRowsResponse(t, rows, next, count);
            r.cells == Keeping(t.cells, Outstanding(t, rows)) + RowCells(rows) && r.adds == Outstanding(t, rows)
  {
    var t1 := if Continues(rows, next, count) then t.(sent := t.sent + [NextPage(rows, next, count)]) else t;
    InvFrame(t, t1);
    MergeIsApply(t1, rows);
    ReplyMerge(t1, rows);
    RowCellsDomain(rows);
  }

  ghost predicate FaithfulRun(t: Table, ops: seq<Op>) {
    ops == [] ||
    (FaithfulRun(t, ops[..|ops| - 1]) && Faithful(Run(t, ops[..|ops| - 1]), ops[|ops| - 1]))
  }

  lemma {:induction false} FaithfulRunIsAdmissible(t: Table, ops: seq<Op>)
    requires FaithfulRun(t, ops)
    ensures AdmissibleRun(t, ops)
  {
    if ops != [] {
      FaithfulRunIsAdmissible(t, ops[..|ops| - 1]);
    }
  }

  /** An overlaid row is still there after a step, and still overlaid unless the step puts its state right. */
  lemma {:induction false} OverlaidStays(t: Table, op: Op, id: nat)
    requires Inv(t) && Faithful(t, op) && !op.ResetOp? && id in Overlaid(t) && id !in CorrectedStates(op)
    ensures id in Overlaid(Step(t, op))
  {
    FaithfulStep(t, op);
    assert id in BaseView(t);
    if op.ReplyOp? || op.RowReplyOp? {
      RowCellsDomain(op.rows);
    }
    assert id in BaseView(Step(t, op));
    OverlayPersists(t, op, id);
  }

  lemma {:induction false} DefersOverlaid(t: Table, op: Op)
    requires Inv(t) && Defers(t, op)
    ensures op.id in Overlaid(Step(t, op))
  {
  }

  /** As long as nothing is emptied, restored wrongly or reset, every row has the plain cache's value, and only rows
      still under a pending edit or delete can have another state. */
  lemma {:induction false} OnlyOverlaidDiffer(t: Table, ops: seq<Op>)
    requires Inv(t) && FaithfulRun(t, ops) && ResetOp !in ops
    ensures WrongRows(t, ops) == {} && WrongStates(t, ops) <= Overlaid(Run(t, ops))
  {
    if ops != [] {
      var n := |ops| - 1;
      var u, op := Run(t, ops[..n]), ops[n];
      OnlyOverlaidDiffer(t, ops[..n]);
      FaithfulRunIsAdmissible(t, ops[..n]);
      RunKeepsInv(t, ops[..n]);
      forall id | id in WrongStates(t, ops) ensures id in Overlaid(Step(u, op)) {
        if id in SpoiledStates(u, op) {
          DefersOverlaid(u, op);
        } else {
          OverlaidStays(u, op, id);
        }
      }
    }
  }
}
