/** When resetting the edits of a table gives the backend's rows back, and what it leaves behind. */
module ResetTheorems {
  import opened TableTypes
  import opened TableSpec
  import opened Restoration
  import opened TableInvariants
  import opened Simulation

  // ---------------------------------------------------------------- with draft added rows

  lemma {:induction false} RestoreLeavesOthers(t: Table, todo: seq<Cell>, id: nat)
    requires id in t.cells && id !in CellIds(todo)
    ensures var r := RestoreFrom(t, todo);
            r.Some? ==> id in r.value.cells && r.value.cells[id] == t.cells[id]
    decreases |todo|
  {
    if todo != [] {
      var k := todo[0].row.id;
      CellIdsTail(todo);
      if k !in t.cells {
        RestoreLeavesOthers(t.(backups := t.backups - {k}), todo[1..], id);
      } else if t.cells[k].state.DraftAdd? {
        if |todo| > 1 {
          CellIdsTail(todo[1..]);
          assert todo[1..][1..] == todo[2..];
          var d := DeleteRow(t, k);
          RestoreLeavesOthers(d.(backups := d.backups - {todo[1].row.id}), todo[2..], id);
        }
      } else if t.cells[k].state.PendingAdd? {
        var d := DeleteRow(t, k);
        RestoreLeavesOthers(d.(backups := d.backups - {k}), todo[1..], id);
      } else {
        RestoreLeavesOthers(t.(cells := t.cells[k := RestoredCell(t.cells[k], todo[0])]), todo[1..], id);
      }
    }
  }

  /** With the draft added rows last, one of them survives the restoration, unless it is undefined. */
  lemma {:induction false} DraftAddSurvives(t: Table, todo: seq<Cell>, first: nat)
    requires AscendingTodo(todo) && first < |todo|
    requires forall k :: 0 <= k < |todo| ==> (first <= k <==> BASE_DRAFT_ID <= todo[k].row.id)
    requires forall k :: first <= k < |todo| ==> todo[k].row.id in t.cells && t.cells[todo[k].row.id].state.DraftAdd?
    requires forall k :: 0 <= k < first ==> todo[k].row.id in t.cells ==> IsOverlaid(t.cells[todo[k].row.id].state)
    ensures var r := RestoreFrom(t, todo);
            r.Some? ==> exists id :: id in r.value.cells && r.value.cells[id].state.DraftAdd?
    decreases |todo|
  {
    var id := todo[0].row.id;
    CellIdsTail(todo);
    if first > 0 {
      var t1 := if id !in t.cells then t.(backups := t.backups - {id})
                else t.(cells := t.cells[id := RestoredCell(t.cells[id], todo[0])]);
      assert forall k :: 0 <= k < |todo| - 1 ==> todo[1..][k] == todo[k + 1];
      DraftAddSurvives(t1, todo[1..], first - 1);
    } else if |todo| > 1 {
      var last := todo[1].row.id;
      CellIdsTail(todo[1..]);
      assert todo[1..][1..] == todo[2..];
      var d := DeleteRow(t, id);
      RestoreLeavesOthers(d.(backups := d.backups - {last}), todo[2..], last);
    }
  }

  /** Where the draft region begins in an ascending list that reaches it. */
  lemma {:induction false} RegionStart(todo: seq<Cell>, last: nat) returns (first: nat)
    requires AscendingTodo(todo) && last < |todo| && BASE_DRAFT_ID <= todo[last].row.id
    ensures first < |todo|
    ensures forall k :: 0 <= k < |todo| ==> (first <= k <==> BASE_DRAFT_ID <= todo[k].row.id)
  {
    if last == 0 || todo[last - 1].row.id < BASE_DRAFT_ID {
      first := last;
    } else {
      first := RegionStart(todo, last - 1);
    }
  }

  lemma {:induction false} DraftAddsComeLast(t: Table, todo: seq<Cell>, id: nat)
    requires Inv(t) && AscendingTodo(todo) && CellIds(todo) == t.backups.Keys
    requires id in t.cells && t.cells[id].state.DraftAdd?
    ensures var r := RestoreFrom(t, todo);
            r.Some? ==> exists k :: k in r.value.cells && r.value.cells[k].state.DraftAdd?
  {
    assert forall k :: 0 <= k < |todo| ==> todo[k].row.id in CellIds(todo);
    assert id in CellIds(todo);
    var last :| 0 <= last < |todo| && todo[last].row.id == id;
    var first := RegionStart(todo, last);
    DraftAddSurvives(t, todo, first);
  }

  // ---------------------------------------------------------------- the theorems

  lemma {:induction false} ResetWithDraftAdd(t: Table, id: nat)
    requires Inv(t) && id in t.cells && t.cells[id].state.DraftAdd?
    ensures ResetEdits(t).Some? ==> ResetEdits(t).value.cells != BaseView(t)
  {
    AscendingCellsIs(t.backups);
    DraftAddsComeLast(t, AscendingCells(t.backups), id);
    BaseViewIsUnedited(t);
  }

  /** Resetting is defined and gives the base view exactly when the table is restorable. */
  lemma {:induction false} ResetRestores(t: Table)
    requires Inv(t)
    ensures (ResetEdits(t).Some? && ResetEdits(t).value.cells == BaseView(t)) <==> Restorable(t)
    ensures Restorable(t) ==> ResetEdits(t).value.backups == map[] && ResetEdits(t).value.adds == []
  {
    if id :| id in t.cells && t.cells[id].state.DraftAdd? {
      ResetWithDraftAdd(t, id);
    } else {
      ResetIs(t);
      RestoredIsBaseView(t);
    }
  }

  /** It is defined and leaves the table in order exactly when no row is draft added. */
  lemma {:induction false} ResetLeavesOrder(t: Table)
    requires Inv(t)
    ensures (ResetEdits(t).Some? && Inv(ResetEdits(t).value)) <==> NoDraftAdd(t)
  {
    if id :| id in t.cells && t.cells[id].state.DraftAdd? {
      ResetBreaksOrder(t, id);
    } else {
      ResetKeepsInv(t);
    }
  }

  lemma {:induction false} ResetBreaksOrder(t: Table, id: nat)
    requires Inv(t) && id in t.cells && t.cells[id].state.DraftAdd?
    ensures ResetEdits(t).Some? ==> !Inv(ResetEdits(t).value)
  {
    ResetLeavesAdd(t, id);
    if ResetEdits(t).Some? {
      UnrecordedAdd(ResetEdits(t).value);
    }
  }

  ghost predicate HasDraftAdd(t: Table) {
    exists id :: id in t.cells && t.cells[id].state.DraftAdd?
  }

  lemma {:induction false} ResetLeavesAdd(t: Table, id: nat)
    requires Inv(t) && id in t.cells && t.cells[id].state.DraftAdd?
    ensures ResetEdits(t).Some? ==> HasDraftAdd(ResetEdits(t).value) && ResetEdits(t).value.adds == []
  {
    AscendingCellsIs(t.backups);
    DraftAddsComeLast(t, AscendingCells(t.backups), id);
  }

  /** A draft added row that is left over has neither record nor backup. */
  lemma {:induction false} UnrecordedAdd(r: Table)
    requires r.adds == [] && HasDraftAdd(r)
    ensures !Inv(r)
  {
    assert DraftIds(r.adds) == [];
  }

  /** A reset never changes the flag: editing is enabled afterwards exactly if it was before. */
  lemma {:induction false} ResetKeepsFlag(t: Table)
    requires Inv(t) && ResetEdits(t).Some?
    ensures ResetEdits(t).value.pending == t.pending
  {
    if t.pending {
      ResetIs(t);
    } else {
      RestoreSetsNoFlag(t, AscendingCells(t.backups));
    }
  }

  lemma {:induction false} RestoreSetsNoFlag(t: Table, todo: seq<Cell>)
    requires !t.pending
    ensures RestoreFrom(t, todo).Some? ==> !RestoreFrom(t, todo).value.pending
    decreases |todo|
  {
    if todo != [] {
      var id := todo[0].row.id;
      if id !in t.cells || !t.cells[id].state.DraftAdd? {
        VisitIsNext(t, todo);
        RestoreSetsNoFlag(Visit(t, todo[0]), todo[1..]);
      } else if |todo| > 1 {
        var d := DeleteRow(t, id);
        RestoreSetsNoFlag(d.(backups := d.backups - {todo[1].row.id}), todo[2..]);
      }
    }
  }

  // ---------------------------------------------------------------- what goes wrong, concretely

  /** Resetting a single local add is undefined: its backup is removed, and then removed again. */
  lemma {:induction false} ResetOfOneAdd(fields: Fields)
    requires Overlay(fields, DEFAULT_ROW).id == 0
    ensures ResetEdits(DraftAddRow(EMPTY_TABLE, fields)) == None
  {
    var t := DraftAddRow(EMPTY_TABLE, fields);
    var id := NextDraftId({});
    assert EMPTY_TABLE.cells.Keys == {};
    assert t.backups == map[id := t.cells[id]];
    assert DraftIds(EMPTY_TABLE.adds) == [];
    DraftAddKeepsInv(EMPTY_TABLE, fields);
    AscendingCellsIs(t.backups);
    var todo := AscendingCells(t.backups);
    assert forall k :: 0 <= k < |todo| ==> todo[k].row.id == id;
    assert id in CellIds(todo);
  }

  /** A row loaded, then renamed and then deleted locally. */
  function RenamedAndDeleted(row: Row, name: string): Table {
    var loaded := EMPTY_TABLE.(cells := map[row.id := Cell(row, Loaded)]);
    DraftDeleteRow(DraftEditRow(loaded, row.id, map[NAME_KEY := Text(name)]), row.id)
  }

  lemma {:induction false} RenamedAndDeletedIs(row: Row, name: string)
    ensures var t := RenamedAndDeleted(row, name);
      && t.cells == map[row.id := Cell(row.(name := name), DraftDelete)]
      && t.backups == map[row.id := Cell(row, Loaded)]
      && t.adds == [] && !t.pending
  {
    var changes: Fields := map[NAME_KEY := Text(name)];
    assert Overlay(changes, row) == row.(name := name);
  }

  /** It comes back from a reset with the new name, though the base view has the old one. */
  lemma {:induction false} ResetKeepsRename(row: Row, name: string)
    requires row.id < BASE_DRAFT_ID
    ensures var t := RenamedAndDeleted(row, name);
      && BaseView(t) == map[row.id := Cell(row, Loaded)]
      && ResetEdits(t).Some? && ResetEdits(t).value.cells == map[row.id := Cell(row.(name := name), Loaded)]
  {
    RenamedAndDeletedIs(row, name);
    ResetOfDeletion(RenamedAndDeleted(row, name), row, row.(name := name));
  }

  lemma {:induction false} ResetOfDeletion(t: Table, row: Row, edited: Row)
    requires row.id == edited.id < BASE_DRAFT_ID && t.adds == [] && !t.pending
    requires t.cells == map[row.id := Cell(edited, DraftDelete)] && t.backups == map[row.id := Cell(row, Loaded)]
    ensures BaseView(t) == map[row.id := Cell(row, Loaded)]
    ensures ResetEdits(t).Some? && ResetEdits(t).value.cells == map[row.id := Cell(edited, Loaded)]
  {
    OneDeletionKeepsInv(t, row, edited);
    ResetIs(t);
    OneDeletionRestored(t.cells, t.backups, row, edited);
  }

  lemma {:induction false} OneDeletionKeepsInv(t: Table, row: Row, edited: Row)
    requires row.id == edited.id < BASE_DRAFT_ID && t.adds == [] && !t.pending
    requires t.cells == map[row.id := Cell(edited, DraftDelete)] && t.backups == map[row.id := Cell(row, Loaded)]
    ensures Inv(t)
  {
    assert DraftIds(t.adds) == [];
  }

  lemma {:induction false} OneDeletionRestored(cells: map<nat, Cell>, backups: map<nat, Cell>, row: Row, edited: Row)
    requires cells == map[row.id := Cell(edited, DraftDelete)] && backups == map[row.id := Cell(row, Loaded)]
    ensures Restored(cells, backups, backups.Keys) == map[row.id := Cell(edited, Loaded)]
  {
  }

  /** What a remote deletion leaves of a backup: it stays exactly if its row was under a pending edit, or not
      edited any more, or not there. */
  lemma {:induction false} DeletionLeavesBackup(t: Table, id: nat)
    requires Inv(t) && id < BASE_DRAFT_ID && id in t.backups
    ensures id in DeleteRow(t, id).backups <==>
      (id !in t.cells || t.cells[id].state.PendingEdit? || IsUnedited(t.cells[id].state))
  {
  }

  // ---------------------------------------------------------------- the flag

  /** A table that refuses every edit although none is held. */
  ghost predicate Locked(t: Table) {
    t.pending && t.backups == map[] && t.adds == [] && forall id :: id in t.cells ==> IsUnedited(t.cells[id].state)
  }

  /** Resetting pending edits, whichever they are, leaves the flag set: nothing is pending, but the table is locked. */
  lemma {:induction false} ResetLocks(t: Table)
    requires Inv(t) && t.pending
    ensures ResetEdits(t).Some? && Locked(ResetEdits(t).value)
  {
    ResetIs(t);
    AllRestored(t);
  }

  lemma {:induction false} LockedReply(t: Table, rows: seq<Row>, next: Option<nat>, count: nat)
    requires Locked(t) && Inv(t) && FromBackend(rows)
    ensures Locked(ProcessRowsResponse(t, rows, next, count))
  {
    var t1 := if Continues(rows, next, count) then t.(sent := t.sent + [NextPage(rows, next, count)]) else t;
    InvFrame(t, t1);
    MergeIsApply(t1, rows);
    LockedRows(t1, rows);
  }

  lemma {:induction false} LockedRows(t: Table, rows: seq<Row>)
    requires Locked(t)
    ensures Locked(ApplyRows(t, rows))
  {
    if rows != [] {
      LockedRows(t, rows[..|rows| - 1]);
    }
  }

  lemma {:induction false} LockedStep(t: Table, op: Op)
    requires Locked(t) && Inv(t) && Admissible(t, op)
    ensures Locked(Step(t, op))
    ensures op.EditOp? || op.AddOp? || op.DeleteOp? ==> Step(t, op) == t
  {
    match op
    case ResetOp => ResetLocks(t);
    case ReplyOp(rows, next, count) => LockedReply(t, rows, next, count);
    case RowReplyOp(id, rows, next) =>
      InvFrame(t, t.(loading := t.loading - {id}));
      LockedReply(t.(loading := t.loading - {id}), rows, next, 1);
    case JournalModifyOp(id, now) => MarkStaleIs(t, id, now);
    case AttachOp(now) =>
      RefreshAllFrame(if t.shown == [] then FullRefresh(t) else t, AscendingIds(StaleRows(t)), now);
    case _ =>
  }

  /** No run of edits, resets and remote events ever unlocks it. */
  lemma {:induction false} LockedForever(t: Table, ops: seq<Op>)
    requires Locked(t) && Inv(t) && AdmissibleRun(t, ops)
    ensures Locked(Run(t, ops))
  {
    if ops != [] {
      var n := |ops| - 1;
      LockedForever(t, ops[..n]);
      RunKeepsInv(t, ops[..n]);
      LockedStep(Run(t, ops[..n]), ops[n]);
    }
  }
}
