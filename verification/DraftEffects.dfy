/** What draft operations show the user, when they are refused, and how they are submitted. */
module DraftEffects {
  import opened TableTypes
  import opened TableSpec
  import opened Restoration
  import opened TableInvariants

  // ---------------------------------------------------------------- fields

  /** A row's fields can be taken apart and put together again, whatever row they are put on. */
  lemma {:induction false} FieldsRoundTrip(row: Row, other: Row)
    ensures Overlay(FieldsOf(row), other) == row
    ensures Matches(FieldsOf(row), other) <==> other == row
  {
  }

  // ---------------------------------------------------------------- edits

  /** An edit of a row the table lets be edited, that leaves its ID alone: the name and the tags named in the edit are
      the row's afterwards, what is not named stays, and no other row changes. */
  lemma {:induction false} EditIsShown(t: Table, id: nat, changes: Fields)
    requires Inv(t) && !t.pending && id in t.cells && !t.cells[id].state.DraftDelete?
    requires "id" in changes ==> changes["id"] == Number(id)
    ensures var r, was := Step(t, EditOp(id, changes)), t.cells[id];
      && r.cells.Keys == t.cells.Keys && (forall k :: k in t.cells && k != id ==> r.cells[k] == t.cells[k])
      && r.cells[id].row.id == id
      && ("name" !in changes ==> r.cells[id].row.name == was.row.name)
      && ("tags" !in changes ==> r.cells[id].row.tags == was.row.tags)
      && (forall s :: "name" in changes && changes["name"] == Text(s) ==> r.cells[id].row.name == s)
      && (forall ss :: "tags" in changes && changes["tags"] == Texts(ss) ==> r.cells[id].row.tags == ss)
      && r.cells[id].state == if was.state.DraftAdd? then DraftAdd else DraftEdit
  {
    hide FindAdd;
  }

  /** If the row is a local add, its record takes the same values, and the other records stay. */
  lemma {:induction false} EditIsRecorded(t: Table, id: nat, changes: Fields, k: nat)
    requires Inv(t) && !t.pending && id in t.cells && t.cells[id].state.DraftAdd?
    requires "id" in changes ==> changes["id"] == Number(id)
    requires k < |t.adds| && DraftIdOf(t.adds[k]) == id
    ensures Step(t, EditOp(id, changes)).adds == t.adds[k := t.adds[k] + changes]
  {
    var i := FindAdd(t.adds, id);
    assert DraftIds(t.adds)[k] == id;
    assert i <= k && (i < |t.adds| ==> DraftIds(t.adds)[i] == id);
  }

  // ---------------------------------------------------------------- refusals

  /** A table with pending edits refuses every draft operation. */
  lemma {:induction false} PendingRefuses(t: Table, op: Op)
    requires t.pending && (op.EditOp? || op.AddOp? || op.DeleteOp?)
    ensures Step(t, op) == t
  {
  }

  /** A table without pending edits refuses an operation exactly for the reasons it states: an edit of a row it does
      not have or that is draft-deleted, an add that names an ID, a deletion of a row it does not have. A refused
      change of ID is the exception: it is refused, but not without effect. */
  lemma {:induction false} RefusalsAre(t: Table)
    requires Inv(t) && !t.pending
    ensures forall id, changes :: id !in t.cells || t.cells[id].state.DraftDelete? ==> Step(t, EditOp(id, changes)) == t
    ensures forall fields: Fields, n: nat ::
      "id" in fields && fields["id"] == Number(n) && n != 0 ==> Step(t, AddOp(fields)) == t
    ensures forall fields: Fields :: "id" !in fields ==> |Step(t, AddOp(fields)).adds| == |t.adds| + 1
    ensures forall id :: id !in t.cells ==> Step(t, DeleteOp(id)) == t
  {
    forall fields: Fields, n: nat | "id" in fields && fields["id"] == Number(n) && n != 0
      ensures Step(t, AddOp(fields)) == t
    {
    }
  }

  // ---------------------------------------------------------------- adds and deletions

  /** An added row has the name and tags it was given, or none, and is recorded with all its fields and its ID. */
  lemma {:induction false} AddIsShown(t: Table, fields: Fields)
    requires Inv(t) && !t.pending && "id" !in fields
    ensures var r := Step(t, AddOp(fields));
      exists id ::
        && id !in t.cells && BASE_DRAFT_ID <= id && id in r.cells
        && r.cells == t.cells[id := r.cells[id]] && r.backups == t.backups[id := r.cells[id]]
        && r.cells[id].state.DraftAdd? && r.cells[id].row.id == id
        && (forall s :: "name" in fields && fields["name"] == Text(s) ==> r.cells[id].row.name == s)
        && (forall ss :: "tags" in fields && fields["tags"] == Texts(ss) ==> r.cells[id].row.tags == ss)
        && ("name" !in fields ==> r.cells[id].row.name == "") && ("tags" !in fields ==> r.cells[id].row.tags == [])
        && r.adds == t.adds + [fields["DRAFT_ID" := Number(id)]]
  {
    var id := NextDraftId(t.cells.Keys);
    assert id !in t.cells.Keys;
    assert id !in t.backups;
    assert id in Step(t, AddOp(fields)).cells;
  }

  /** A deleted row keeps its value and has a backup; a deleted local add is gone, with its record and its backup. */
  lemma {:induction false} DeletionIsShown(t: Table, id: nat)
    requires Inv(t) && !t.pending && id in t.cells
    ensures var r, was := Step(t, DeleteOp(id)), t.cells[id];
      if was.state.DraftAdd? then
        && r.cells == t.cells - {id} && r.backups == t.backups - {id}
        && forall x :: x in r.adds ==> x in t.adds && DraftIdOf(x) != id
      else
        && r.cells == t.cells[id := Cell(was.row, DraftDelete)] && r.adds == t.adds
        && r.backups == if id in t.backups then t.backups else t.backups[id := was]
  {
    hide WithoutDraft;
    WithoutDraftIs(t.adds, id);
    if t.cells[id].state.DraftAdd? {
      assert Step(t, DeleteOp(id)).adds == WithoutDraft(t.adds, id);
    }
  }

  lemma {:induction false} WithoutDraftIs(adds: seq<Fields>, id: nat)
    ensures forall x :: x in WithoutDraft(adds, id) ==> x in adds && DraftIdOf(x) != id
  {
    if adds != [] {
      WithoutDraftIs(adds[1..], id);
      assert adds == [adds[0]] + adds[1..];
    }
  }

  // ---------------------------------------------------------------- submitting

  /** Submitting turns each kind of draft into the pending state of its own kind, and touches no value, no backup, no
      record and no unedited row; the table is pending afterwards if there was any edit. */
  lemma {:induction false} SubmissionIs(t: Table)
    requires Inv(t) && !t.pending
    ensures var r := Step(t, PendOp);
      && r.cells.Keys == t.cells.Keys && r.backups == t.backups && r.adds == t.adds
      && (r.pending <==> exists id :: id in t.cells && !IsUnedited(t.cells[id].state))
      && forall id :: id in t.cells ==>
           && r.cells[id].row == t.cells[id].row
           && (t.cells[id].state.DraftEdit? <==> r.cells[id].state.PendingEdit?)
           && (t.cells[id].state.DraftAdd? <==> r.cells[id].state.PendingAdd?)
           && (t.cells[id].state.DraftDelete? <==> r.cells[id].state.PendingDelete?)
           && (IsUnedited(t.cells[id].state) ==> r.cells[id] == t.cells[id])
  {
    var r := Step(t, PendOp);
    if r.pending {
      var id :| id in t.backups;
      assert id in t.cells && IsDraft(t.cells[id].state);
    } else {
      assert forall id :: id !in t.backups;
    }
  }

  /** The flag falls with the last edit: between resets a pending table holds a backup. */
  lemma {:induction false} PendingHoldsEdit(t: Table, op: Op)
    requires Inv(t) && Admissible(t, op) && !op.ResetOp? && (t.pending ==> t.backups != map[])
    ensures Step(t, op).pending ==> Step(t, op).backups != map[]
  {
    match op
    case ReplyOp(rows, next, count) => ReplyHoldsEdit(t, rows, next, count);
    case RowReplyOp(id, rows, next) =>
      InvFrame(t, t.(loading := t.loading - {id}));
      ReplyHoldsEdit(t.(loading := t.loading - {id}), rows, next, 1);
    case JournalModifyOp(id, now) => MarkStaleIs(t, id, now);
    case AttachOp(now) =>
      RefreshAllFrame(if t.shown == [] then FullRefresh(t) else t, AscendingIds(StaleRows(t)), now);
    case _ =>
  }

  lemma {:induction false} ReplyHoldsEdit(t: Table, rows: seq<Row>, next: Option<nat>, count: nat)
    requires Inv(t) && FromBackend(rows) && (t.pending ==> t.backups != map[])
    ensures var r := ProcessRowsResponse(t, rows, next, count); r.pending ==> r.backups != map[]
  {
    var t1 := if Continues(rows, next, count) then t.(sent := t.sent + [NextPage(rows, next, count)]) else t;
    InvFrame(t, t1);
    MergeIsApply(t1, rows);
    RowsHoldEdit(t1, rows);
  }

  lemma {:induction false} RowsHoldEdit(t: Table, rows: seq<Row>)
    requires t.pending ==> t.backups != map[]
    ensures ApplyRows(t, rows).pending ==> ApplyRows(t, rows).backups != map[]
  {
    if rows != [] {
      RowsHoldEdit(t, rows[..|rows| - 1]);
      RowHoldsEdit(ApplyRows(t, rows[..|rows| - 1]), rows[|rows| - 1]);
    }
  }

  lemma {:induction false} RowHoldsEdit(t: Table, row: Row)
    requires t.pending ==> t.backups != map[]
    ensures ApplyRow(t, row).pending ==> ApplyRow(t, row).backups != map[]
  {
    hide FindAdd, FindMatch, FieldsOf;
  }

  ghost predicate WithoutReset(ops: seq<Op>) {
    forall k :: 0 <= k < |ops| ==> !ops[k].ResetOp?
  }

  /** Over every run without reset: the table lets itself be edited again as soon as no edit is held. */
  lemma {:induction false} UnlocksWithLastEdit(ops: seq<Op>)
    requires AdmissibleRun(EMPTY_TABLE, ops) && WithoutReset(ops)
    ensures Run(EMPTY_TABLE, ops).backups == map[] ==> !Run(EMPTY_TABLE, ops).pending
  {
    if ops != [] {
      var n := |ops| - 1;
      UnlocksWithLastEdit(ops[..n]);
      RunKeepsInv(EMPTY_TABLE, ops[..n]);
      PendingHoldsEdit(Run(EMPTY_TABLE, ops[..n]), ops[n]);
    }
  }
}
