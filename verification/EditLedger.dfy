/** No local edit is lost or reported twice: the log of a run balances against the backups held. */
module EditLedger {
  import opened TableTypes
  import opened TableSpec
  import opened Restoration
  import opened TableInvariants

  /** Backups saved for a row, less the times its edit was reported settled or invalidated. */
  function Balance(log: seq<Event>, id: nat): int {
    if log == [] then 0
    else
      var e := log[|log| - 1];
      Balance(log[..|log| - 1], id) + (if e.id != id then 0 else if e.Saved? then 1 else -1)
  }

  lemma {:induction false} BalanceOfEmit(log: seq<Event>, e: Event, id: nat)
    ensures Balance(log + [e], id) == Balance(log, id) + (if e.id != id then 0 else if e.Saved? then 1 else -1)
  {
    assert (log + [e])[..|log|] == log;
  }

  /** What the log says of a row, less the backup held: zero if the ledger is closed. */
  function Open(t: Table, id: nat): int {
    Balance(t.log, id) - if id in t.backups then 1 else 0
  }

  ghost predicate SameLedger(t: Table, r: Table) {
    forall id :: Open(r, id) == Open(t, id)
  }

  lemma {:induction false} SaveBalances(t: Table, cell: Cell)
    ensures SameLedger(t, SaveBackup(t, cell))
  {
    forall id { BalanceOfEmit(t.log, Saved(cell.row.id), id); }
  }

  lemma {:induction false} EndBalances(t: Table, e: Event)
    requires !e.Saved? && e.id in t.backups
    ensures SameLedger(t, DropBackup(Emit(t, e), e.id))
  {
    forall id { BalanceOfEmit(t.log, e, id); }
  }

  lemma {:induction false} DeleteBalances(t: Table, id: nat)
    requires Keyed(t.cells)
    requires id in t.cells && (IsDraft(t.cells[id].state) || t.cells[id].state.PendingDelete?) ==> id in t.backups
    ensures SameLedger(t, DeleteRow(t, id))
  {
    if id in t.cells && id in t.backups {
      EndBalances(t, Settled(id, FieldsOf(t.cells[id].row), None));
      EndBalances(t, Invalidated(id));
    }
  }

  lemma {:induction false} EditBalances(t: Table, id: nat, changes: Fields)
    requires Inv(t)
    ensures SameLedger(t, DraftEditRow(t, id, changes))
  {
    if id in t.cells {
      SaveBalances(t, t.cells[id]);
    }
  }

  lemma {:induction false} AddBalances(t: Table, fields: Fields)
    ensures SameLedger(t, DraftAddRow(t, fields))
  {
    SaveBalances(t, Cell(Overlay(fields, DEFAULT_ROW).(id := NextDraftId(t.cells.Keys)), DraftAdd));
  }

  lemma {:induction false} DraftDeleteBalances(t: Table, id: nat)
    requires Inv(t)
    ensures SameLedger(t, DraftDeleteRow(t, id))
  {
    if !t.pending && id in t.cells {
      if t.cells[id].state.DraftAdd? {
        DeleteBalances(t.(adds := WithoutDraft(t.adds, id)), id);
      } else {
        SaveBalances(t, t.cells[id]);
      }
    }
  }

  lemma {:induction false} MarkStaleBalances(t: Table, id: nat, now: int)
    requires Inv(t)
    ensures SameLedger(t, MarkStale(t, id, now))
  {
    MarkStaleIs(t, id, now);
    if id in t.cells && IsDraft(t.cells[id].state) {
      EndBalances(t, Invalidated(id));
    }
  }

  lemma {:induction false} InsertionBalances(t: Table, row: Row)
    requires Inv(t) && row.id < BASE_DRAFT_ID
    ensures SameLedger(t, CheckPendingInsertion(t, row))
  {
    var k := FindMatch(t.adds, row);
    if t.pending && k < |t.adds| {
      var id := DraftIds(t.adds)[k];
      assert id in DraftIds(t.adds);
      var t1 := t.(adds := t.adds[..k] + t.adds[k + 1..]);
      DeleteBalances(t1, id);
      EndBalances(DeleteRow(t1, id), Settled(id, t.adds[k] - {DRAFT_ID_KEY}, Some(row)));
    }
  }

  lemma {:induction false} OverwriteBalances(t: Table, was: Cell, row: Row)
    requires !IsLocalAdd(was.state) && !was.state.Loading?
    requires IsOverlaid(was.state) ==> was.row.id in t.backups
    ensures SameLedger(t, CheckOverwrittenEdit(t, was, row))
  {
    if IsOverlaid(was.state) {
      EndBalances(t, Invalidated(was.row.id));
      EndBalances(t, Settled(was.row.id, FieldsOf(was.row), Some(row)));
    }
  }

  lemma {:induction false} ApplyRowBalances(t: Table, row: Row)
    requires Inv(t) && row.id < BASE_DRAFT_ID
    ensures SameLedger(t, ApplyRow(t, row))
  {
    var t1 := t.(cells := t.cells[row.id := Cell(row, Loaded)]);
    if row.id !in t.cells || t.cells[row.id].state.Loading? {
      RegionAfterWrite(t, row.id, Cell(row, Loaded), t1);
      InsertionBalances(t1, row);
    } else {
      OverwriteBalances(t1, t.cells[row.id], row);
    }
  }

  lemma {:induction false} ApplyRowsBalances(t: Table, rows: seq<Row>)
    requires Inv(t) && FromBackend(rows)
    ensures SameLedger(t, ApplyRows(t, rows))
  {
    if rows != [] {
      var n := |rows| - 1;
      ApplyRowsBalances(t, rows[..n]);
      ApplyRowsKeepsInv(t, rows[..n]);
      ApplyRowBalances(ApplyRows(t, rows[..n]), rows[n]);
    }
  }

  /** A reply reports every edit it ends exactly once. */
  lemma {:induction false} ReplyBalances(t: Table, rows: seq<Row>, next: Option<nat>, count: nat)
    requires Inv(t) && FromBackend(rows)
    ensures SameLedger(t, ProcessRowsResponse(t, rows, next, count))
  {
    var t1 := if Continues(rows, next, count) then t.(sent := t.sent + [NextPage(rows, next, count)]) else t;
    InvFrame(t, t1);
    MergeIsApply(t1, rows);
    ApplyRowsBalances(t1, rows);
  }

  /** Every step but a reset balances what it does to the backups with what it reports. */
  lemma {:induction false} StepBalances(t: Table, op: Op)
    requires Inv(t) && Admissible(t, op) && !op.ResetOp?
    ensures SameLedger(t, Step(t, op))
  {
    hide MarkStale, ProcessRowsResponse, DraftDeleteRow, DeleteRow, DraftEditRow, DraftAddRow, Balance;
    match op
    case EditOp(id, changes) => EditBalances(t, id, changes);
    case AddOp(fields) => AddBalances(t, fields);
    case DeleteOp(id) => DraftDeleteBalances(t, id);
    case PendOp =>
    case ReplyOp(rows, next, count) => ReplyBalances(t, rows, next, count);
    case RowReplyOp(id, rows, next) =>
      InvFrame(t, t.(loading := t.loading - {id}));
      ReplyBalances(t.(loading := t.loading - {id}), rows, next, 1);
    case JournalDeleteOp(id) => DeleteBalances(t, id);
    case JournalModifyOp(id, now) => MarkStaleBalances(t, id, now);
    case JournalAddOp(id, now) =>
    case FullRefreshOp =>
    case AttachOp(now) =>
      RefreshAllFrame(if t.shown == [] then FullRefresh(t) else t, AscendingIds(StaleRows(t)), now);
  }

  /** How many resets of the run dropped a backup of the row; they report nothing. */
  ghost function Discarded(t: Table, ops: seq<Op>, id: nat): nat {
    if ops == [] then 0
    else
      var n := |ops| - 1;
      Discarded(t, ops[..n], id) + if ops[n].ResetOp? && id in Run(t, ops[..n]).backups then 1 else 0
  }

  lemma {:induction false} ResetOpens(t: Table, id: nat)
    requires Inv(t) && NoDraftAdd(t)
    ensures Open(Step(t, ResetOp), id) == Open(t, id) + if id in t.backups then 1 else 0
  {
    ResetIs(t);
  }

  /** Over every run and for each row: edits saved are edits reported settled or invalidated, and edits dropped by
      resets, and the one that is held, if any. */
  lemma {:induction false} LedgerBalances(ops: seq<Op>, id: nat)
    requires AdmissibleRun(EMPTY_TABLE, ops)
    ensures var t := Run(EMPTY_TABLE, ops);
      Balance(t.log, id) == Discarded(EMPTY_TABLE, ops, id) + if id in t.backups then 1 else 0
  {
    LedgerIsOpen(ops, id);
  }

  lemma {:induction false} LedgerIsOpen(ops: seq<Op>, id: nat)
    requires AdmissibleRun(EMPTY_TABLE, ops)
    ensures Open(Run(EMPTY_TABLE, ops), id) == Discarded(EMPTY_TABLE, ops, id)
  {
    if ops != [] {
      var n := |ops| - 1;
      var u := Run(EMPTY_TABLE, ops[..n]);
      LedgerIsOpen(ops[..n], id);
      RunKeepsInv(EMPTY_TABLE, ops[..n]);
      if ops[n].ResetOp? {
        ResetOpens(u, id);
      } else {
        StepBalances(u, ops[n]);
      }
    }
  }
}
