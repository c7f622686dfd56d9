/** Every run of a numeric-ID table: the operations as steps, and what each of them keeps. */
module TableInvariants {
  import opened TableTypes
  import opened TableSpec
  import opened Restoration

  datatype Op =
    | EditOp(id: nat, changes: Fields)
    | AddOp(fields: Fields)
    | DeleteOp(id: nat)
    | PendOp
    | ResetOp
    | ReplyOp(rows: seq<Row>, next: Option<nat>, count: nat)
    | RowReplyOp(id: nat, rows: seq<Row>, next: Option<nat>)
    | JournalDeleteOp(id: nat)
    | JournalModifyOp(id: nat, now: int)
    | JournalAddOp(id: nat, now: int)
    | FullRefreshOp
    | AttachOp(now: int)

  ghost function Step(t: Table, op: Op): Table {
    match op
    case EditOp(id, changes) => DraftEditRow(t, id, changes)
    case AddOp(fields) => DraftAddRow(t, fields)
    case DeleteOp(id) => DraftDeleteRow(t, id)
    case PendOp => MarkEditsPending(t)
    case ResetOp => if ResetEdits(t).Some? then ResetEdits(t).value else t
    case ReplyOp(rows, next, count) => ProcessRowsResponse(t, rows, next, count)
    case RowReplyOp(id, rows, next) => RowReply(t, id, rows, next)
    case JournalDeleteOp(id) => DeleteRow(t, id)
    case JournalModifyOp(id, now) => MarkStale(t, id, now)
    case JournalAddOp(id, now) => GetNew(t, id, now)
    case FullRefreshOp => FullRefresh(t)
    case AttachOp(now) => AttachModel(t, now)
  }

  /** An edit of a local add that changes the ID under which the table has recorded it. */
  predicate Forges(t: Table, id: nat, changes: Fields) {
    && !t.pending && id in t.cells && t.cells[id].state.DraftAdd?
    && Overlay(changes, t.cells[id].row).id == id
    && DRAFT_ID_KEY in changes && changes[DRAFT_ID_KEY].AsNumber() != id
  }

  /** What the backend sends has IDs below the draft region and pages in ascending order; a draft edit does not
      hang and does not forge a draft ID; no row is draft added when the table is reset. */
  ghost predicate Admissible(t: Table, op: Op) {
    match op
    case EditOp(id, changes) => !EditHangs(t, id, changes) && !Forges(t, id, changes)
    case ResetOp => NoDraftAdd(t)
    case ReplyOp(rows, _, _) => FromBackend(rows)
    case RowReplyOp(_, rows, _) => FromBackend(rows)
    case JournalDeleteOp(id) => id < BASE_DRAFT_ID
    case JournalModifyOp(id, _) => id < BASE_DRAFT_ID
    case JournalAddOp(id, _) => id < BASE_DRAFT_ID
    case _ => true
  }

  ghost predicate FromBackend(rows: seq<Row>) {
    Ascending(rows) && forall k :: 0 <= k < |rows| ==> rows[k].id < BASE_DRAFT_ID
  }

  ghost function Run(t: Table, ops: seq<Op>): Table {
    if ops == [] then t else Step(Run(t, ops[..|ops| - 1]), ops[|ops| - 1])
  }

  ghost predicate AdmissibleRun(t: Table, ops: seq<Op>) {
    ops == [] ||
    (AdmissibleRun(t, ops[..|ops| - 1]) && Admissible(Run(t, ops[..|ops| - 1]), ops[|ops| - 1]))
  }

  const EMPTY_TABLE := Table(map[], map[], [], false, map[], [], [], [], [])

  // ---------------------------------------------------------------- the invariant

  /** Draft and pending states never mix, and every edited row has a backup. */
  ghost predicate Phase(t: Table) {
    if t.pending then
      forall id :: id in t.cells ==>
        !IsDraft(t.cells[id].state) && (IsPending(t.cells[id].state) ==> id in t.backups)
    else
      && (forall id :: id in t.cells ==>
            !IsPending(t.cells[id].state) && (IsDraft(t.cells[id].state) <==> id in t.backups))
      && t.backups.Keys <= t.cells.Keys
  }

  /** A backup holds a state the row had before any edit, or says that the row is a local add. */
  ghost predicate SavedStates(t: Table) {
    forall id :: id in t.backups ==>
      && (IsUnedited(t.backups[id].state) || t.backups[id].state.DraftAdd?)
      && (t.backups[id].state.DraftAdd? <==> BASE_DRAFT_ID <= id)
      && (BASE_DRAFT_ID <= id ==> id in t.cells)
  }

  function DraftIds(adds: seq<Fields>): (ids: seq<nat>)
    ensures |ids| == |adds|
  {
    seq(|adds|, k requires 0 <= k < |adds| => DraftIdOf(adds[k]))
  }

  lemma {:induction false} FirstDraftId(adds: seq<Fields>)
    ensures adds == [] || DraftIdOf(adds[0]) in DraftIds(adds)
  {
    assert adds == [] || DraftIds(adds)[0] == DraftIdOf(adds[0]);
  }

  /** The IDs at or above the bound are the locally added rows, recorded in ID order. */
  ghost predicate DraftRegion(t: Table) {
    && (forall id :: id in t.cells ==> (BASE_DRAFT_ID <= id <==> IsLocalAdd(t.cells[id].state)))
    && (forall k :: 0 <= k < |t.adds| ==> DRAFT_ID_KEY in t.adds[k])
    && StrictlyAscending(DraftIds(t.adds))
    && (forall id :: id in DraftIds(t.adds) <==> id in t.cells && BASE_DRAFT_ID <= id)
  }

  ghost predicate Inv(t: Table) {
    Keyed(t.cells) && Keyed(t.backups) && Phase(t) && SavedStates(t) && DraftRegion(t)
  }

  // ---------------------------------------------------------------- each step keeps it

  /** Writing one cell without moving it across the bound leaves the draft region in order. */
  lemma {:induction false} RegionAfterWrite(t: Table, id: nat, cell: Cell, r: Table)
    requires DraftRegion(t) && r.cells == t.cells[id := cell]
    requires DraftIds(r.adds) == DraftIds(t.adds)
    requires forall k :: 0 <= k < |r.adds| ==> DRAFT_ID_KEY in r.adds[k]
    requires (IsLocalAdd(cell.state) <==> BASE_DRAFT_ID <= id) && (BASE_DRAFT_ID <= id ==> id in t.cells)
    ensures DraftRegion(r)
  {
  }

  /** A draft edit writes one cell, keeping its ID; it saves a backup exactly when the row becomes a draft. */
  ghost predicate EditShape(t: Table, id: nat, r: Table)
    requires id in t.cells
  {
    var was := t.cells[id];
    && id in r.cells && r.cells == t.cells[id := r.cells[id]] && r.cells[id].row.id == id
    && (r.cells[id].state == was.state || (r.cells[id].state.DraftEdit? && !was.state.DraftAdd?))
    && r.backups == (if id in t.backups || r.cells[id].state == was.state then t.backups else t.backups[id := was])
    && r.pending == t.pending
  }

  lemma {:induction false} EditShapeKeepsInv(t: Table, id: nat, r: Table)
    requires Inv(t) && !t.pending && id in t.cells && EditShape(t, id, r)
    requires DraftIds(r.adds) == DraftIds(t.adds)
    requires forall k :: 0 <= k < |r.adds| ==> DRAFT_ID_KEY in r.adds[k]
    ensures Inv(r)
  {
    RegionAfterWrite(t, id, r.cells[id], r);
  }

  lemma {:induction false} DraftEditKeepsInv(t: Table, id: nat, changes: Fields)
    requires Inv(t) && !Forges(t, id, changes)
    ensures Inv(DraftEditRow(t, id, changes))
  {
    hide FindAdd, EditHangs;
    var r := DraftEditRow(t, id, changes);
    if !t.pending && id in t.cells && !t.cells[id].state.DraftDelete? {
      if r.adds != t.adds {
        EditedRecordsKeepIds(t.adds, FindAdd(t.adds, id), changes);
      }
      EditShapeKeepsInv(t, id, r);
    }
  }

  /** Forging a draft ID is what breaks the bookkeeping: the row is no longer recorded under its ID. */
  lemma {:induction false} ForgedEditBreaksInv(t: Table, id: nat, changes: Fields)
    requires Inv(t) && Forges(t, id, changes)
    ensures !Inv(DraftEditRow(t, id, changes))
  {
    var r, k := DraftEditRow(t, id, changes), FindAdd(t.adds, id);
    var ids := DraftIds(t.adds);
    assert id in ids;
    assert k < |ids| && ids[k] == id by {
      var i :| 0 <= i < |ids| && ids[i] == id;
      assert DraftIdOf(t.adds[i]) == id;
    }
    assert DraftIds(r.adds) == ids[k := changes[DRAFT_ID_KEY].AsNumber()];
    assert id in r.cells;
    assert id !in DraftIds(r.adds);
  }

  /** A draft edit keeps the invariant exactly when it forges no draft ID. */
  lemma {:induction false} EditKeepsInvIff(t: Table, id: nat, changes: Fields)
    requires Inv(t)
    ensures Inv(DraftEditRow(t, id, changes)) <==> !Forges(t, id, changes)
  {
    if Forges(t, id, changes) {
      ForgedEditBreaksInv(t, id, changes);
    } else {
      DraftEditKeepsInv(t, id, changes);
    }
  }

  lemma {:induction false} EditedRecordsKeepIds(adds: seq<Fields>, k: nat, changes: Fields)
    requires k <= |adds|
    requires k < |adds| && DRAFT_ID_KEY in changes ==> changes[DRAFT_ID_KEY].AsNumber() == DraftIdOf(adds[k])
    ensures var edited := if k < |adds| then adds[k := adds[k] + changes] else adds;
            DraftIds(edited) == DraftIds(adds) &&
            forall i :: 0 <= i < |adds| && DRAFT_ID_KEY in adds[i] ==> DRAFT_ID_KEY in edited[i]
  {
  }

  lemma {:induction false} DraftAddKeepsInv(t: Table, fields: Fields)
    requires Inv(t)
    ensures Inv(DraftAddRow(t, fields))
  {
    var r := DraftAddRow(t, fields);
    if r != t {
      var id := NextDraftId(t.cells.Keys);
      assert id !in t.cells;
      var ids := DraftIds(t.adds);
      assert DraftIds(r.adds) == ids + [id];
      forall k | 0 <= k < |ids| ensures ids[k] < id {
        assert ids[k] in ids;
        assert ids[k] in t.cells.Keys;
      }
    }
  }

  /** An ascending list loses exactly the one entry that is removed. */
  lemma {:induction false} AscendingRemoval(ids: seq<nat>, k: nat)
    requires StrictlyAscending(ids) && k < |ids|
    ensures StrictlyAscending(ids[..k] + ids[k + 1..])
    ensures forall id :: id in ids[..k] + ids[k + 1..] <==> id in ids && id != ids[k]
  {
    var r := ids[..k] + ids[k + 1..];
    forall id | id in ids && id != ids[k] ensures id in r {
      var i :| 0 <= i < |ids| && ids[i] == id;
      assert r[if i < k then i else i - 1] == id;
    }
  }

  /** Once the record and the row of a local add are both gone, the draft region is in order again. */
  lemma {:induction false} RegionAfterRemoval(t: Table, k: nat, r: Table)
    requires DraftRegion(t) && k < |t.adds|
    requires r.adds == t.adds[..k] + t.adds[k + 1..]
    requires r.cells == t.cells - {DraftIdOf(t.adds[k])}
    ensures DraftRegion(r)
  {
    var ids := DraftIds(t.adds);
    DraftIdsRemoved(t.adds, k);
    AscendingRemoval(ids, k);
    forall id ensures id in DraftIds(r.adds) <==> id in r.cells && BASE_DRAFT_ID <= id {
      assert id in DraftIds(r.adds) <==> id in ids && id != ids[k];
    }
  }

  lemma {:induction false} DraftIdsRemoved(adds: seq<Fields>, k: nat)
    requires k < |adds|
    ensures DraftIds(adds[..k] + adds[k + 1..]) == DraftIds(adds)[..k] + DraftIds(adds)[k + 1..]
  {
  }

  lemma {:induction false} WithoutDraftIsRemoval(adds: seq<Fields>, k: nat)
    requires k < |adds| && StrictlyAscending(DraftIds(adds))
    ensures WithoutDraft(adds, DraftIdOf(adds[k])) == adds[..k] + adds[k + 1..]
  {
    var ids, rest := DraftIds(adds), adds[1..];
    assert DraftIds(rest) == ids[1..];
    if k == 0 {
      forall i | 0 <= i < |rest| ensures DraftIdOf(rest[i]) != ids[0] {
        assert DraftIdOf(rest[i]) == ids[i + 1];
      }
      WithoutDraftKeepsAll(rest, ids[0]);
      assert adds[..k] + adds[k + 1..] == rest;
    } else {
      assert ids[0] < ids[k];
      WithoutDraftIsRemoval(rest, k - 1);
      assert [adds[0]] + (rest[..k - 1] + rest[k..]) == adds[..k] + adds[k + 1..];
    }
  }

  lemma {:induction false} WithoutDraftKeepsAll(adds: seq<Fields>, id: nat)
    requires forall i :: 0 <= i < |adds| ==> DraftIdOf(adds[i]) != id
    ensures WithoutDraft(adds, id) == adds
  {
    if adds != [] {
      WithoutDraftKeepsAll(adds[1..], id);
    }
  }

  /** Dropping the backup of a row that is no longer edited, even when it is the last backup. */
  lemma {:induction false} PhaseAfterDrop(t: Table, id: nat)
    requires id in t.cells ==> IsUnedited(t.cells[id].state)
    requires t.pending ==> forall k :: k in t.cells ==>
      !IsDraft(t.cells[k].state) && (IsPending(t.cells[k].state) ==> k in t.backups)
    requires !t.pending ==> forall k :: k in t.cells && k != id ==>
      !IsPending(t.cells[k].state) && (IsDraft(t.cells[k].state) <==> k in t.backups)
    requires !t.pending ==> t.backups.Keys - {id} <= t.cells.Keys
    ensures Phase(DropBackup(t, id))
  {
    var r := DropBackup(t, id);
    if t.pending && !r.pending {
      forall k | k in t.cells ensures !IsPending(t.cells[k].state) {
        assert k in t.backups && k != id ==> k in r.backups;
      }
    }
  }

  lemma {:induction false} DraftDeleteKeepsInv(t: Table, id: nat)
    requires Inv(t)
    ensures Inv(DraftDeleteRow(t, id))
  {
    if !t.pending && id in t.cells && t.cells[id].state.DraftAdd? {
      var k :| 0 <= k < |t.adds| && DraftIds(t.adds)[k] == id;
      WithoutDraftIsRemoval(t.adds, k);
      RegionAfterRemoval(t, k, DraftDeleteRow(t, id));
    }
  }

  lemma {:induction false} MarkPendingKeepsInv(t: Table)
    requires Inv(t)
    ensures Inv(MarkEditsPending(t))
  {
    PendingPhase(t, MarkEditsPending(t));
  }

  lemma {:induction false} PendingPhase(t: Table, r: Table)
    requires Phase(t) && r.cells == Advanced(t.cells, t.backups.Keys) && r.backups == t.backups
    requires r.pending == (t.pending || t.backups != map[])
    ensures Phase(r)
  {
    if t.backups == map[] {
      assert forall id :: id !in t.backups;
    }
  }

  lemma {:induction false} JournalDeleteKeepsInv(t: Table, id: nat)
    requires Inv(t) && id < BASE_DRAFT_ID
    ensures Inv(DeleteRow(t, id))
  {
    if id in t.cells && (t.cells[id].state.PendingDelete? || IsDraft(t.cells[id].state)) {
      PhaseAfterDrop(t.(cells := t.cells - {id}), id);
    }
  }

  lemma {:induction false} RefreshTimesFrame(t: Table, id: nat, now: int, times: nat)
    ensures var r := RefreshTimes(t, id, now, times);
            r == t.(loading := r.loading, sent := r.sent)
  {
    if times != 0 {
      RefreshTimesFrame(t, id, now, times - 1);
    }
  }

  lemma {:induction false} RefreshAllFrame(t: Table, ids: seq<nat>, now: int)
    ensures var r := RefreshAll(t, ids, now);
            r == t.(loading := r.loading, sent := r.sent)
  {
    if ids != [] {
      RefreshAllFrame(t, ids[..|ids| - 1], now);
    }
  }

  /** A stale mark before its refreshes are sent. */
  function Staled(t: Table, id: nat): Table {
    var marked :=
      if id !in t.cells then t
      else if IsDraft(t.cells[id].state) then
        var row := if id in t.backups then t.backups[id].row else t.cells[id].row;
        DropBackup(Emit(t, Invalidated(id)), id).(cells := t.cells[id := Cell(row, Stale)])
      else t.(cells := t.cells[id := Cell(t.cells[id].row, Stale)]);
    marked.(told := t.told + [{id}])
  }

  lemma {:induction false} MarkStaleIs(t: Table, id: nat, now: int)
    ensures var r := MarkStale(t, id, now);
      var body := if id in t.cells && IsPendingOverlay(t.cells[id].state) then t else Staled(t, id);
      r == body.(loading := r.loading, sent := r.sent)
  {
    RefreshTimesFrame(Staled(t, id), id, now, |t.shown|);
  }

  lemma {:induction false} MarkStaleKeepsInv(t: Table, id: nat, now: int)
    requires Inv(t) && id < BASE_DRAFT_ID
    ensures Inv(MarkStale(t, id, now))
  {
    MarkStaleIs(t, id, now);
    var body := if id in t.cells && IsPendingOverlay(t.cells[id].state) then t else Staled(t, id);
    StaledKeepsInv(t, id);
    InvFrame(body, MarkStale(t, id, now));
  }

  lemma {:induction false} StaledKeepsInv(t: Table, id: nat)
    requires Inv(t) && id < BASE_DRAFT_ID
    ensures (id in t.cells && IsPendingOverlay(t.cells[id].state)) || Inv(Staled(t, id))
  {
    if id in t.cells && IsDraft(t.cells[id].state) {
      StaledDraftKeepsInv(t, id);
    } else if id in t.cells && !IsPendingOverlay(t.cells[id].state) {
      RegionAfterWrite(t, id, Staled(t, id).cells[id], Staled(t, id));
    }
  }

  lemma {:induction false} StaledDraftKeepsInv(t: Table, id: nat)
    requires Inv(t) && id < BASE_DRAFT_ID && id in t.cells && IsDraft(t.cells[id].state)
    ensures Inv(Staled(t, id))
  {
    var r := Staled(t, id);
    RegionAfterWrite(t, id, r.cells[id], r);
    PhaseAfterDrop(t.(cells := r.cells), id);
  }

  lemma {:induction false} CheckPendingKeepsInv(t: Table, row: Row)
    requires Inv(t) && row.id in t.cells && row.id < BASE_DRAFT_ID
    ensures Inv(CheckPendingInsertion(t, row))
  {
    var k := FindMatch(t.adds, row);
    if t.pending && k < |t.adds| {
      var id := DraftIds(t.adds)[k];
      assert id in DraftIds(t.adds);
      RegionAfterRemoval(t, k, CheckPendingInsertion(t, row));
      PhaseAfterDrop(t.(cells := t.cells - {id}), id);
    }
  }

  lemma {:induction false} ApplyRowKeepsInv(t: Table, row: Row)
    requires Inv(t) && row.id < BASE_DRAFT_ID
    ensures Inv(ApplyRow(t, row))
  {
    var t1 := t.(cells := t.cells[row.id := Cell(row, Loaded)]);
    RegionAfterWrite(t, row.id, Cell(row, Loaded), t1);
    if row.id !in t.cells || t.cells[row.id].state.Loading? {
      assert Phase(t1);
      CheckPendingKeepsInv(t1, row);
    } else if !IsUnedited(t.cells[row.id].state) {
      OverwriteKeepsInv(t, row, t1);
    }
  }

  lemma {:induction false} OverwriteKeepsInv(t: Table, row: Row, t1: Table)
    requires Inv(t) && row.id < BASE_DRAFT_ID && row.id in t.cells && !IsUnedited(t.cells[row.id].state)
    requires t1 == t.(cells := t.cells[row.id := Cell(row, Loaded)]) && DraftRegion(t1)
    ensures Inv(CheckOverwrittenEdit(t1, t.cells[row.id], row))
  {
    PhaseAfterDrop(t1, row.id);
    RegionAfterWrite(t, row.id, Cell(row, Loaded), CheckOverwrittenEdit(t1, t.cells[row.id], row));
  }

  lemma {:induction false} ApplyRowsKeepsInv(t: Table, rows: seq<Row>)
    requires Inv(t) && forall k :: 0 <= k < |rows| ==> rows[k].id < BASE_DRAFT_ID
    ensures Inv(ApplyRows(t, rows))
  {
    if rows != [] {
      ApplyRowsKeepsInv(t, rows[..|rows| - 1]);
      ApplyRowKeepsInv(ApplyRows(t, rows[..|rows| - 1]), rows[|rows| - 1]);
    }
  }

  // ---------------------------------------------------------------- merging a reply

  lemma {:induction false} RowCellsDomain(rows: seq<Row>)
    ensures RowCells(rows).Keys == IdsOf(rows)
    ensures forall id :: id in RowCells(rows) ==> RowCells(rows)[id].state.Loaded? && RowCells(rows)[id].row.id == id
    ensures Ascending(rows) ==> forall k :: 0 <= k < |rows| ==> RowCells(rows)[rows[k].id] == Cell(rows[k], Loaded)
  {
    if rows != [] {
      RowCellsDomain(rows[..|rows| - 1]);
      LastIdJoins(rows);
    }
  }

  lemma {:induction false} LastIdJoins(rows: seq<Row>)
    requires rows != []
    ensures IdsOf(rows) == IdsOf(rows[..|rows| - 1]) + {rows[|rows| - 1].id}
  {
    var n := |rows| - 1;
    assert forall k :: 0 <= k < n ==> rows[..n][k] == rows[k];
  }

  /** The shortcut that puts a reply behind the existing rows does what the general merge would do:
      it can only be taken while no local add is outstanding. */
  lemma {:induction false} AppendAgreesWithMerge(t: Table, rows: seq<Row>)
    requires Inv(t) && FromBackend(rows) && rows != [] && Appends(t, rows)
    ensures t.adds == []
    ensures t.(cells := t.cells + RowCells(rows)) == ApplyRows(t, rows)
  {
    FirstDraftId(t.adds);
    AppendPrefix(t, rows, |rows|);
    assert rows[..|rows|] == rows;
  }

  lemma {:induction false} ApplyFirstSeen(t: Table, row: Row)
    requires t.adds == [] && row.id !in t.cells
    ensures ApplyRow(t, row) == t.(cells := t.cells[row.id := Cell(row, Loaded)])
  {
  }

  lemma {:induction false} AppendedCells(cells: map<nat, Cell>, rows: seq<Row>, n: nat)
    requires Ascending(rows) && 0 < n <= |rows| && forall k :: k in cells ==> k < rows[0].id
    ensures rows[n - 1].id !in cells + RowCells(rows[..n - 1])
    ensures cells + RowCells(rows[..n])
         == (cells + RowCells(rows[..n - 1]))[rows[n - 1].id := Cell(rows[n - 1], Loaded)]
  {
    NotYetThere(rows, n - 1);
    RowCellsDomain(rows[..n - 1]);
    RowCellsStep(rows, n);
    PutLast(cells, RowCells(rows[..n - 1]), rows[n - 1].id, Cell(rows[n - 1], Loaded));
  }

  lemma {:induction false} NotYetThere(rows: seq<Row>, n: nat)
    requires Ascending(rows) && n < |rows|
    ensures rows[n].id !in IdsOf(rows[..n]) && rows[0].id <= rows[n].id
  {
    forall k | 0 <= k < n ensures rows[..n][k].id < rows[n].id {
      assert rows[..n][k] == rows[k];
    }
  }

  lemma {:induction false} PutLast(a: map<nat, Cell>, b: map<nat, Cell>, id: nat, cell: Cell)
    ensures a + b[id := cell] == (a + b)[id := cell]
  {
  }

  lemma {:induction false} RowCellsStep(rows: seq<Row>, n: nat)
    requires 0 < n <= |rows|
    ensures RowCells(rows[..n]) == RowCells(rows[..n - 1])[rows[n - 1].id := Cell(rows[n - 1], Loaded)]
  {
    assert rows[..n][..n - 1] == rows[..n - 1];
  }

  lemma {:induction false} AppendPrefix(t: Table, rows: seq<Row>, n: nat)
    requires t.adds == [] && Ascending(rows) && n <= |rows| && rows != [] && Appends(t, rows)
    ensures ApplyRows(t, rows[..n]) == t.(cells := t.cells + RowCells(rows[..n]))
  {
    if n == 0 {
      assert t.cells + map[] == t.cells;
    } else {
      AppendPrefix(t, rows, n - 1);
      AppendedCells(t.cells, rows, n);
      ApplyFirstSeen(ApplyRows(t, rows[..n - 1]), rows[n - 1]);
      ApplyRowsLast(t, rows, n);
    }
  }

  lemma {:induction false} ApplyRowsLast(t: Table, rows: seq<Row>, n: nat)
    requires 0 < n <= |rows|
    ensures ApplyRows(t, rows[..n]) == ApplyRow(ApplyRows(t, rows[..n - 1]), rows[n - 1])
  {
    assert rows[..n][..n - 1] == rows[..n - 1];
  }

  lemma {:induction false} MergeIsApply(t: Table, rows: seq<Row>)
    requires Inv(t) && FromBackend(rows)
    ensures MergeRows(t, rows) == if rows == [] then t else ShowRows(ApplyRows(t, rows), IdsOf(rows))
  {
    if rows != [] && Appends(t, rows) {
      AppendAgreesWithMerge(t, rows);
    }
  }

  lemma {:induction false} MergeKeepsInv(t: Table, rows: seq<Row>)
    requires Inv(t) && FromBackend(rows)
    ensures Inv(MergeRows(t, rows))
  {
    MergeIsApply(t, rows);
    ApplyRowsKeepsInv(t, rows);
  }

  /** No row, or only a placeholder, was there before. */
  predicate IsNew(cells: map<nat, Cell>, row: Row) {
    row.id !in cells || cells[row.id].state.Loading?
  }

  /** The rows of a reply that can be the answer to a local add. */
  function NewRows(cells: map<nat, Cell>, rows: seq<Row>): seq<Row> {
    if rows == [] then []
    else
      var n := |rows| - 1;
      NewRows(cells, rows[..n]) + if IsNew(cells, rows[n]) then [rows[n]] else []
  }

  /** Each row, in order, takes the first record that it matches. */
  function Unmatched(adds: seq<Fields>, rows: seq<Row>): seq<Fields> {
    if rows == [] then adds
    else
      var left := Unmatched(adds, rows[..|rows| - 1]);
      var k := FindMatch(left, rows[|rows| - 1]);
      if k < |left| then left[..k] + left[k + 1..] else left
  }

  /** The local adds a reply leaves outstanding. */
  function Outstanding(t: Table, rows: seq<Row>): seq<Fields> {
    if t.pending then Unmatched(t.adds, NewRows(t.cells, rows)) else t.adds
  }

  /** The rows of a table without the local adds that are not in the list. */
  function Keeping(cells: map<nat, Cell>, adds: seq<Fields>): map<nat, Cell> {
    map id | id in cells && (id < BASE_DRAFT_ID || id in DraftIds(adds)) :: cells[id]
  }

  lemma {:induction false} MergeOne(t: Table, row: Row)
    requires Inv(t) && row.id < BASE_DRAFT_ID
    ensures var r, k := ApplyRow(t, row), FindMatch(t.adds, row);
      && (r.pending ==> t.pending)
      && if t.pending && IsNew(t.cells, row) && k < |t.adds| then
           && r.adds == t.adds[..k] + t.adds[k + 1..]
           && r.cells == (t.cells - {DraftIdOf(t.adds[k])})[row.id := Cell(row, Loaded)]
           && r.backups == t.backups - {DraftIdOf(t.adds[k])}
         else
           && r.adds == t.adds
           && r.cells == t.cells[row.id := Cell(row, Loaded)]
           && r.backups ==
                if row.id in t.cells && IsOverlaid(t.cells[row.id].state) then t.backups - {row.id} else t.backups
  {
    if IsNew(t.cells, row) {
      MergeNew(t, row);
    } else {
      MergeKnown(t, row);
    }
  }

  lemma {:induction false} MergeNew(t: Table, row: Row)
    requires Inv(t) && row.id < BASE_DRAFT_ID && IsNew(t.cells, row)
    ensures var r, k := ApplyRow(t, row), FindMatch(t.adds, row);
      && (r.pending ==> t.pending)
      && if t.pending && k < |t.adds| then
           && r.adds == t.adds[..k] + t.adds[k + 1..]
           && r.cells == (t.cells - {DraftIdOf(t.adds[k])})[row.id := Cell(row, Loaded)]
           && r.backups == t.backups - {DraftIdOf(t.adds[k])}
         else
           r.adds == t.adds && r.cells == t.cells[row.id := Cell(row, Loaded)] && r.backups == t.backups
  {
    hide CheckOverwrittenEdit, Matches;
    var k := FindMatch(t.adds, row);
    if k < |t.adds| {
      assert DraftIds(t.adds)[k] in DraftIds(t.adds);
    }
  }

  lemma {:induction false} MergeKnown(t: Table, row: Row)
    requires Inv(t) && row.id < BASE_DRAFT_ID && !IsNew(t.cells, row)
    ensures var r := ApplyRow(t, row);
      && (r.pending ==> t.pending) && r.adds == t.adds && r.cells == t.cells[row.id := Cell(row, Loaded)]
      && r.backups == if IsOverlaid(t.cells[row.id].state) then t.backups - {row.id} else t.backups
  {
    hide CheckPendingInsertion, FindAdd, FieldsOf;
  }

  /** A reply leaves the old rows, overridden by its own rows as Loaded, minus one draft row for each
      record that one of its rows matched. */
  lemma {:induction false} ReplyMerge(t: Table, rows: seq<Row>)
    requires Inv(t) && FromBackend(rows)
    ensures var r := ApplyRows(t, rows);
      && r.adds == Outstanding(t, rows)
      && r.cells == Keeping(t.cells, r.adds) + RowCells(rows)
      && (r.pending ==> t.pending)
  {
    if rows == [] {
      assert Keeping(t.cells, t.adds) == t.cells;
    } else {
      var n := |rows| - 1;
      var row, s := rows[n], ApplyRows(t, rows[..n]);
      ReplyMerge(t, rows[..n]);
      ApplyRowsKeepsInv(t, rows[..n]);
      RowCellsDomain(rows[..n]);
      assert row.id !in IdsOf(rows[..n]);
      assert row.id in s.cells <==> row.id in t.cells;
      assert row.id in t.cells ==> s.cells[row.id] == t.cells[row.id];
      MergeOne(s, row);
      MergeStep(t, rows, s, ApplyRow(s, row));
    }
  }

  lemma {:induction false} NewRowsStep(cells: map<nat, Cell>, rows: seq<Row>, adds: seq<Fields>)
    requires rows != []
    ensures var n := |rows| - 1;
      var left := Unmatched(adds, NewRows(cells, rows[..n]));
      var k := FindMatch(left, rows[n]);
      Unmatched(adds, NewRows(cells, rows)) ==
        if IsNew(cells, rows[n]) && k < |left| then left[..k] + left[k + 1..] else left
  {
    var n := |rows| - 1;
    var before, now := NewRows(cells, rows[..n]), NewRows(cells, rows);
    if IsNew(cells, rows[n]) {
      assert now[..|now| - 1] == before;
    } else {
      assert now == before;
    }
  }

  lemma {:induction false} KeepingStep(t: Table, s: Table, k: nat, row: Row, loaded: map<nat, Cell>, adds: seq<Fields>)
    requires DraftRegion(s) && k < |s.adds| && adds == s.adds[..k] + s.adds[k + 1..]
    requires row.id < BASE_DRAFT_ID && forall id :: id in loaded ==> id < BASE_DRAFT_ID
    requires s.cells == Keeping(t.cells, s.adds) + loaded
    ensures (s.cells - {DraftIdOf(s.adds[k])})[row.id := Cell(row, Loaded)]
         == Keeping(t.cells, adds) + loaded[row.id := Cell(row, Loaded)]
  {
    var ids := DraftIds(s.adds);
    DraftIdsRemoved(s.adds, k);
    AscendingRemoval(ids, k);
    assert ids[k] in ids;
  }

  lemma {:induction false} KeepingAnother(t: Table, cells: map<nat, Cell>, adds: seq<Fields>, row: Row,
          loaded: map<nat, Cell>)
    requires cells == Keeping(t.cells, adds) + loaded
    ensures cells[row.id := Cell(row, Loaded)] == Keeping(t.cells, adds) + loaded[row.id := Cell(row, Loaded)]
  {
  }

  /** A table whose edits settled entirely while a reply came in has no local add left. */
  lemma {:induction false} SettledHasNoAdds(t: Table, s: Table, loaded: map<nat, Cell>)
    requires Inv(t) && Inv(s) && t.pending && !s.pending
    requires forall id :: id in loaded ==> id < BASE_DRAFT_ID
    requires s.cells == Keeping(t.cells, s.adds) + loaded
    ensures s.adds == []
  {
    FirstDraftId(s.adds);
  }

  /** The induction step of `ReplyMerge`, from what merging the last row does. */
  lemma {:induction false} MergeStep(t: Table, rows: seq<Row>, s: Table, r: Table)
    requires Inv(t) && Inv(s) && FromBackend(rows) && rows != []
    requires var n := |rows| - 1;
      && s.adds == Outstanding(t, rows[..n]) && s.cells == Keeping(t.cells, s.adds) + RowCells(rows[..n])
      && (s.pending ==> t.pending) && (IsNew(s.cells, rows[n]) <==> IsNew(t.cells, rows[n]))
    requires var row, k := rows[|rows| - 1], FindMatch(s.adds, rows[|rows| - 1]);
      if s.pending && IsNew(s.cells, row) && k < |s.adds| then
        && r.adds == s.adds[..k] + s.adds[k + 1..]
        && r.cells == (s.cells - {DraftIdOf(s.adds[k])})[row.id := Cell(row, Loaded)]
      else
        r.adds == s.adds && r.cells == s.cells[row.id := Cell(row, Loaded)]
    ensures r.adds == Outstanding(t, rows)
    ensures r.cells == Keeping(t.cells, r.adds) + RowCells(rows)
  {
    var n := |rows| - 1;
    var row, k, loaded := rows[n], FindMatch(s.adds, rows[n]), RowCells(rows[..n]);
    RowCellsDomain(rows[..n]);
    NewRowsStep(t.cells, rows, t.adds);
    if t.pending && !s.pending {
      SettledHasNoAdds(t, s, loaded);
    }
    KeepingAnother(t, s.cells, s.adds, row, loaded);
    if s.pending && IsNew(s.cells, row) && k < |s.adds| {
      KeepingStep(t, s, k, row, loaded, r.adds);
    }
  }

  // ---------------------------------------------------------------- every step, every run

  /** The invariant speaks of rows, backups, local adds and the flag only. */
  lemma {:induction false} InvFrame(t: Table, r: Table)
    requires Inv(t) && r == t.(loading := r.loading, shown := r.shown, told := r.told, log := r.log, sent := r.sent)
    ensures Inv(r)
  {
  }

  lemma {:induction false} ReplyKeepsInv(t: Table, rows: seq<Row>, next: Option<nat>, count: nat)
    requires Inv(t) && FromBackend(rows)
    ensures Inv(ProcessRowsResponse(t, rows, next, count))
  {
    var t1 := if Continues(rows, next, count) then t.(sent := t.sent + [NextPage(rows, next, count)]) else t;
    InvFrame(t, t1);
    MergeKeepsInv(t1, rows);
  }

  lemma {:induction false} JournalAddKeepsInv(t: Table, id: nat, now: int)
    requires Inv(t) && id < BASE_DRAFT_ID
    ensures Inv(GetNew(t, id, now))
  {
    var r := GetNew(t, id, now);
    if id in t.cells {
      InvFrame(t, r);
    } else {
      RegionAfterWrite(t, id, r.cells[id], r);
    }
  }

  lemma {:induction false} AttachKeepsInv(t: Table, now: int)
    requires Inv(t)
    ensures Inv(AttachModel(t, now))
  {
    RefreshAllFrame(if t.shown == [] then FullRefresh(t) else t, AscendingIds(StaleRows(t)), now);
    InvFrame(t, AttachModel(t, now));
  }

  // ---------------------------------------------------------------- reset

  /** Without draft added rows a reset is defined, restores the rows, and leaves no backup and no local add. */
  lemma {:induction false} ResetIs(t: Table)
    requires Inv(t) && NoDraftAdd(t)
    ensures ResetEdits(t).Some? && ResetsTo(t, ResetEdits(t).value)
  {
    BackupsAreVisitable(t);
    RestoreEach(t, AscendingCells(t.backups), t.backups);
    ResetOf(t, RestoreFrom(t, AscendingCells(t.backups)).value);
  }

  lemma {:induction false} BackupsAreVisitable(t: Table)
    requires Inv(t) && NoDraftAdd(t)
    ensures Visitable(t.cells, AscendingCells(t.backups), t.backups) &&
      CellIds(AscendingCells(t.backups)) == t.backups.Keys
  {
    AscendingCellsIs(t.backups);
  }

  lemma {:induction false} ResetKeepsInv(t: Table)
    requires Inv(t) && NoDraftAdd(t)
    ensures ResetEdits(t).Some? && Inv(ResetEdits(t).value)
  {
    ResetIs(t);
    AllRestored(t);
    UneditedKeepsInv(ResetEdits(t).value);
  }

  /** Every row that is left has its state from before any edit, and an ID of the backend's. */
  lemma {:induction false} AllRestored(t: Table)
    requires Inv(t) && NoDraftAdd(t)
    ensures var cells := Restored(t.cells, t.backups, t.backups.Keys);
      Keyed(cells) && forall id :: id in cells ==> IsUnedited(cells[id].state) && id < BASE_DRAFT_ID
  {
  }

  lemma {:induction false} UneditedKeepsInv(r: Table)
    requires Keyed(r.cells) && forall id :: id in r.cells ==> IsUnedited(r.cells[id].state) && id < BASE_DRAFT_ID
    requires r.backups == map[] && r.adds == []
    ensures Inv(r)
  {
    assert DraftIds(r.adds) == [];
  }

  lemma {:induction false} StepKeepsInv(t: Table, op: Op)
    requires Inv(t) && Admissible(t, op)
    ensures Inv(Step(t, op))
  {
    match op
    case EditOp(id, changes) => DraftEditKeepsInv(t, id, changes);
    case AddOp(fields) => DraftAddKeepsInv(t, fields);
    case DeleteOp(id) => DraftDeleteKeepsInv(t, id);
    case PendOp => MarkPendingKeepsInv(t);
    case ResetOp => ResetKeepsInv(t);
    case ReplyOp(rows, next, count) => ReplyKeepsInv(t, rows, next, count);
    case RowReplyOp(id, rows, next) =>
      InvFrame(t, t.(loading := t.loading - {id}));
      ReplyKeepsInv(t.(loading := t.loading - {id}), rows, next, 1);
    case JournalDeleteOp(id) => JournalDeleteKeepsInv(t, id);
    case JournalModifyOp(id, now) => MarkStaleKeepsInv(t, id, now);
    case JournalAddOp(id, now) => JournalAddKeepsInv(t, id, now);
    case FullRefreshOp => InvFrame(t, FullRefresh(t));
    case AttachOp(now) => AttachKeepsInv(t, now);
  }

  /** Every reachable state has one phase, a backup for every edit, and its local adds above the bound. */
  lemma {:induction false} RunKeepsInv(t: Table, ops: seq<Op>)
    requires Inv(t) && AdmissibleRun(t, ops)
    ensures Inv(Run(t, ops))
  {
    if ops != [] {
      RunKeepsInv(t, ops[..|ops| - 1]);
      StepKeepsInv(Run(t, ops[..|ops| - 1]), ops[|ops| - 1]);
    }
  }
}
