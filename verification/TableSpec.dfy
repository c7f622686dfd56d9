/** What each operation of a table does to its contents, over maps instead of parallel lists. */
module TableSpec {
  import opened TableTypes

  /** `shown` holds, for each list model, the set of row IDs it displays; `told` the sets of row IDs that all models
      were told to update so far; `log` and `sent` are the signals emitted and the requests sent so far. */
  datatype Table = Table(
    cells: map<nat, Cell>,
    backups: map<nat, Cell>,
    adds: seq<Fields>,
    pending: bool,
    loading: map<nat, int>,
    shown: seq<set<nat>>,
    told: seq<set<nat>>,
    log: seq<Event>,
    sent: seq<Request>)

  // ---------------------------------------------------------------- backups, models, requests

  function DropBackup(t: Table, id: nat): Table {
    var left := t.backups - {id};
    t.(backups := left, pending := left != map[] && t.pending)
  }

  function SaveBackup(t: Table, cell: Cell): Table {
    if cell.row.id in t.backups then t
    else t.(backups := t.backups[cell.row.id := cell], log := t.log + [Saved(cell.row.id)])
  }

  function ShowRows(t: Table, ids: set<nat>): Table {
    t.(shown := seq(|t.shown|, i requires 0 <= i < |t.shown| => t.shown[i] + ids), told := t.told + [ids])
  }

  function HideRow(t: Table, id: nat): Table {
    t.(shown := seq(|t.shown|, i requires 0 <= i < |t.shown| => t.shown[i] - {id}))
  }

  function Emit(t: Table, e: Event): Table {
    t.(log := t.log + [e])
  }

  predicate RowIsLoading(t: Table, id: nat, now: int) {
    id in t.loading && now - t.loading[id] < MAX_LOADING_SECONDS
  }

  /** A request that was never answered is repeated, but keeps its old time. */
  function Refresh(t: Table, id: nat, now: int): Table {
    if RowIsLoading(t, id, now) then t
    else t.(loading := if id in t.loading then t.loading else t.loading[id := now], sent := t.sent + [LoadRow(id)])
  }

  function RefreshTimes(t: Table, id: nat, now: int, times: nat): Table {
    if times == 0 then t else Refresh(RefreshTimes(t, id, now, times - 1), id, now)
  }

  function FullRefresh(t: Table): Table {
    t.(sent := t.sent + [Page(0, 0)])
  }

  // ---------------------------------------------------------------- draft edits

  /** The key loop never gets past a changed key that the record of the added row does not have. */
  predicate EditHangs(t: Table, id: nat, changes: Fields) {
    && !t.pending && id in t.cells && t.cells[id].state.DraftAdd?
    && Overlay(changes, t.cells[id].row).id == id
    && var k := FindAdd(t.adds, id);
       k < |t.adds| && !(changes.Keys <= t.adds[k].Keys)
  }

  /** Position of the first locally added row with this draft ID; the length if there is none. */
  function FindAdd(adds: seq<Fields>, id: nat): (k: nat)
    ensures k <= |adds|
    ensures k < |adds| ==> DraftIdOf(adds[k]) == id
    ensures forall i :: 0 <= i < k ==> DraftIdOf(adds[i]) != id
  {
    if adds == [] then 0
    else if DraftIdOf(adds[0]) == id then 0
    else
      var k := 1 + FindAdd(adds[1..], id);
      assert forall i :: 1 <= i < k ==> adds[i] == adds[1..][i - 1];
      k
  }

  /** A refused change of ID has already moved the row's fields out. */
  function DraftEditRow(t: Table, id: nat, changes: Fields): Table {
    if t.pending || id !in t.cells || t.cells[id].state.DraftDelete? then t
    else
      var was := t.cells[id];
      var scratch := Overlay(changes, was.row);
      if scratch.id != was.row.id then t.(cells := t.cells[id := Cell(Hollow(was.row), was.state)])
      else if was.state.DraftAdd? then
        var k := FindAdd(t.adds, id);
        var adds := if k < |t.adds| then t.adds[k := t.adds[k] + changes] else t.adds;
        ShowRows(t.(adds := adds, cells := t.cells[id := Cell(scratch, DraftAdd)]), {id})
      else
        var saved := if was.state.DraftEdit? then t else SaveBackup(t, was);
        ShowRows(saved.(cells := t.cells[id := Cell(scratch, DraftEdit)]), {id})
  }

  /** The next draft ID: past every row of the table, and in the draft region. */
  ghost predicate IsNextDraftId(keys: set<nat>, next: nat) {
    && BASE_DRAFT_ID <= next
    && (forall k :: k in keys ==> k < next)
    && (next == BASE_DRAFT_ID || next - 1 in keys)
  }

  lemma NextDraftIdExists(keys: set<nat>)
    ensures exists next: nat :: IsNextDraftId(keys, next)
  {
    if keys == {} {
      assert IsNextDraftId(keys, BASE_DRAFT_ID);
    } else {
      var k :| k in keys;
      NextDraftIdExists(keys - {k});
      var n: nat :| IsNextDraftId(keys - {k}, n);
      assert forall j :: j in keys ==> j == k || j in keys - {k};
      assert IsNextDraftId(keys, if n <= k then k + 1 else n);
    }
  }

  ghost function NextDraftId(keys: set<nat>): (next: nat)
    ensures IsNextDraftId(keys, next)
  {
    NextDraftIdExists(keys);
    var next: nat :| IsNextDraftId(keys, next);
    next
  }

  ghost function DraftAddRow(t: Table, fields: Fields): Table {
    if t.pending || Overlay(fields, DEFAULT_ROW).id != 0 then t
    else
      var id := NextDraftId(t.cells.Keys);
      var row := Overlay(fields, DEFAULT_ROW).(id := id);
      var added := t.(cells := t.cells[id := Cell(row, DraftAdd)],
                      adds := t.adds + [fields[DRAFT_ID_KEY := Number(id)]]);
      ShowRows(SaveBackup(added, Cell(row, DraftAdd)), {id})
  }

  function WithoutDraft(adds: seq<Fields>, id: nat): seq<Fields> {
    if adds == [] then []
    else (if DraftIdOf(adds[0]) == id then [] else [adds[0]]) + WithoutDraft(adds[1..], id)
  }

  function DraftDeleteRow(t: Table, id: nat): Table {
    if t.pending || id !in t.cells then t
    else
      var was := t.cells[id];
      if was.state.DraftAdd? then
        DropBackup(DeleteRow(t.(adds := WithoutDraft(t.adds, id)), id), id)
      else
        var saved := SaveBackup(t, was);
        ShowRows(saved.(cells := t.cells[id := Cell(was.row, DraftDelete)]), {id})
  }

  function ToPending(s: LoadState): LoadState {
    match s
    case DraftEdit => PendingEdit
    case DraftAdd => PendingAdd
    case DraftDelete => PendingDelete
    case _ => s
  }

  function Advanced(cells: map<nat, Cell>, ids: set<nat>): map<nat, Cell> {
    map id | id in cells :: if id in ids then Cell(cells[id].row, ToPending(cells[id].state)) else cells[id]
  }

  function MarkEditsPending(t: Table): Table {
    ShowRows(t.(cells := Advanced(t.cells, t.backups.Keys), pending := t.pending || t.backups != map[]),
      t.backups.Keys * t.cells.Keys)
  }

  // ---------------------------------------------------------------- journal entries

  /** Removes a row, ending the edit it was under. */
  function TakeOut(t: Table, id: nat): Table {
    if id !in t.cells then t
    else
      var was := t.cells[id];
      var t1 := t.(cells := t.cells - {id});
      if was.state.PendingDelete? then DropBackup(Emit(t1, Settled(id, FieldsOf(was.row), None)), id)
      else if IsDraft(was.state) then DropBackup(Emit(t1, Invalidated(id)), id)
      else t1
  }

  function DeleteRow(t: Table, id: nat): Table {
    HideRow(TakeOut(t, id), id)
  }

  /** A pending edit is refreshed without going stale; a draft is replaced by its backup. */
  function MarkStale(t: Table, id: nat, now: int): Table {
    if id in t.cells && IsPendingOverlay(t.cells[id].state) then Refresh(t, id, now)
    else
      var t1 :=
        if id !in t.cells then t
        else if IsDraft(t.cells[id].state) then
          var row := if id in t.backups then t.backups[id].row else t.cells[id].row;
          DropBackup(Emit(t, Invalidated(id)), id).(cells := t.cells[id := Cell(row, Stale)])
        else t.(cells := t.cells[id := Cell(t.cells[id].row, Stale)]);
      RefreshTimes(t1.(told := t.told + [{id}]), id, now, |t.shown|)
  }

  function GetNew(t: Table, id: nat, now: int): Table {
    var t1 := Refresh(t, id, now);
    if id in t.cells then t1
    else t1.(cells := t.cells[id := Cell(DEFAULT_ROW.(id := id), Loading)])
  }

  // ---------------------------------------------------------------- replies

  /** Position of the first locally added row that the new row matches; the length if there is none. */
  function FindMatch(adds: seq<Fields>, row: Row): (k: nat)
    ensures k <= |adds|
    ensures k < |adds| ==> Matches(adds[k], row)
    ensures forall i :: 0 <= i < k ==> !Matches(adds[i], row)
  {
    if adds == [] then 0
    else if Matches(adds[0], row) then 0
    else
      var k := 1 + FindMatch(adds[1..], row);
      assert forall i :: 1 <= i < k ==> adds[i] == adds[1..][i - 1];
      k
  }

  function CheckPendingInsertion(t: Table, row: Row): Table {
    var k := FindMatch(t.adds, row);
    if !t.pending || k == |t.adds| then t
    else
      var match_ := t.adds[k];
      var id := DraftIdOf(match_);
      var t1 := t.(adds := t.adds[..k] + t.adds[k + 1..]);
      var t2 := if id != row.id then DeleteRow(t1, id) else t1;
      DropBackup(Emit(t2, Settled(id, match_ - {DRAFT_ID_KEY}, Some(row))), id)
  }

  function CheckOverwrittenEdit(t: Table, was: Cell, row: Row): Table {
    var id := was.row.id;
    match was.state
    case Loaded => t
    case Stale => t
    case DraftAdd =>
      var k := FindAdd(t.adds, id);
      var adds := if k < |t.adds| then t.adds[..k] + t.adds[k + 1..] else t.adds;
      DropBackup(Emit(t, Invalidated(id)).(adds := adds), id)
    case DraftEdit => DropBackup(Emit(t, Invalidated(id)), id)
    case PendingEdit => DropBackup(Emit(t, Settled(id, FieldsOf(was.row), Some(row))), id)
    case DraftDelete => DropBackup(Emit(t, Invalidated(id)), id)
    case PendingDelete => DropBackup(Emit(t, Invalidated(id)), id)
    case Loading => DropBackup(t, id)
    case PendingAdd => DropBackup(t, id)
  }

  function ApplyRow(t: Table, row: Row): Table {
    var t1 := t.(cells := t.cells[row.id := Cell(row, Loaded)]);
    if row.id !in t.cells then CheckPendingInsertion(t1, row)
    else
      var was := t.cells[row.id];
      if was.state.PendingAdd? || was.state.Loading? then CheckPendingInsertion(t1, row)
      else CheckOverwrittenEdit(t1, was, row)
  }

  function ApplyRows(t: Table, rows: seq<Row>): Table {
    if rows == [] then t else ApplyRow(ApplyRows(t, rows[..|rows| - 1]), rows[|rows| - 1])
  }

  function RowCells(rows: seq<Row>): map<nat, Cell> {
    if rows == [] then map[]
    else RowCells(rows[..|rows| - 1])[rows[|rows| - 1].id := Cell(rows[|rows| - 1], Loaded)]
  }

  function IdsOf(rows: seq<Row>): set<nat> {
    set k | 0 <= k < |rows| :: rows[k].id
  }

  predicate StrictlyAscending(ids: seq<nat>) {
    forall i, j :: 0 <= i < j < |ids| ==> ids[i] < ids[j]
  }

  predicate Ascending(rows: seq<Row>) {
    forall i, j :: 0 <= i < j < |rows| ==> rows[i].id < rows[j].id
  }

  /** Whether the reply is simply put behind the existing rows. */
  predicate Appends(t: Table, rows: seq<Row>)
    requires rows != []
  {
    forall k :: k in t.cells ==> k < rows[0].id
  }

  function MergeRows(t: Table, rows: seq<Row>): Table {
    if rows == [] then t
    else
      var merged := if Appends(t, rows) then t.(cells := t.cells + RowCells(rows)) else ApplyRows(t, rows);
      ShowRows(merged, IdsOf(rows))
  }

  /** Whether a reply that says more rows exist makes the table ask for them. */
  predicate Continues(rows: seq<Row>, next: Option<nat>, count: nat) {
    next.Some? && (count == 0 || |rows| < count)
  }

  function NextPage(rows: seq<Row>, next: Option<nat>, count: nat): Request
    requires Continues(rows, next, count)
  {
    Page(next.value, if count == 0 then 0 else count - |rows|)
  }

  function ProcessRowsResponse(t: Table, rows: seq<Row>, next: Option<nat>, count: nat): Table {
    MergeRows(if Continues(rows, next, count) then t.(sent := t.sent + [NextPage(rows, next, count)]) else t, rows)
  }

  /** The answer to a row load. */
  function RowReply(t: Table, id: nat, rows: seq<Row>, next: Option<nat>): Table {
    ProcessRowsResponse(t.(loading := t.loading - {id}), rows, next, 1)
  }

  // ---------------------------------------------------------------- models

  function StaleRows(t: Table): set<nat> {
    set id | id in t.cells && t.cells[id].state.Stale?
  }

  /** A new list model shows every row, and asks for the stale ones. */
  ghost function AttachModel(t: Table, now: int): Table {
    var t1 := if t.shown == [] then FullRefresh(t) else t;
    RefreshAll(t1, AscendingIds(StaleRows(t)), now).(shown := t.shown + [t.cells.Keys])
  }

  function RefreshAll(t: Table, ids: seq<nat>, now: int): Table {
    if ids == [] then t else Refresh(RefreshAll(t, ids[..|ids| - 1], now), ids[|ids| - 1], now)
  }

  ghost function Least(ids: set<nat>): (least: nat)
    requires ids != {}
    ensures least in ids && forall k :: k in ids ==> least <= k
  {
    var k :| k in ids;
    if ids == {k} then k
    else
      assert ids == (ids - {k}) + {k};
      var m := Least(ids - {k});
      if m < k then m else k
  }

  lemma {:induction false} FirstJoins(ids: set<nat>, first: nat, rest: seq<nat>)
    requires first in ids && forall k :: k in ids ==> first <= k
    requires forall k :: k in rest <==> k in ids && k != first
    requires forall i, j :: 0 <= i < j < |rest| ==> rest[i] < rest[j]
    ensures forall k :: k in [first] + rest <==> k in ids
    ensures forall i, j :: 0 <= i < j < |[first] + rest| ==> ([first] + rest)[i] < ([first] + rest)[j]
  {
    assert forall k :: 0 <= k < |rest| ==> rest[k] in rest;
  }

  ghost function AscendingIds(ids: set<nat>): (s: seq<nat>)
    ensures forall k :: k in s <==> k in ids
    ensures forall i, j :: 0 <= i < j < |s| ==> s[i] < s[j]
  {
    if ids == {} then []
    else
      var first := Least(ids);
      var rest := AscendingIds(ids - {first});
      FirstJoins(ids, first, rest);
      [first] + rest
  }

  // ---------------------------------------------------------------- reset

  ghost function AscendingCells(cells: map<nat, Cell>): (s: seq<Cell>)
    ensures |s| == |AscendingIds(cells.Keys)|
  {
    var ids := AscendingIds(cells.Keys);
    seq(|ids|, k requires 0 <= k < |ids| => assert ids[k] in ids; cells[ids[k]])
  }

  function RestoredCell(current: Cell, bak: Cell): Cell {
    if current.state.DraftEdit? || current.state.PendingEdit? then bak else Cell(current.row, bak.state)
  }

  /** Visits the backups that remain, in order. Deleting a draft added row has already removed its backup, so the
      second removal takes the next backup away unvisited, and is undefined when there is no next one. */
  function RestoreFrom(t: Table, todo: seq<Cell>): Option<Table>
    decreases |todo|
  {
    if todo == [] then Some(t)
    else
      var bak, id := todo[0], todo[0].row.id;
      if id !in t.cells then
        RestoreFrom(t.(backups := t.backups - {id}), todo[1..])
      else if t.cells[id].state.DraftAdd? then
        if |todo| == 1 then None
        else
          var t1 := DeleteRow(t, id);
          RestoreFrom(t1.(backups := t1.backups - {todo[1].row.id}), todo[2..])
      else if t.cells[id].state.PendingAdd? then
        var t1 := DeleteRow(t, id);
        RestoreFrom(t1.(backups := t1.backups - {id}), todo[1..])
      else
        RestoreFrom(t.(cells := t.cells[id := RestoredCell(t.cells[id], bak)]), todo[1..])
  }

  /** Nothing is known of the table if the restoration is undefined. */
  ghost function ResetEdits(t: Table): Option<Table> {
    var r := RestoreFrom(t, AscendingCells(t.backups));
    if r.None? then None
    else Some(ShowRows(r.value, r.value.backups.Keys).(backups := map[], adds := []))
  }
}
