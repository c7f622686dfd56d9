/** What visiting the backups makes of the rows, the backups and the models, when no row is draft added. */
module Restoration {
  import opened TableTypes
  import opened TableSpec

  ghost predicate Keyed(cells: map<nat, Cell>) {
    forall id :: id in cells ==> cells[id].row.id == id
  }

  ghost predicate NoDraftAdd(t: Table) {
    forall id :: id in t.cells ==> !t.cells[id].state.DraftAdd?
  }

  function CellIds(todo: seq<Cell>): set<nat> {
    set k | 0 <= k < |todo| :: todo[k].row.id
  }

  ghost predicate AscendingTodo(todo: seq<Cell>) {
    forall i, j :: 0 <= i < j < |todo| ==> todo[i].row.id < todo[j].row.id
  }

  lemma {:induction false} CellIdsTail(todo: seq<Cell>)
    requires todo != []
    ensures CellIds(todo) == {todo[0].row.id} + CellIds(todo[1..])
    ensures AscendingTodo(todo) ==> AscendingTodo(todo[1..]) && todo[0].row.id !in CellIds(todo[1..])
  {
    assert forall k :: 1 <= k < |todo| ==> todo[k] == todo[1..][k - 1];
  }

  lemma {:induction false} AscendingCellsIs(cells: map<nat, Cell>)
    requires Keyed(cells)
    ensures var todo := AscendingCells(cells);
      && AscendingTodo(todo) && CellIds(todo) == cells.Keys
      && forall k :: 0 <= k < |todo| ==> todo[k].row.id in cells && todo[k] == cells[todo[k].row.id]
  {
    var todo, ids := AscendingCells(cells), AscendingIds(cells.Keys);
    assert forall k :: 0 <= k < |todo| ==> ids[k] in ids && todo[k] == cells[ids[k]] && todo[k].row.id == ids[k];
    CellIdsAre(todo, ids, cells.Keys);
  }

  lemma {:induction false} CellIdsAre(todo: seq<Cell>, ids: seq<nat>, keys: set<nat>)
    requires |todo| == |ids| && forall k :: 0 <= k < |todo| ==> todo[k].row.id == ids[k]
    requires forall id :: id in ids <==> id in keys
    ensures CellIds(todo) == keys
  {
    forall id | id in keys ensures id in CellIds(todo) {
      var k :| 0 <= k < |ids| && ids[k] == id;
      assert todo[k].row.id == id;
    }
  }

  /** What the restoration makes of the rows: each one on its own, by its backup. */
  function Restored(cells: map<nat, Cell>, backups: map<nat, Cell>, ids: set<nat>): map<nat, Cell>
    requires ids <= backups.Keys
  {
    map id | id in cells && !(id in ids && cells[id].state.PendingAdd?) ::
      if id in ids then RestoredCell(cells[id], backups[id]) else cells[id]
  }

  /** The local adds among the visited rows, which are taken out. */
  function TakenOut(cells: map<nat, Cell>, ids: set<nat>): set<nat> {
    set id | id in ids && id in cells && cells[id].state.PendingAdd?
  }

  /** The visited backups without a row to restore. */
  function Unrestored(cells: map<nat, Cell>, ids: set<nat>): set<nat> {
    set id | id in ids && (id !in cells || cells[id].state.PendingAdd?)
  }

  ghost predicate Hides(before: seq<set<nat>>, after: seq<set<nat>>, ids: set<nat>) {
    |after| == |before| && forall i :: 0 <= i < |before| ==> after[i] == before[i] - ids
  }

  /** Only rows, backups and models differ: the rows are restored, the local adds gone, from the models too, and
      so are the backups that had no row to restore. */
  ghost predicate RestoresTo(t: Table, r: Table, backups: map<nat, Cell>, ids: set<nat>)
    requires ids <= backups.Keys
  {
    && r == t.(cells := r.cells, backups := r.backups, shown := r.shown)
    && r.cells == Restored(t.cells, backups, ids)
    && r.backups == t.backups - Unrestored(t.cells, ids)
    && Hides(t.shown, r.shown, TakenOut(t.cells, ids))
  }

  /** One visit. */
  function Visit(t: Table, bak: Cell): Table {
    var id := bak.row.id;
    if id !in t.cells then t.(backups := t.backups - {id})
    else if t.cells[id].state.PendingAdd? then
      var d := DeleteRow(t, id);
      d.(backups := d.backups - {id})
    else t.(cells := t.cells[id := RestoredCell(t.cells[id], bak)])
  }

  function VisitedCells(cells: map<nat, Cell>, bak: Cell): map<nat, Cell> {
    if bak.row.id !in cells then cells
    else if cells[bak.row.id].state.PendingAdd? then cells - {bak.row.id}
    else cells[bak.row.id := RestoredCell(cells[bak.row.id], bak)]
  }

  lemma {:induction false} VisitedCellsAre(t: Table, bak: Cell)
    ensures Visit(t, bak).cells == VisitedCells(t.cells, bak)
  {
  }

  /** The backups to visit are in order, and none of them makes its row a draft add. */
  ghost predicate Visitable(cells: map<nat, Cell>, todo: seq<Cell>, backups: map<nat, Cell>) {
    && AscendingTodo(todo) && CellIds(todo) <= backups.Keys
    && (forall id :: id in cells ==> !cells[id].state.DraftAdd?)
    && (forall k :: 0 <= k < |todo| ==> todo[k].row.id in backups && todo[k] == backups[todo[k].row.id])
    && forall id :: id in CellIds(todo) && id in cells ==> IsUnedited(backups[id].state) || cells[id].state.PendingAdd?
  }

  lemma {:induction false} VisitNext(cells: map<nat, Cell>, todo: seq<Cell>, backups: map<nat, Cell>)
    requires Visitable(cells, todo, backups) && todo != []
    ensures Visitable(VisitedCells(cells, todo[0]), todo[1..], backups)
    ensures todo[0].row.id in backups && todo[0] == backups[todo[0].row.id]
  {
    CellIdsTail(todo);
    assert forall k :: 1 <= k < |todo| ==> todo[k] == todo[1..][k - 1];
    assert todo[0].row.id in CellIds(todo);
  }

  lemma {:induction false} RestoreEach(t: Table, todo: seq<Cell>, backups: map<nat, Cell>)
    requires Visitable(t.cells, todo, backups)
    ensures RestoreFrom(t, todo).Some? && RestoresTo(t, RestoreFrom(t, todo).value, backups, CellIds(todo))
    decreases |todo|
  {
    if todo == [] {
      assert CellIds(todo) == {};
      assert Restored(t.cells, backups, {}) == t.cells;
    } else {
      CellIdsTail(todo);
      VisitNext(t.cells, todo, backups);
      VisitedCellsAre(t, todo[0]);
      RestoreEach(Visit(t, todo[0]), todo[1..], backups);
      VisitIsNext(t, todo);
      VisitRestores(t, todo, backups, RestoreFrom(t, todo).value);
    }
  }

  lemma {:induction false} VisitIsNext(t: Table, todo: seq<Cell>)
    requires todo != [] && (todo[0].row.id in t.cells ==> !t.cells[todo[0].row.id].state.DraftAdd?)
    ensures RestoreFrom(t, todo) == RestoreFrom(Visit(t, todo[0]), todo[1..])
  {
  }

  lemma {:induction false} VisitRestores(t: Table, todo: seq<Cell>, backups: map<nat, Cell>, r: Table)
    requires todo != [] && CellIds(todo) <= backups.Keys && todo[0] == backups[todo[0].row.id]
    requires CellIds(todo) == {todo[0].row.id} + CellIds(todo[1..]) && todo[0].row.id !in CellIds(todo[1..])
    requires RestoresTo(Visit(t, todo[0]), r, backups, CellIds(todo[1..]))
    ensures RestoresTo(t, r, backups, CellIds(todo))
  {
    var id, rest, u := todo[0].row.id, CellIds(todo[1..]), Visit(t, todo[0]);
    VisitedCellsAre(t, todo[0]);
    VisitedRow(t.cells, backups, id, rest);
    VisitedBackup(t, u, todo[0], rest);
    VisitedModels(t, u, r.shown, todo[0], rest);
  }

  lemma {:induction false} VisitedRow(cells: map<nat, Cell>, backups: map<nat, Cell>, id: nat, rest: set<nat>)
    requires id in backups && backups[id].row.id == id && rest <= backups.Keys && id !in rest
    ensures Restored(VisitedCells(cells, backups[id]), backups, rest) == Restored(cells, backups, {id} + rest)
  {
  }

  lemma {:induction false} VisitedBackup(t: Table, u: Table, bak: Cell, rest: set<nat>)
    requires u == Visit(t, bak) && bak.row.id !in rest
    ensures u.backups - Unrestored(u.cells, rest) == t.backups - Unrestored(t.cells, {bak.row.id} + rest)
  {
    var id := bak.row.id;
    var dropped := if id !in t.cells || t.cells[id].state.PendingAdd? then {id} else {};
    assert u.backups == t.backups - dropped;
    assert Unrestored(t.cells, {id} + rest) == Unrestored(u.cells, rest) + dropped;
  }

  lemma {:induction false} VisitedModels(t: Table, u: Table, shown: seq<set<nat>>, bak: Cell, rest: set<nat>)
    requires u == Visit(t, bak) && bak.row.id !in rest && Hides(u.shown, shown, TakenOut(u.cells, rest))
    ensures Hides(t.shown, shown, TakenOut(t.cells, {bak.row.id} + rest))
  {
    var id := bak.row.id;
    var gone := if id in t.cells && t.cells[id].state.PendingAdd? then {id} else {};
    assert Hides(t.shown, u.shown, gone);
    assert TakenOut(t.cells, {id} + rest) == TakenOut(u.cells, rest) + gone;
  }

  /** Rows restored by their backups; no backup and no local add left; each model without the local adds, and with
      every restored row. */
  ghost predicate ResetsTo(t: Table, r: Table) {
    var ids := t.backups.Keys;
    && r == t.(cells := r.cells, backups := map[], adds := [], shown := r.shown, told := r.told)
    && r.told == t.told + [ids - Unrestored(t.cells, ids)]
    && r.cells == Restored(t.cells, t.backups, ids)
    && |r.shown| == |t.shown|
    && forall i :: 0 <= i < |t.shown| ==>
         r.shown[i] == t.shown[i] - TakenOut(t.cells, ids) + (ids - Unrestored(t.cells, ids))
  }

  lemma {:induction false} ResetOf(t: Table, r: Table)
    requires RestoreFrom(t, AscendingCells(t.backups)) == Some(r) && RestoresTo(t, r, t.backups, t.backups.Keys)
    ensures ResetEdits(t).Some? && ResetsTo(t, ResetEdits(t).value)
  {
    var ids := t.backups.Keys;
    KeysLeft(t.backups, Unrestored(t.cells, ids));
    assert ResetEdits(t).value == ShowRows(r, r.backups.Keys).(backups := map[], adds := []);
  }

  lemma {:induction false} KeysLeft(backups: map<nat, Cell>, gone: set<nat>)
    ensures (backups - gone).Keys == backups.Keys - gone
  {
  }

  /** What resetting needs: no draft added row, no row that was edited before it was deleted, and no backup left
      over from an earlier row with the same ID whose state differs. */
  ghost predicate Restorable(t: Table) {
    && NoDraftAdd(t)
    && (forall id :: id in t.cells && id in t.backups ==>
          && (t.cells[id].state.DraftDelete? || t.cells[id].state.PendingDelete? ==>
            t.cells[id].row == t.backups[id].row)
          && (IsUnedited(t.cells[id].state) ==> t.cells[id].state == t.backups[id].state))
  }
}
