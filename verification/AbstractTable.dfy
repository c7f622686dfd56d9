/** The table itself: sorted parallel lists that its methods change in place, each as `TableSpec` says. */
module AbstractTables {
  import opened TableTypes
  import opened TableSpec
  import opened SortedRows
  import opened Backups
  import opened TableModel
  import opened JournalEntries
  import KeyLoop
  import opened TableInvariants

  /** A successful reply; a failed request or a nonsensical response is no reply. */
  datatype Reply = Reply(rows: seq<Row>, next: Option<nat>)

  predicate RecordsAreDrafts(adds: seq<Fields>) {
    forall k :: 0 <= k < |adds| ==> DRAFT_ID_KEY in adds[k] && BASE_DRAFT_ID <= DraftIdOf(adds[k])
  }

  /** The rows below an ID are where they were. */
  ghost predicate KeepsBelow(before: seq<Row>, after: seq<Row>, id: nat) {
    forall i :: 0 <= i < |before| && before[i].id < id ==> i < |after| && after[i] == before[i]
  }

  ghost function ShownBy(models: seq<Model>): (shown: seq<set<nat>>)
    reads models
    ensures |shown| == |models|
  {
    seq(|models|, i requires 0 <= i < |models| reads models => models[i].Shows())
  }

  ghost predicate ValidModels(models: seq<Model>)
    reads models
  {
    && (forall i, j :: 0 <= i < j < |models| ==> models[i] != models[j])
    && (forall i :: 0 <= i < |models| ==> models[i].Valid())
  }

  method UpdateAll(models: seq<Model>, rows: seq<Row>)
    requires ValidModels(models) && Ascending(rows)
    modifies models
    ensures ValidModels(models)
    ensures forall i :: 0 <= i < |models| ==> ShownBy(models)[i] == old(ShownBy(models))[i] + IdsOf(rows)
    ensures forall i :: 0 <= i < |models| ==> models[i].Told(old(models[i].signals), IdsOf(rows))
  {
    hide Model.Valid, Model.Shows, Model.Told, IdsOf;
    for k := 0 to |models|
      invariant ValidModels(models)
      invariant forall i :: 0 <= i < k ==> models[i].Shows() == old(models[i].Shows()) + IdsOf(rows)
      invariant forall i :: 0 <= i < k ==> models[i].Told(old(models[i].signals), IdsOf(rows))
      invariant forall i :: k <= i < |models| ==> models[i].signals == old(models[i].signals)
      invariant forall i :: k <= i < |models| ==> models[i].Shows() == old(models[i].Shows())
    {
      models[k].UpdateRows(rows);
    }
  }

  method DeleteFromAll(models: seq<Model>, id: nat)
    requires ValidModels(models)
    modifies models
    ensures ValidModels(models)
    ensures forall i :: 0 <= i < |models| ==> ShownBy(models)[i] == old(ShownBy(models))[i] - {id}
  {
    hide Model.Valid, Model.Shows;
    for k := 0 to |models|
      invariant ValidModels(models)
      invariant forall i :: 0 <= i < k ==> models[i].Shows() == old(models[i].Shows()) - {id}
      invariant forall i :: k <= i < |models| ==> models[i].Shows() == old(models[i].Shows())
    {
      models[k].DeleteRow(id);
    }
  }

  /** The IDs of the stale rows among the first ones. */
  function StaleIds(rows: seq<Row>, states: seq<LoadState>, k: nat): seq<nat>
    requires |rows| == |states| && k <= |rows|
  {
    if k == 0 then []
    else if states[k - 1].Stale? then StaleIds(rows, states, k - 1) + [rows[k - 1].id]
    else StaleIds(rows, states, k - 1)
  }

  lemma {:induction false} OneMoreRefresh(t: Table, ids: seq<nat>, id: nat, now: int)
    ensures RefreshAll(t, ids + [id], now) == Refresh(RefreshAll(t, ids, now), id, now)
  {
    assert (ids + [id])[..|ids|] == ids;
  }

  lemma {:induction false} StaleIdsAscend(rows: seq<Row>, states: seq<LoadState>, k: nat)
    requires |rows| == |states| && Ascending(rows) && k <= |rows|
    ensures StrictlyAscending(StaleIds(rows, states, k))
    ensures forall id :: id in StaleIds(rows, states, k) <==>
      exists i :: 0 <= i < k && rows[i].id == id && states[i].Stale?
  {
    if k > 0 {
      StaleIdsAscend(rows, states, k - 1);
      var ids := StaleIds(rows, states, k - 1);
      assert forall i :: 0 <= i < |ids| ==> ids[i] in ids;
    }
  }

  lemma {:induction false} StaleIdsAre(rows: seq<Row>, states: seq<LoadState>)
    requires |rows| == |states| && Ascending(rows)
    ensures StaleIds(rows, states, |rows|) ==
      AscendingIds(set id | id in CellMap(rows, states) && CellMap(rows, states)[id].state.Stale?)
  {
    var ids, cells := StaleIds(rows, states, |rows|), CellMap(rows, states);
    StaleIdsAscend(rows, states, |rows|);
    CellMapIs(rows, states);
    forall id ensures id in ids <==> id in cells && cells[id].state.Stale? {
      if id in cells {
        var i :| 0 <= i < |rows| && rows[i].id == id;
      }
    }
    AscendingUnique(ids, AscendingIds(set id | id in cells && cells[id].state.Stale?));
  }

  lemma {:induction false} IdsOfAppended(rows: seq<Row>, row: Row)
    ensures IdsOf(rows + [row]) == IdsOf(rows) + {row.id}
  {
    OneMoreId(rows + [row], |rows|);
    assert (rows + [row])[..|rows|] == rows && (rows + [row])[..|rows| + 1] == rows + [row];
  }

  lemma {:induction false} AdvancedStep(cells: map<nat, Cell>, ids: set<nat>, id: nat)
    ensures Advanced(cells, ids + {id}) ==
      if id in cells && id !in ids then Advanced(cells, ids)[id := Cell(cells[id].row, ToPending(cells[id].state))]
      else Advanced(cells, ids)
    ensures id in cells && id !in ids ==> Advanced(cells, ids)[id] == cells[id]
  {
  }

  lemma {:induction false} IdsOfOne(row: Row)
    ensures IdsOf([row]) == {row.id}
  {
    assert [row][0] == row;
  }

  class AbstractTable {
    var rowList: seq<Row>
    var rowStates: seq<LoadState>
    var locallyAddedRows: seq<Fields>
    const backups: BackupManager
    var pendingEdits: bool
    var loadingRows: map<nat, int>
    var models: seq<Model>
    ghost var told: seq<set<nat>>
    ghost var log: seq<Event>
    ghost var sent: seq<Request>

    ghost predicate Valid()
      reads this, backups, models
    {
      && |rowList| == |rowStates| && Ascending(rowList)
      && backups.Valid()
      && ValidModels(models)
    }

    ghost function Shown(): (shown: seq<set<nat>>)
      reads this`models, models
      ensures |shown| == |models|
    {
      ShownBy(models)
    }

    ghost function Abs(): Table
      reads this, backups, models
      requires Valid()
    {
      Table(CellMap(rowList, rowStates), backups.Contents(), locallyAddedRows, pendingEdits, loadingRows, Shown(),
        told, log, sent)
    }

    constructor ()
      ensures Valid() && Abs() == Table(map[], map[], [], false, map[], [], [], [], [])
      ensures fresh(backups) && models == []
    {
      rowList, rowStates, locallyAddedRows, models := [], [], [], [];
      pendingEdits, loadingRows := false, map[];
      told, log, sent := [], [], [];
      backups := new BackupManager();
    }

    // -------------------------------------------------------------- models

    method NotifyUpdate(rows: seq<Row>)
      requires Valid() && Ascending(rows)
      modifies this`told, models
      ensures Valid() && Abs() == ShowRows(old(Abs()), IdsOf(rows))
      ensures forall i :: 0 <= i < |models| ==> models[i].Told(old(models[i].signals), IdsOf(rows))
    {
      UpdateAll(models, rows);
      told := told + [IdsOf(rows)];
    }

    method NotifyDelete(id: nat)
      requires Valid()
      modifies models
      ensures Valid() && Abs() == HideRow(old(Abs()), id)
    {
      DeleteFromAll(models, id);
    }

    /** Each model answers a stale mark by asking the table to refresh the row. */
    method NotifyStale(id: nat, now: int)
      requires Valid()
      modifies this`told, this`loadingRows, this`sent, models
      ensures Valid() && Abs() == RefreshTimes(old(Abs()).(told := old(told) + [{id}]), id, now, |models|)
      ensures forall i :: 0 <= i < |models| ==> models[i].Told(old(models[i].signals), models[i].Shows() * {id})
    {
      hide CellMap, Refresh, Model.Valid, Model.Shows, Model.Told;
      told := told + [{id}];
      for k := 0 to |models|
        invariant Valid() && Abs() == RefreshTimes(old(Abs()).(told := old(told) + [{id}]), id, now, k)
        invariant forall i :: 0 <= i < k ==> models[i].Told(old(models[i].signals), models[i].Shows() * {id})
        invariant forall i :: k <= i < |models| ==> models[i].signals == old(models[i].signals)
      {
        MarkInModel(k, id);
        RefreshRow(id, now);
      }
    }

    method MarkInModel(k: nat, id: nat)
      requires Valid() && k < |models|
      modifies models[k]
      ensures Valid() && Abs() == old(Abs())
      ensures models[k].Told(old(models[k].signals), models[k].Shows() * {id})
    {
      ghost var shown := Shown();
      models[k].MarkRowStale(id);
      assert Shown() == shown;
    }

    method AllRows(now: int) returns (model: Model)
      requires Valid()
      modifies this`loadingRows, this`sent, this`models
      ensures Valid() && fresh(model) && models == old(models) + [model]
      ensures Abs() == AttachModel(old(Abs()), now)
    {
      if models == [] {
        FullRefresh();
      }
      ghost var stale := StaleRows(Abs());
      RefreshAllFrame(Abs(), AscendingIds(stale), now);
      RefreshStale(now);
      model := AttachNew();
    }

    method AttachNew() returns (model: Model)
      requires Valid()
      modifies this`models
      ensures Valid() && fresh(model) && models == old(models) + [model]
      ensures Abs() == old(Abs()).(shown := old(Abs()).shown + [old(Abs()).cells.Keys])
    {
      ghost var t := Abs();
      model := new Model(rowList);
      CellMapDomain(rowList, rowStates);
      models := models + [model];
      assert Shown() == t.shown + [t.cells.Keys];
    }

    method RefreshStale(now: int)
      requires Valid()
      modifies this`loadingRows, this`sent
      ensures Valid()
      ensures Abs() == RefreshAll(old(Abs()), AscendingIds(StaleRows(old(Abs()))), now)
    {
      hide Refresh, CellMap;
      ghost var t := Abs();
      for k := 0 to |rowList|
        invariant Valid() && Abs() == RefreshAll(t, StaleIds(rowList, rowStates, k), now)
      {
        if rowStates[k].Stale? {
          RefreshRow(rowList[k].id, now);
          OneMoreRefresh(t, StaleIds(rowList, rowStates, k), rowList[k].id, now);
        }
      }
      StaleIdsAre(rowList, rowStates);
    }

    // -------------------------------------------------------------- requests

    method RowIsLoading(id: nat, now: int, markAsLoading: bool) returns (loading: bool)
      requires Valid()
      modifies this`loadingRows
      ensures Valid()
      ensures loading == TableSpec.RowIsLoading(old(Abs()), id, now)
      ensures loadingRows == if loading || !markAsLoading || id in old(loadingRows) then old(loadingRows)
                             else old(loadingRows)[id := now]
    {
      if id in loadingRows && now - loadingRows[id] < MAX_LOADING_SECONDS {
        return true;
      }
      if markAsLoading && id !in loadingRows {
        loadingRows := loadingRows[id := now];
      }
      loading := false;
    }

    method RefreshRow(id: nat, now: int)
      requires Valid()
      modifies this`loadingRows, this`sent
      ensures Valid() && Abs() == Refresh(old(Abs()), id, now)
    {
      var loading := RowIsLoading(id, now, true);
      if loading {
        return;
      }
      sent := sent + [LoadRow(id)];
    }

    method FullRefresh()
      requires Valid()
      modifies this`sent
      ensures Valid() && Abs() == TableSpec.FullRefresh(old(Abs()))
    {
      sent := sent + [Page(0, 0)];
    }

    // -------------------------------------------------------------- backups

    method DeleteBackupRow(id: nat) returns (backup: Option<Cell>)
      requires Valid()
      modifies this`pendingEdits, backups
      ensures Valid() && Abs() == DropBackup(old(Abs()), id)
      ensures backup == if id in old(Abs()).backups then Some(old(Abs()).backups[id]) else None
    {
      backup := backups.Remove(id);
      CellMapDomain(backups.rows, backups.states);
      if backups.IsEmpty() {
        pendingEdits := false;
      } else {
        assert backups.rows[0].id in backups.Contents().Keys;
      }
    }

    method SaveBackupRow(row: Row, state: LoadState)
      requires Valid()
      modifies this`log, backups
      ensures Valid() && Abs() == SaveBackup(old(Abs()), Cell(row, state))
    {
      ghost var saved := backups.Save(row, state);
      if saved {
        log := log + [Saved(row.id)];
      }
    }

    /** Reports the end of an edit and drops its backup. */
    method EndEdit(event: Event) returns (backup: Option<Cell>)
      requires Valid()
      modifies this`log, this`pendingEdits, backups
      ensures Valid() && Abs() == DropBackup(Emit(old(Abs()), event), event.id)
      ensures backup == if event.id in old(Abs()).backups then Some(old(Abs()).backups[event.id]) else None
    {
      log := log + [event];
      backup := DeleteBackupRow(event.id);
    }

    // -------------------------------------------------------------- rows in place

    method GetRow(id: nat) returns (cell: Option<Cell>)
      requires Valid()
      ensures cell == if id in Abs().cells then Some(Abs().cells[id]) else None
    {
      var pos := LowerBound(rowList, 0, id);
      FoundAt(rowList, rowStates, id, pos);
      cell := if pos < |rowList| && rowList[pos].id == id then Some(Cell(rowList[pos], rowStates[pos])) else None;
    }

    /** The first row that satisfies the predicate, with its load state. */
    method FindRowIf(satisfies: Row -> bool) returns (found: Option<Cell>)
      requires Valid()
      ensures found.None? ==> forall id :: id in Abs().cells ==> !satisfies(Abs().cells[id].row)
      ensures found.Some? ==>
        var id := found.value.row.id;
        && id in Abs().cells && Abs().cells[id] == found.value && satisfies(found.value.row)
        && forall k :: k in Abs().cells && k < id ==> !satisfies(Abs().cells[k].row)
    {
      CellMapIs(rowList, rowStates);
      var i := 0;
      while i < |rowList| && !satisfies(rowList[i])
        invariant i <= |rowList|
        invariant forall k :: 0 <= k < i ==> !satisfies(rowList[k])
      {
        i := i + 1;
      }
      found := if i < |rowList| then Some(Cell(rowList[i], rowStates[i])) else None;
    }

    method Insert(pos: nat, row: Row, state: LoadState)
      requires Valid() && IsLowerBound(rowList, row.id, pos) && !Holds(rowList, row.id, pos)
      modifies this`rowList, this`rowStates
      ensures Valid() && Abs() == old(Abs()).(cells := old(Abs()).cells[row.id := Cell(row, state)])
      ensures rowList == old(rowList[..pos] + [row] + rowList[pos..])
    {
      SortedRows.Inserted(rowList, rowStates, pos, row, state);
      rowList := rowList[..pos] + [row] + rowList[pos..];
      rowStates := rowStates[..pos] + [state] + rowStates[pos..];
    }

    method Overwrite(pos: nat, row: Row, state: LoadState)
      requires Valid() && Holds(rowList, row.id, pos)
      modifies this`rowList, this`rowStates
      ensures Valid() && Abs() == old(Abs()).(cells := old(Abs()).cells[row.id := Cell(row, state)])
      ensures rowList == old(rowList)[pos := row] && rowStates == old(rowStates)[pos := state]
    {
      SortedRows.Overwritten(rowList, rowStates, pos, row, state);
      rowList := rowList[pos := row];
      rowStates := rowStates[pos := state];
    }

    method Erase(pos: nat)
      requires Valid() && pos < |rowList|
      modifies this`rowList, this`rowStates
      ensures Valid() && Abs() == old(Abs()).(cells := old(Abs()).cells - {old(rowList[pos].id)})
      ensures rowList == old(rowList[..pos] + rowList[pos + 1..])
    {
      SortedRows.Removed(rowList, rowStates, pos);
      rowStates := rowStates[..pos] + rowStates[pos + 1..];
      rowList := rowList[..pos] + rowList[pos + 1..];
    }

    // -------------------------------------------------------------- journal entries

    method TakeOut(id: nat)
      requires Valid()
      modifies this`rowList, this`rowStates, this`pendingEdits, this`log, backups
      ensures Valid() && Abs() == TableSpec.TakeOut(old(Abs()), id)
      ensures KeepsBelow(old(rowList), rowList, id)
    {
      var pos := LowerBound(rowList, 0, id);
      FoundAt(rowList, rowStates, id, pos);
      if pos < |rowList| && rowList[pos].id == id {
        var row, state := rowList[pos], rowStates[pos];
        Erase(pos);
        if state.PendingDelete? {
          var _ := EndEdit(Settled(id, FieldsOf(row), None));
        } else if IsDraft(state) {
          var _ := EndEdit(Invalidated(id));
        }
      }
    }

    method DeleteRow(id: nat)
      requires Valid()
      modifies this`rowList, this`rowStates, this`pendingEdits, this`log, backups, models
      ensures Valid() && Abs() == TableSpec.DeleteRow(old(Abs()), id)
      ensures KeepsBelow(old(rowList), rowList, id)
    {
      TakeOut(id);
      NotifyDelete(id);
    }

    method MarkStale(id: nat, now: int)
      requires Valid()
      modifies this`rowList, this`rowStates, this`pendingEdits, this`told, this`log, this`loadingRows, this`sent,
        backups, models
      ensures Valid() && Abs() == TableSpec.MarkStale(old(Abs()), id, now)
    {
      hide CellMap, Model.Valid, Model.Shows;
      var pos := LowerBound(rowList, 0, id);
      FoundAt(rowList, rowStates, id, pos);
      if pos < |rowList| && rowList[pos].id == id {
        var row, state := rowList[pos], rowStates[pos];
        if IsPendingOverlay(state) {
          RefreshRow(id, now);
          return;
        }
        if IsDraft(state) {
          CellMapKeyed(backups.rows, backups.states);
          var backup := EndEdit(Invalidated(id));
          if backup.Some? {
            row := backup.value.row;
          }
        }
        Overwrite(pos, row, Stale);
      }
      NotifyStale(id, now);
    }

    method GetNew(id: nat, now: int)
      requires Valid()
      modifies this`rowList, this`rowStates, this`loadingRows, this`sent
      ensures Valid() && Abs() == TableSpec.GetNew(old(Abs()), id, now)
    {
      RefreshRow(id, now);
      var pos := LowerBound(rowList, 0, id);
      FoundAt(rowList, rowStates, id, pos);
      if pos < |rowList| && rowList[pos].id == id {
        return;
      }
      Insert(pos, DEFAULT_ROW.(id := id), Loading);
    }

    method ProcessJournal(entries: seq<JournalEntry>, now: int)
      requires Valid()
      modifies this`rowList, this`rowStates, this`pendingEdits, this`told, this`log, this`loadingRows, this`sent,
        backups, models
      ensures Valid() && Abs() == ApplyJournal(old(Abs()), entries, now)
    {
      for k := 0 to |entries|
        invariant Valid() && Abs() == ApplyJournal(old(Abs()), entries[..k], now)
      {
        assert entries[..k + 1][..k] == entries[..k];
        match entries[k].kind {
          case Delete => DeleteRow(entries[k].key);
          case Modify => MarkStale(entries[k].key, now);
          case Add => GetNew(entries[k].key, now);
          case Elsewhere =>
        }
      }
      assert entries[..|entries|] == entries;
    }

    // -------------------------------------------------------------- replies

    method FindMatchIndex(row: Row) returns (k: nat)
      requires Valid()
      ensures k == FindMatch(locallyAddedRows, row)
    {
      k := 0;
      while k < |locallyAddedRows| && !Matches(locallyAddedRows[k], row)
        invariant k <= |locallyAddedRows|
        invariant forall i :: 0 <= i < k ==> !Matches(locallyAddedRows[i], row)
      {
        k := k + 1;
      }
      assert !(k < FindMatch(locallyAddedRows, row));
    }

    method FindAddIndex(id: nat) returns (k: nat)
      requires Valid()
      ensures k == FindAdd(locallyAddedRows, id)
    {
      k := 0;
      while k < |locallyAddedRows| && DraftIdOf(locallyAddedRows[k]) != id
        invariant k <= |locallyAddedRows|
        invariant forall i :: 0 <= i < k ==> DraftIdOf(locallyAddedRows[i]) != id
      {
        k := k + 1;
      }
      assert !(k < FindAdd(locallyAddedRows, id));
    }

    method CheckPendingInsertion(newRow: Row)
      requires Valid()
      modifies this`rowList, this`rowStates, this`locallyAddedRows, this`pendingEdits, this`log, backups, models
      ensures Valid() && Abs() == TableSpec.CheckPendingInsertion(old(Abs()), newRow)
      ensures RecordsAreDrafts(old(locallyAddedRows)) ==>
        RecordsAreDrafts(locallyAddedRows) && KeepsBelow(old(rowList), rowList, BASE_DRAFT_ID)
    {
      hide CellMap, Model.Valid, Model.Shows, FindMatch, Matches, TableSpec.DeleteRow, DropBackup, Emit;
      var k := FindMatchIndex(newRow);
      if !pendingEdits || k == |locallyAddedRows| {
        return;
      }
      var match_ := locallyAddedRows[k];
      locallyAddedRows := locallyAddedRows[..k] + locallyAddedRows[k + 1..];
      SettleAdd(match_, newRow);
    }

    /** The record of an added row turned out to describe the new row. */
    method SettleAdd(match_: Fields, newRow: Row)
      requires Valid()
      modifies this`rowList, this`rowStates, this`pendingEdits, this`log, backups, models
      ensures Valid() && (BASE_DRAFT_ID <= DraftIdOf(match_) ==> KeepsBelow(old(rowList), rowList, BASE_DRAFT_ID))
      ensures var t, id := old(Abs()), DraftIdOf(match_);
        Abs() == DropBackup(Emit(if id != newRow.id then TableSpec.DeleteRow(t, id) else t,
                                 Settled(id, match_ - {DRAFT_ID_KEY}, Some(newRow))), id)
    {
      var draftId := DraftIdOf(match_);
      if draftId != newRow.id {
        DeleteRow(draftId);
      }
      var _ := EndEdit(Settled(draftId, match_ - {DRAFT_ID_KEY}, Some(newRow)));
    }

    method CheckOverwrittenEdit(oldRow: Row, oldState: LoadState, newRow: Row)
      requires Valid()
      modifies this`locallyAddedRows, this`pendingEdits, this`log, backups
      ensures Valid() && Abs() == TableSpec.CheckOverwrittenEdit(old(Abs()), Cell(oldRow, oldState), newRow)
    {
      hide CellMap, Model.Valid, Model.Shows, DropBackup, FieldsOf;
      var id := oldRow.id;
      match oldState {
        case Loaded =>
        case Stale =>
        case DraftAdd =>
          RemoveRecord(id);
          var _ := EndEdit(Invalidated(id));
        case DraftEdit => var _ := EndEdit(Invalidated(id));
        case PendingEdit => var _ := EndEdit(Settled(id, FieldsOf(oldRow), Some(newRow)));
        case DraftDelete => var _ := EndEdit(Invalidated(id));
        case PendingDelete => var _ := EndEdit(Invalidated(id));
        case Loading => var _ := DeleteBackupRow(id);
        case PendingAdd => var _ := DeleteBackupRow(id);
      }
    }

    /** Removes the first record with this draft ID. */
    method RemoveRecord(id: nat)
      requires Valid()
      modifies this`locallyAddedRows
      ensures Valid()
      ensures var adds, k := old(locallyAddedRows), FindAdd(old(locallyAddedRows), id);
              locallyAddedRows == if k < |adds| then adds[..k] + adds[k + 1..] else adds
    {
      var k := FindAddIndex(id);
      if k < |locallyAddedRows| {
        locallyAddedRows := locallyAddedRows[..k] + locallyAddedRows[k + 1..];
      }
    }

    /** Places one row of a reply at its position. */
    method PlaceRow(row: Row, pos: nat)
      requires Valid() && IsLowerBound(rowList, row.id, pos)
      modifies this`rowList, this`rowStates, this`locallyAddedRows, this`pendingEdits, this`log, backups, models
      ensures Valid() && Abs() == ApplyRow(old(Abs()), row)
      ensures row.id < BASE_DRAFT_ID && RecordsAreDrafts(old(locallyAddedRows)) ==>
        Holds(rowList, row.id, pos) && RecordsAreDrafts(locallyAddedRows)
    {
      hide CellMap, Model.Valid, Model.Shows;
      FoundAt(rowList, rowStates, row.id, pos);
      CellMapKeyed(rowList, rowStates);
      if pos < |rowList| && rowList[pos].id == row.id {
        var oldRow, oldState := rowList[pos], rowStates[pos];
        Overwrite(pos, row, Loaded);
        assert Holds(rowList, row.id, pos);
        if oldState.PendingAdd? || oldState.Loading? {
          CheckPendingInsertion(row);
        } else {
          CheckOverwrittenEdit(oldRow, oldState, row);
        }
      } else {
        Insert(pos, row, Loaded);
        assert Holds(rowList, row.id, pos);
        CheckPendingInsertion(row);
      }
    }

    method UpdateThroughout(newRows: seq<Row>, start: nat)
      requires Valid() && RecordsAreDrafts(locallyAddedRows) && FromBackend(newRows) && newRows != []
      requires IsLowerBound(rowList, newRows[0].id, start)
      modifies this`rowList, this`rowStates, this`locallyAddedRows, this`pendingEdits, this`log, backups, models
      ensures Valid() && Abs() == ApplyRows(old(Abs()), newRows)
    {
      hide ApplyRow, CellMap, Model.Valid, Model.Shows;
      var pos := start;
      for j := 0 to |newRows|
        invariant Valid() && RecordsAreDrafts(locallyAddedRows) && Abs() == ApplyRows(old(Abs()), newRows[..j])
        invariant j < |newRows| ==> IsLowerBound(rowList, newRows[j].id, pos)
      {
        ApplyRowsLast(old(Abs()), newRows, j + 1);
        PlaceRow(newRows[j], pos);
        if j + 1 < |newRows| {
          assert rowList[pos].id < newRows[j + 1].id;
          pos := LowerBound(rowList, pos, newRows[j + 1].id);
        }
      }
      assert newRows[..|newRows|] == newRows;
    }

    method AppendRows(newRows: seq<Row>)
      requires Valid() && Ascending(newRows) && newRows != []
      requires forall i :: 0 <= i < |rowList| ==> rowList[i].id < newRows[0].id
      modifies this`rowList, this`rowStates
      ensures Valid() && Abs() == old(Abs()).(cells := old(Abs()).cells + RowCells(newRows))
    {
      ghost var t := Abs();
      var loaded := seq(|newRows|, k requires 0 <= k < |newRows| => Loaded);
      Appended(rowList, rowStates, newRows, loaded);
      rowList := rowList + newRows;
      rowStates := rowStates + loaded;
    }

    method ProcessRowsResponse(reply: Option<Reply>, loadCount: nat)
      requires Valid() && RecordsAreDrafts(locallyAddedRows) && (reply.Some? ==> FromBackend(reply.value.rows))
      modifies this`told, this`rowList, this`rowStates, this`locallyAddedRows,
        this`pendingEdits, this`log, this`sent, backups,
        models
      ensures Valid()
      ensures Abs() == if reply.None? then old(Abs())
                       else TableSpec.ProcessRowsResponse(old(Abs()), reply.value.rows, reply.value.next, loadCount)
    {
      if reply.None? {
        return;
      }
      var rows, next := reply.value.rows, reply.value.next;
      if next.Some? && (loadCount == 0 || |rows| < loadCount) {
        var remaining := if loadCount == 0 then 0 else loadCount - |rows|;
        sent := sent + [Page(next.value, remaining)];
      }
      if rows == [] {
        return;
      }
      MergeReply(rows);
    }

    method MergeReply(newRows: seq<Row>)
      requires Valid() && RecordsAreDrafts(locallyAddedRows) && FromBackend(newRows) && newRows != []
      modifies this`told, this`rowList, this`rowStates, this`locallyAddedRows,
        this`pendingEdits, this`log, backups, models
      ensures Valid() && Abs() == MergeRows(old(Abs()), newRows)
    {
      var pos := LowerBound(rowList, 0, newRows[0].id);
      AppendsIff(rowList, rowStates, newRows, pos);
      if pos == |rowList| {
        AppendRows(newRows);
      } else {
        UpdateThroughout(newRows, pos);
      }
      NotifyUpdate(newRows);
    }

    lemma AppendsIff(rows: seq<Row>, states: seq<LoadState>, newRows: seq<Row>, pos: nat)
      requires Valid() && rows == rowList && states == rowStates && newRows != []
      requires IsLowerBound(rowList, newRows[0].id, pos)
      ensures pos == |rowList| <==> Appends(Abs(), newRows)
    {
      CellMapDomain(rowList, rowStates);
      if pos < |rowList| {
        assert rowList[pos].id in IdsOf(rowList);
      }
    }

    /** The answer to a row load. */
    method RowReply(id: nat, reply: Option<Reply>)
      requires Valid() && RecordsAreDrafts(locallyAddedRows) && (reply.Some? ==> FromBackend(reply.value.rows))
      modifies this`told, this`rowList, this`rowStates, this`locallyAddedRows,
        this`pendingEdits, this`log, this`loadingRows,
        this`sent, backups, models
      ensures Valid()
      ensures Abs() == if reply.None? then old(Abs()).(loading := old(Abs()).loading - {id})
                       else TableSpec.RowReply(old(Abs()), id, reply.value.rows, reply.value.next)
    {
      loadingRows := loadingRows - {id};
      ProcessRowsResponse(reply, 1);
    }

    // -------------------------------------------------------------- draft edits

    /** Copies the changes into the record of the added row; `hung` stands for never returning. */
    method UpdateRecord(record: Fields, changes: Fields) returns (updated: Fields, hung: bool)
      ensures hung <==> !(changes.Keys <= record.Keys)
      ensures !hung ==> updated == record + changes
    {
      var keys := KeysOf(changes);
      ghost var s := KeyLoop.LoopState(keys, record);
      ghost var n := 0;
      updated, hung := record, false;
      KeyLoop.LoopEnds(s, changes);
      while keys != []
        invariant forall k :: 0 <= k < |keys| ==> keys[k] in changes
        invariant KeyLoop.LoopState(keys, updated) == KeyLoop.Passes(s, changes, n)
        invariant n + |keys| == |s.keys| && updated.Keys == record.Keys
      {
        if keys[0] !in updated {
          // The list of keys stays as it is, on this pass and on every later one.
          return updated, true;
        }
        updated := updated[keys[0] := changes[keys[0]]];
        keys := keys[1..];
        n := n + 1;
      }
      assert KeyLoop.Passes(s, changes, n).keys == [];
    }

    method KeysOf(changes: Fields) returns (keys: seq<string>)
      ensures KeyLoop.Lists(keys, changes)
    {
      keys := [];
      var left := changes.Keys;
      while left != {}
        invariant left <= changes.Keys
        invariant forall key :: key in keys <==> key in changes.Keys - left
      {
        var key :| key in left;
        keys := keys + [key];
        left := left - {key};
      }
    }

    /** `hung` stands for never returning; nothing is then known of the table. */
    method DraftEditRow(id: nat, changes: Fields) returns (hung: bool)
      requires Valid()
      modifies this`told, this`rowList, this`rowStates, this`locallyAddedRows, this`log, backups, models
      ensures hung <==> EditHangs(old(Abs()), id, changes)
      ensures !hung ==> Valid() && Abs() == TableSpec.DraftEditRow(old(Abs()), id, changes)
    {
      hide CellMap, Model.Valid, Model.Shows;
      hung := false;
      if pendingEdits {
        return;
      }
      var pos := LowerBound(rowList, 0, id);
      FoundAt(rowList, rowStates, id, pos);
      if pos == |rowList| || rowList[pos].id != id || rowStates[pos].DraftDelete? {
        return;
      }
      var oldRow, state := rowList[pos], rowStates[pos];
      var scratchRow := Overlay(changes, oldRow);
      if scratchRow.id != oldRow.id {
        // The fields were moved out of the list before the check.
        Overwrite(pos, Hollow(oldRow), state);
        return;
      }
      if state.DraftAdd? {
        hung := EditRecord(id, changes);
        if !hung {
          Store(pos, scratchRow, DraftAdd);
        }
      } else {
        StoreEdit(pos, scratchRow);
      }
    }

    method StoreEdit(pos: nat, row: Row)
      requires Valid() && Holds(rowList, row.id, pos) && row.id in Abs().cells
      requires Abs().cells[row.id] == Cell(rowList[pos], rowStates[pos])
      modifies this`told, this`rowList, this`rowStates, this`log, backups, models
      ensures Valid()
      ensures var t, was := old(Abs()), old(Abs()).cells[row.id];
        Abs() == ShowRows((if was.state.DraftEdit? then t else SaveBackup(t, was)).(
                            cells := t.cells[row.id := Cell(row, DraftEdit)]), {row.id})
    {
      if !rowStates[pos].DraftEdit? {
        SaveBackupRow(rowList[pos], rowStates[pos]);
      }
      Store(pos, row, DraftEdit);
    }

    /** Writes a row of the list and tells the models. */
    method Store(pos: nat, row: Row, state: LoadState)
      requires Valid() && Holds(rowList, row.id, pos)
      modifies this`told, this`rowList, this`rowStates, models
      ensures Valid()
      ensures Abs() == ShowRows(old(Abs()).(cells := old(Abs()).cells[row.id := Cell(row, state)]), {row.id})
    {
      Overwrite(pos, row, state);
      IdsOfOne(row);
      NotifyUpdate([row]);
    }

    method EditRecord(id: nat, changes: Fields) returns (hung: bool)
      requires Valid()
      modifies this`locallyAddedRows
      ensures var k := FindAdd(old(locallyAddedRows), id);
        if k < |old(locallyAddedRows)| then
          && (hung <==> !(changes.Keys <= old(locallyAddedRows)[k].Keys))
          && (!hung ==> locallyAddedRows == old(locallyAddedRows)[k := old(locallyAddedRows)[k] + changes])
        else !hung && locallyAddedRows == old(locallyAddedRows)
      ensures Valid()
    {
      hung := false;
      var k := FindAddIndex(id);
      if k < |locallyAddedRows| {
        var record;
        record, hung := UpdateRecord(locallyAddedRows[k], changes);
        if !hung {
          locallyAddedRows := locallyAddedRows[k := record];
        }
      }
    }

    method DraftAddRow(fields: Fields)
      requires Valid()
      modifies this`told, this`rowList, this`rowStates, this`locallyAddedRows, this`log, backups, models
      ensures Valid() && Abs() == TableSpec.DraftAddRow(old(Abs()), fields)
    {
      if pendingEdits {
        return;
      }
      var newRow := Overlay(fields, DEFAULT_ROW);
      if newRow.id != 0 {
        return;
      }
      var id := if rowList == [] || rowList[|rowList| - 1].id < BASE_DRAFT_ID then BASE_DRAFT_ID
                else rowList[|rowList| - 1].id + 1;
      NextIdIs(id);
      InsertDraft(newRow.(id := id), fields[DRAFT_ID_KEY := Number(id)]);
    }

    method InsertDraft(row: Row, record: Fields)
      requires Valid()
      requires forall k :: 0 <= k < |rowList| ==> rowList[k].id < row.id
      modifies this`told, this`rowList, this`rowStates, this`locallyAddedRows, this`log, backups, models
      ensures Valid()
      ensures var t := old(Abs());
        Abs() == ShowRows(SaveBackup(t.(cells := t.cells[row.id := Cell(row, DraftAdd)], adds := t.adds + [record]),
                                     Cell(row, DraftAdd)), {row.id})
    {
      InsertAdded(row, record);
      SaveBackupRow(row, DraftAdd);
      IdsOfOne(row);
      NotifyUpdate([row]);
    }

    method InsertAdded(row: Row, record: Fields)
      requires Valid()
      requires forall k :: 0 <= k < |rowList| ==> rowList[k].id < row.id
      modifies this`rowList, this`rowStates, this`locallyAddedRows
      ensures Valid()
      ensures var t := old(Abs());
        Abs() == t.(cells := t.cells[row.id := Cell(row, DraftAdd)], adds := t.adds + [record])
    {
      var pos := LowerBound(rowList, 0, row.id);
      Insert(pos, row, DraftAdd);
      locallyAddedRows := locallyAddedRows + [record];
    }

    /** The ID assigned to an added row is past every row, and unused. */
    lemma NextIdIs(id: nat)
      requires Valid()
      requires id == if rowList == [] || rowList[|rowList| - 1].id < BASE_DRAFT_ID then BASE_DRAFT_ID
                     else rowList[|rowList| - 1].id + 1
      ensures id == NextDraftId(Abs().cells.Keys)
      ensures forall k :: 0 <= k < |rowList| ==> rowList[k].id < id
    {
      CellMapDomain(rowList, rowStates);
      var keys, next := Abs().cells.Keys, NextDraftId(Abs().cells.Keys);
      if rowList != [] {
        var last := rowList[|rowList| - 1].id;
        assert last in IdsOf(rowList);
        assert forall k :: 0 <= k < |rowList| ==> rowList[k].id <= last;
      }
    }

    method DraftDeleteRow(id: nat)
      requires Valid()
      modifies this`told, this`rowList, this`rowStates, this`locallyAddedRows,
        this`pendingEdits, this`log, backups, models
      ensures Valid() && Abs() == TableSpec.DraftDeleteRow(old(Abs()), id)
    {
      if pendingEdits {
        return;
      }
      var pos := LowerBound(rowList, 0, id);
      FoundAt(rowList, rowStates, id, pos);
      if pos == |rowList| || rowList[pos].id != id {
        return;
      }
      var row, state := rowList[pos], rowStates[pos];
      if state.DraftAdd? {
        RemoveRecords(id);
        DeleteRow(id);
        var _ := DeleteBackupRow(id);
        return;
      }
      SaveBackupRow(row, state);
      Store(pos, row, DraftDelete);
    }

    method RemoveRecords(id: nat)
      requires Valid()
      modifies this`locallyAddedRows
      ensures Valid() && locallyAddedRows == WithoutDraft(old(locallyAddedRows), id)
    {
      var kept := [];
      for k := 0 to |locallyAddedRows|
        invariant kept + WithoutDraft(locallyAddedRows[k..], id) == WithoutDraft(locallyAddedRows, id)
      {
        assert locallyAddedRows[k..][1..] == locallyAddedRows[k + 1..];
        if DraftIdOf(locallyAddedRows[k]) != id {
          kept := kept + [locallyAddedRows[k]];
        }
      }
      locallyAddedRows := kept;
    }

    // -------------------------------------------------------------- pending and reset

    method MarkEditsPending()
      requires Valid()
      modifies this`told, this`rowStates, this`pendingEdits, models
      ensures Valid() && Abs() == TableSpec.MarkEditsPending(old(Abs()))
    {
      hide CellMap, Model.Valid, Model.Shows;
      var updates := AdvanceDrafts();
      NotifyUpdate(updates);
      CellMapDomain(backups.rows, backups.states);
      if !backups.IsEmpty() {
        assert backups.rows[0].id in backups.Contents().Keys;
        pendingEdits := true;
      }
    }

    /** Moves the rows that have a backup to their pending states, and returns them in order. */
    method AdvanceDrafts() returns (updates: seq<Row>)
      requires Valid()
      modifies this`rowStates
      ensures Valid() && Ascending(updates)
      ensures var t := old(Abs());
        && Abs() == t.(cells := Advanced(t.cells, t.backups.Keys))
        && IdsOf(updates) == t.backups.Keys * t.cells.Keys
    {
      hide CellMap, Model.Valid, Model.Shows;
      ghost var t := Abs();
      updates := [];
      for k := 0 to |backups.rows|
        invariant Valid() && Abs() == t.(cells := Advanced(t.cells, IdsOf(backups.rows[..k])))
        invariant Ascending(updates) && IdsOf(updates) == IdsOf(backups.rows[..k]) * t.cells.Keys
        invariant k < |backups.rows| ==> forall i :: 0 <= i < |updates| ==> updates[i].id < backups.rows[k].id
      {
        OneMoreId(backups.rows, k);
        AdvancedStep(t.cells, IdsOf(backups.rows[..k]), backups.rows[k].id);
        assert backups.rows[k].id !in IdsOf(backups.rows[..k]);
        var row := AdvanceOne(backups.rows[k].id);
        if row.Some? {
          IdsOfAppended(updates, row.value);
          updates := updates + [row.value];
        }
      }
      CellMapDomain(backups.rows, backups.states);
      assert backups.rows[..|backups.rows|] == backups.rows;
    }

    method AdvanceOne(id: nat) returns (row: Option<Row>)
      requires Valid()
      modifies this`rowStates
      ensures Valid()
      ensures var cells := old(Abs()).cells;
        if id in cells then
          && row.Some? && row.value.id == id
          && Abs() == old(Abs()).(cells := cells[id := Cell(cells[id].row, ToPending(cells[id].state))])
        else row.None? && Abs() == old(Abs())
    {
      var pos := LowerBound(rowList, 0, id);
      FoundAt(rowList, rowStates, id, pos);
      if pos < |rowList| && rowList[pos].id == id {
        SortedRows.Overwritten(rowList, rowStates, pos, rowList[pos], ToPending(rowStates[pos]));
        assert rowList[pos := rowList[pos]] == rowList;
        row := Some(rowList[pos]);
        rowStates := rowStates[pos := ToPending(rowStates[pos])];
      } else {
        row := None;
      }
    }

    /** `defined` tells whether the restoration stayed within the list of backups; if not, nothing is known
        of the table. */
    method ResetEdits() returns (defined: bool)
      requires Valid()
      modifies this`told, this`rowList, this`rowStates, this`locallyAddedRows,
        this`pendingEdits, this`log, backups, models
      ensures defined <==> TableSpec.ResetEdits(old(Abs())).Some?
      ensures defined ==> Valid() && Abs() == TableSpec.ResetEdits(old(Abs())).value
    {
      defined := RestoreBackups();
      if !defined {
        return;
      }
      CellMapDomain(backups.rows, backups.states);
      NotifyUpdate(backups.rows);
      ClearEdits();
    }

    method ClearEdits()
      requires Valid()
      modifies this`locallyAddedRows, backups
      ensures Valid() && Abs() == old(Abs()).(backups := map[], adds := [])
    {
      backups.Clear();
      locallyAddedRows := [];
    }

    method RestoreBackups() returns (defined: bool)
      requires Valid()
      modifies this`rowList, this`rowStates, this`pendingEdits, this`log, backups, models
      ensures var r := RestoreFrom(old(Abs()), AscendingCells(old(Abs()).backups));
        && (defined <==> r.Some?)
        && (defined ==> Valid() && r.value == Abs())
    {
      ZipIsAscendingCells(backups.rows, backups.states);
      ghost var r := RestoreFrom(Abs(), Zip(backups.rows, backups.states));
      var i: nat := 0;
      while i < |backups.rows|
        invariant Valid() && i <= |backups.rows|
        invariant r == RestoreFrom(Abs(), Zip(backups.rows, backups.states)[i..])
        decreases |backups.rows| - i
      {
        defined, i := RestoreOne(i);
        if !defined {
          return;
        }
      }
      assert Zip(backups.rows, backups.states)[i..] == [];
      defined := true;
    }

    /** Visits the backup at a position; the next one to visit may have moved to the same position. */
    method RestoreOne(i: nat) returns (defined: bool, next: nat)
      requires Valid() && i < |backups.rows|
      modifies this`rowList, this`rowStates, this`pendingEdits, this`log, backups, models
      ensures var r := RestoreFrom(old(Abs()), old(Zip(backups.rows, backups.states)[i..]));
        && (defined ==>
              && Valid() && next <= |backups.rows| && |backups.rows| - next < old(|backups.rows|) - i
              && r == RestoreFrom(Abs(), Zip(backups.rows, backups.states)[next..]))
        && (!defined ==> r.None?)
    {
      hide CellMap, Model.Valid, Model.Shows, TableSpec.DeleteRow;
      ghost var todo := Zip(backups.rows, backups.states)[i..];
      var bak, bakState := backups.rows[i], backups.states[i];
      var id := bak.id;
      assert todo[0] == Cell(bak, bakState);
      defined, next := true, i;
      var pos := LowerBound(rowList, 0, id);
      FoundAt(rowList, rowStates, id, pos);
      if pos == |rowList| || rowList[pos].id != id {
        ZipRemoved(backups.rows, backups.states, i);
        backups.RemoveAt(i);
        return;
      }
      var row, state := rowList[pos], rowStates[pos];
      if state.DraftAdd? {
        defined := RemoveDraftAdd(id, i);
      } else if state.PendingAdd? {
        RemovePendingAdd(id, i);
      } else {
        Overwrite(pos, if state.DraftEdit? || state.PendingEdit? then bak else row, bakState);
        next := i + 1;
      }
      assert next == i + 1 ==> Zip(backups.rows, backups.states)[next..] == todo[1..];
    }

    /** Deleting the row leaves its backup, which the callback then removes. */
    method RemovePendingAdd(id: nat, i: nat)
      requires Valid() && i < |backups.rows| && backups.rows[i].id == id
      requires id in Abs().cells && Abs().cells[id].state.PendingAdd?
      modifies this`rowList, this`rowStates, this`pendingEdits, this`log, backups, models
      ensures Valid() && |backups.rows| == old(|backups.rows|) - 1
      ensures Zip(backups.rows, backups.states)[i..] == old(Zip(backups.rows, backups.states))[i + 1..]
      ensures var d := TableSpec.DeleteRow(old(Abs()), id);
              Abs() == d.(backups := d.backups - {id})
    {
      hide CellMap, Model.Valid, Model.Shows;
      ghost var rows, states := backups.rows, backups.states;
      DeleteRow(id);
      ListsAreUnique(rows, states, backups.rows, backups.states);
      ZipRemoved(rows, states, i);
      backups.RemoveAt(i);
    }

    /** Deleting the row removes its backup, and the callback then removes the backup at the same position again. */
    method RemoveDraftAdd(id: nat, i: nat) returns (defined: bool)
      requires Valid() && i < |backups.rows| && backups.rows[i].id == id
      requires id in Abs().cells && Abs().cells[id].state.DraftAdd?
      modifies this`rowList, this`rowStates, this`pendingEdits, this`log, backups, models
      ensures defined <==> i + 1 < old(|backups.rows|)
      ensures defined ==>
        && Valid() && |backups.rows| == old(|backups.rows|) - 2
        && Zip(backups.rows, backups.states)[i..] == old(Zip(backups.rows, backups.states))[i + 2..]
        && var d := TableSpec.DeleteRow(old(Abs()), id);
           Abs() == d.(backups := d.backups - {old(backups.rows)[i + 1].id})
    {
      ghost var rows, states := backups.rows, backups.states;
      ghost var zip := Zip(rows, states);
      DeleteRow(id);
      ZipWithout(rows, states, i, backups.rows, backups.states);
      defined := i < |backups.rows|;
      if defined {
        assert zip[i + 1..][0] == zip[i + 1] && Zip(backups.rows, backups.states)[i..][0] == zip[i + 1];
        RemoveNext(i);
        assert zip[i + 1..][1..] == zip[i + 2..];
      }
    }

    method RemoveNext(i: nat)
      requires Valid() && i < |backups.rows|
      modifies backups
      ensures Valid() && |backups.rows| == old(|backups.rows|) - 1
      ensures Zip(backups.rows, backups.states)[i..] == old(Zip(backups.rows, backups.states))[i..][1..]
      ensures Abs() == old(Abs()).(backups := old(Abs()).backups - {old(backups.rows)[i].id})
    {
      ZipRemoved(backups.rows, backups.states, i);
      assert Zip(backups.rows, backups.states)[i..][1..] == Zip(backups.rows, backups.states)[i + 1..];
      backups.RemoveAt(i);
    }
  }
}
