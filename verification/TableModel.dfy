/** The list model of a table: the IDs it shows, its virtual fields, and the signals its views follow. */
module TableModel {
  import opened TableTypes
  import opened TableSpec

  /** The virtual fields of one row. */
  datatype VirtualFields = VirtualFields(rowId: nat)

  datatype Signal =
    | RowsInserted(first: nat, ids: seq<nat>)
    | RowsRemoved(at: nat)
    | DataChanged(at: nat)

  /** The list held by a view that knows nothing but the model's first list and its signals. */
  function Replay(initial: seq<nat>, signals: seq<Signal>): seq<nat> {
    if signals == [] then initial
    else
      var view := Replay(initial, signals[..|signals| - 1]);
      match signals[|signals| - 1]
      case RowsInserted(first, ids) => if first <= |view| then view[..first] + ids + view[first..] else view
      case RowsRemoved(at) => if at < |view| then view[..at] + view[at + 1..] else view
      case DataChanged(_) => view
  }

  lemma {:induction false} ReplayOne(initial: seq<nat>, signals: seq<Signal>, signal: Signal)
    ensures var view := Replay(initial, signals);
      Replay(initial, signals + [signal]) ==
        match signal
        case RowsInserted(first, ids) => if first <= |view| then view[..first] + ids + view[first..] else view
        case RowsRemoved(at) => if at < |view| then view[..at] + view[at + 1..] else view
        case DataChanged(_) => view
  {
    assert (signals + [signal])[..|signals|] == signals;
  }

  /** The IDs that a view has been told of since the first `n` signals: inserted, or reported as changed. */
  function ToldSince(initial: seq<nat>, signals: seq<Signal>, n: nat): set<nat> {
    if |signals| <= n then {}
    else
      var last := |signals| - 1;
      var view := Replay(initial, signals[..last]);
      ToldSince(initial, signals[..last], n) +
        match signals[last]
        case RowsInserted(_, ids) => set id | id in ids
        case RowsRemoved(_) => {}
        case DataChanged(at) => if at < |view| then {view[at]} else {}
  }

  lemma {:induction false} ToldOne(initial: seq<nat>, signals: seq<Signal>, signal: Signal, n: nat)
    requires n <= |signals|
    ensures var view := Replay(initial, signals);
      ToldSince(initial, signals + [signal], n) == ToldSince(initial, signals, n) +
        match signal
        case RowsInserted(_, ids) => set id | id in ids
        case RowsRemoved(_) => {}
        case DataChanged(at) => if at < |view| then {view[at]} else {}
  {
    assert (signals + [signal])[..|signals|] == signals;
  }

  lemma {:induction false} ToldJoins(initial: seq<nat>, before: seq<Signal>, between: seq<Signal>, signals: seq<Signal>)
    requires before <= between <= signals
    ensures ToldSince(initial, signals, |before|) ==
            ToldSince(initial, between, |before|) + ToldSince(initial, signals, |between|)
    decreases |signals|
  {
    if |between| == |signals| {
      assert between == signals;
    } else {
      var last := |signals| - 1;
      assert between <= signals[..last];
      ToldJoins(initial, before, between, signals[..last]);
    }
  }

  lemma {:induction false} InsertedIds(ids: seq<nat>, pos: nat, id: nat)
    requires StrictlyAscending(ids) && pos <= |ids|
    requires forall i :: 0 <= i < pos ==> ids[i] < id
    requires forall i :: pos <= i < |ids| ==> id < ids[i]
    ensures var r := ids[..pos] + [id] + ids[pos..];
      StrictlyAscending(r) && forall k :: k in r <==> k in ids || k == id
  {
    var r := ids[..pos] + [id] + ids[pos..];
    forall i, j | 0 <= i < j < |r| ensures r[i] < r[j] {
      assert j > pos ==> r[j] == ids[j - 1];
      assert i > pos ==> r[i] == ids[i - 1];
    }
    assert ids == ids[..pos] + ids[pos..];
  }

  lemma {:induction false} RemovedIds(ids: seq<nat>, pos: nat)
    requires StrictlyAscending(ids) && pos < |ids|
    ensures var r := ids[..pos] + ids[pos + 1..];
      StrictlyAscending(r) && forall k :: k in r <==> k in ids && k != ids[pos]
  {
    var r := ids[..pos] + ids[pos + 1..];
    assert forall i :: 0 <= i < |r| ==> r[i] == ids[if i < pos then i else i + 1];
    assert forall i :: 0 <= i < |ids| && i != pos ==> ids[i] == r[if i < pos then i else i - 1];
  }

  lemma {:induction false} OneMoreId(rows: seq<Row>, j: nat)
    requires j < |rows|
    ensures IdsOf(rows[..j + 1]) == IdsOf(rows[..j]) + {rows[j].id}
  {
    assert forall k :: 0 <= k < j ==> rows[..j + 1][k] == rows[..j][k];
    assert rows[..j + 1][j] == rows[j];
  }

  lemma {:induction false} AppendedIds(before: seq<nat>, rows: seq<Row>, ids: seq<nat>)
    requires StrictlyAscending(before) && Ascending(rows) && rows != []
    requires forall i :: 0 <= i < |before| ==> before[i] < rows[0].id
    requires |ids| == |rows| && forall k :: 0 <= k < |rows| ==> ids[k] == rows[k].id
    ensures StrictlyAscending(before + ids) && (set id | id in ids) == IdsOf(rows)
    ensures (set id | id in before + ids) == (set id | id in before) + IdsOf(rows)
  {
    assert forall k :: 0 <= k < |rows| ==> rows[0].id <= ids[k];
    assert forall id :: id in ids <==> id in IdsOf(rows);
  }

  method LowerBoundId(ids: seq<nat>, start: nat, id: nat) returns (pos: nat)
    requires StrictlyAscending(ids) && start <= |ids|
    requires forall i :: 0 <= i < start ==> ids[i] < id
    ensures start <= pos <= |ids|
    ensures forall i :: 0 <= i < pos ==> ids[i] < id
    ensures forall i :: pos <= i < |ids| ==> id <= ids[i]
  {
    pos := start;
    var end: nat := |ids|;
    while pos < end
      invariant start <= pos <= end <= |ids|
      invariant forall i :: 0 <= i < pos ==> ids[i] < id
      invariant forall i :: end <= i < |ids| ==> id <= ids[i]
    {
      var mid := (pos + end) / 2;
      if ids[mid] < id {
        pos := mid + 1;
      } else {
        end := mid;
      }
    }
  }

  predicate Parallel(ids: seq<nat>, fields: seq<VirtualFields>) {
    |fields| == |ids| && forall i :: 0 <= i < |ids| ==> fields[i] == VirtualFields(ids[i])
  }

  lemma {:induction false} ParallelInserted(ids: seq<nat>, fields: seq<VirtualFields>, pos: nat, id: nat)
    requires Parallel(ids, fields) && pos <= |ids|
    ensures Parallel(ids[..pos] + [id] + ids[pos..], fields[..pos] + [VirtualFields(id)] + fields[pos..])
  {
  }

  lemma {:induction false} ParallelRemoved(ids: seq<nat>, fields: seq<VirtualFields>, pos: nat)
    requires Parallel(ids, fields) && pos < |ids|
    ensures Parallel(ids[..pos] + ids[pos + 1..], fields[..pos] + fields[pos + 1..])
  {
  }

  class Model {
    var modelIds: seq<nat>
    var modelVirtualFields: seq<VirtualFields>
    ghost var signals: seq<Signal>
    ghost const initial: seq<nat>

    /** The IDs ascend, the virtual fields run parallel to them, and a view that follows the signals shows them. */
    ghost predicate Valid()
      reads this
    {
      && StrictlyAscending(modelIds)
      && Parallel(modelIds, modelVirtualFields)
      && Replay(initial, signals) == modelIds
    }

    ghost function Shows(): set<nat>
      reads this
    {
      set id | id in modelIds
    }

    constructor (rows: seq<Row>)
      requires Ascending(rows)
      ensures Valid() && Shows() == IdsOf(rows) && signals == []
    {
      var ids := seq(|rows|, k requires 0 <= k < |rows| => rows[k].id);
      modelIds := ids;
      modelVirtualFields := seq(|rows|, k requires 0 <= k < |rows| => VirtualFields(rows[k].id));
      signals := [];
      initial := ids;
      new;
      assert forall k :: 0 <= k < |rows| ==> modelIds[k] == rows[k].id;
    }

    /** Since then a view has been told of exactly these IDs. */
    ghost predicate Told(before: seq<Signal>, ids: set<nat>)
      reads this
    {
      before <= signals && ToldSince(initial, signals, |before|) == ids
    }

    ghost method Emit(signal: Signal)
      modifies this`signals
      ensures signals == old(signals) + [signal]
    {
      signals := signals + [signal];
    }

    method InsertAt(pos: nat, id: nat)
      requires Valid() && pos <= |modelIds|
      requires forall i :: 0 <= i < pos ==> modelIds[i] < id
      requires forall i :: pos <= i < |modelIds| ==> id < modelIds[i]
      modifies this
      ensures Valid() && Shows() == old(Shows()) + {id}
      ensures modelIds == old(modelIds[..pos] + [id] + modelIds[pos..])
      ensures Told(old(signals), {id})
    {
      ReplayOne(initial, signals, RowsInserted(pos, [id]));
      ToldOne(initial, signals, RowsInserted(pos, [id]), |signals|);
      Emit(RowsInserted(pos, [id]));
      InsertedIds(modelIds, pos, id);
      ParallelInserted(modelIds, modelVirtualFields, pos, id);
      modelIds := modelIds[..pos] + [id] + modelIds[pos..];
      modelVirtualFields := modelVirtualFields[..pos] + [VirtualFields(id)] + modelVirtualFields[pos..];
    }

    /** Adds the rows the model does not show yet; its views are told of every row, and of no other. */
    method UpdateRows(rows: seq<Row>)
      requires Valid() && Ascending(rows)
      modifies this
      ensures Valid() && Shows() == old(Shows()) + IdsOf(rows)
      ensures Told(old(signals), IdsOf(rows))
    {
      if rows == [] {
        return;
      }
      var pos := LowerBoundId(modelIds, 0, rows[0].id);
      if pos == |modelIds| {
        AppendAll(rows);
      } else {
        MergeAll(rows, pos);
      }
    }

    method AppendAll(rows: seq<Row>)
      requires Valid() && Ascending(rows) && rows != []
      requires forall i :: 0 <= i < |modelIds| ==> modelIds[i] < rows[0].id
      modifies this
      ensures Valid() && Shows() == old(Shows()) + IdsOf(rows)
      ensures Told(old(signals), IdsOf(rows))
    {
      hide Replay, IdsOf, Parallel;
      var ids := seq(|rows|, k requires 0 <= k < |rows| => rows[k].id);
      ReplayOne(initial, signals, RowsInserted(|modelIds|, ids));
      ToldOne(initial, signals, RowsInserted(|modelIds|, ids), |signals|);
      Emit(RowsInserted(|modelIds|, ids));
      Extend(rows, ids);
      AppendedIds(old(modelIds), rows, ids);
    }

    method Extend(rows: seq<Row>, ghost ids: seq<nat>)
      requires Parallel(modelIds, modelVirtualFields)
      requires |ids| == |rows| && forall k :: 0 <= k < |rows| ==> ids[k] == rows[k].id
      modifies this`modelIds, this`modelVirtualFields
      ensures modelIds == old(modelIds) + ids && Parallel(modelIds, modelVirtualFields)
    {
      for j := 0 to |rows|
        invariant modelIds == old(modelIds) + ids[..j]
        invariant Parallel(modelIds, modelVirtualFields)
      {
        modelIds := modelIds + [rows[j].id];
        modelVirtualFields := modelVirtualFields + [VirtualFields(rows[j].id)];
      }
      assert ids[..|rows|] == ids;
    }

    method MergeAll(rows: seq<Row>, start: nat)
      requires Valid() && Ascending(rows) && rows != [] && start <= |modelIds|
      requires forall i :: 0 <= i < start ==> modelIds[i] < rows[0].id
      requires forall i :: start <= i < |modelIds| ==> rows[0].id <= modelIds[i]
      modifies this
      ensures Valid() && Shows() == old(Shows()) + IdsOf(rows)
      ensures Told(old(signals), IdsOf(rows))
    {
      var pos: nat := start;
      for j := 0 to |rows|
        invariant Valid() && Shows() == old(Shows()) + IdsOf(rows[..j])
        invariant Told(old(signals), IdsOf(rows[..j]))
        invariant pos <= |modelIds|
        invariant j < |rows| ==> forall i :: 0 <= i < pos ==> modelIds[i] < rows[j].id
        invariant j < |rows| ==> forall i :: pos <= i < |modelIds| ==> rows[j].id <= modelIds[i]
      {
        ghost var between := signals;
        OneMoreId(rows, j);
        MergeId(pos, rows[j].id);
        ToldJoins(initial, old(signals), between, signals);
        if j + 1 < |rows| {
          pos := LowerBoundId(modelIds, pos, rows[j + 1].id);
        }
      }
      assert rows[..|rows|] == rows;
    }

    /** Updates the row at the position, or inserts it there. */
    method MergeId(pos: nat, id: nat)
      requires Valid() && pos <= |modelIds|
      requires forall i :: 0 <= i < pos ==> modelIds[i] < id
      requires forall i :: pos <= i < |modelIds| ==> id <= modelIds[i]
      modifies this
      ensures Valid() && Shows() == old(Shows()) + {id}
      ensures pos < |modelIds| && modelIds[pos] == id && forall i :: 0 <= i < pos ==> modelIds[i] < id
      ensures Told(old(signals), {id})
    {
      if pos < |modelIds| && modelIds[pos] == id {
        ReportChange(pos);
        assert id in modelIds;
      } else {
        InsertAt(pos, id);
      }
    }

    /** Reports a change of the row at this position. */
    method ReportChange(pos: nat)
      requires Valid() && pos < |modelIds|
      modifies this`signals
      ensures Valid() && Told(old(signals), {modelIds[pos]})
    {
      ReplayOne(initial, signals, DataChanged(pos));
      ToldOne(initial, signals, DataChanged(pos), |signals|);
      Emit(DataChanged(pos));
    }

    method MarkRowStale(id: nat)
      requires Valid()
      modifies this
      ensures Valid() && modelIds == old(modelIds)
      ensures Told(old(signals), Shows() * {id})
    {
      var pos := LowerBoundId(modelIds, 0, id);
      if pos < |modelIds| && modelIds[pos] == id {
        ReportChange(pos);
      }
    }

    method DeleteRow(id: nat)
      requires Valid()
      modifies this
      ensures Valid() && Shows() == old(Shows()) - {id}
      ensures Told(old(signals), {})
    {
      var pos := LowerBoundId(modelIds, 0, id);
      if pos < |modelIds| && modelIds[pos] == id {
        ReplayOne(initial, signals, RowsRemoved(pos));
        ToldOne(initial, signals, RowsRemoved(pos), |signals|);
        Emit(RowsRemoved(pos));
        RemovedIds(modelIds, pos);
        ParallelRemoved(modelIds, modelVirtualFields, pos);
        modelIds := modelIds[..pos] + modelIds[pos + 1..];
        modelVirtualFields := modelVirtualFields[..pos] + modelVirtualFields[pos + 1..];
      }
    }
  }
}
