/** The original copies of edited rows, in two parallel lists sorted by row ID. */
module Backups {
  import opened TableTypes
  import opened TableSpec
  import opened SortedRows

  class BackupManager {
    var rows: seq<Row>
    var states: seq<LoadState>

    ghost predicate Valid()
      reads this
    {
      |rows| == |states| && Ascending(rows)
    }

    ghost function Contents(): map<nat, Cell>
      reads this
      requires Valid()
    {
      CellMap(rows, states)
    }

    /** The backups in ID order. */
    ghost function InOrder(): seq<Cell>
      reads this
      requires Valid()
    {
      Zip(rows, states)
    }

    constructor ()
      ensures Valid() && Contents() == map[]
    {
      rows, states := [], [];
    }

    predicate IsEmpty()
      reads this
    {
      rows == []
    }

    method Clear()
      requires Valid()
      modifies this
      ensures Valid() && Contents() == map[] && rows == []
    {
      rows, states := [], [];
    }

    method Get(id: nat) returns (backup: Option<Cell>)
      requires Valid()
      ensures backup == if id in Contents() then Some(Contents()[id]) else None
    {
      var pos := LowerBound(rows, 0, id);
      FoundAt(rows, states, id, pos);
      backup := if pos < |rows| && rows[pos].id == id then Some(Cell(rows[pos], states[pos])) else None;
    }

    /** Removes the backup with this ID, and returns it, if there is one. */
    method Remove(id: nat) returns (backup: Option<Cell>)
      requires Valid()
      modifies this
      ensures Valid()
      ensures backup == if id in old(Contents()) then Some(old(Contents())[id]) else None
      ensures Contents() == old(Contents()) - {id}
    {
      var pos := LowerBound(rows, 0, id);
      FoundAt(rows, states, id, pos);
      backup := None;
      if pos < |rows| && rows[pos].id == id {
        backup := Some(Cell(rows[pos], states[pos]));
        RemoveAt(pos);
      }
    }

    method RemoveAt(pos: nat)
      requires Valid() && pos < |rows|
      modifies this
      ensures Valid() && Contents() == old(Contents()) - {old(rows[pos].id)}
      ensures rows == old(rows[..pos] + rows[pos + 1..]) && states == old(states[..pos] + states[pos + 1..])
    {
      SortedRows.Removed(rows, states, pos);
      rows, states := rows[..pos] + rows[pos + 1..], states[..pos] + states[pos + 1..];
    }

    /** Saves a backup unless one with the same ID is held already. */
    method Save(row: Row, state: LoadState) returns (ghost saved: bool)
      requires Valid()
      modifies this
      ensures Valid() && saved == (row.id !in old(Contents()))
      ensures Contents() == if saved then old(Contents())[row.id := Cell(row, state)] else old(Contents())
    {
      var pos := LowerBound(rows, 0, row.id);
      FoundAt(rows, states, row.id, pos);
      saved := !(pos < |rows| && rows[pos].id == row.id);
      if pos == |rows| || rows[pos].id != row.id {
        SortedRows.Inserted(rows, states, pos, row, state);
        states := states[..pos] + [state] + states[pos..];
        rows := rows[..pos] + [row] + rows[pos..];
      }
    }

    /** Visits the backups while the callback may delete the one it is visiting. The callback appears as the
        decisions it takes: whether it deletes at its first visit, its second, and so on. */
    method ForEach(deletes: nat -> bool) returns (visited: seq<Cell>)
      requires Valid()
      modifies this
      ensures Valid()
      ensures visited == old(InOrder())
      ensures InOrder() == Kept(old(InOrder()), deletes)
    {
      ghost var all := InOrder();
      visited := [];
      var i := 0;
      while i < |rows|
        invariant Valid() && i <= |rows| && |visited| + (|rows| - i) == |all|
        invariant visited == all[..|visited|]
        invariant Zip(rows, states)[i..] == all[|visited|..]
        invariant Zip(rows, states)[..i] == Kept(all[..|visited|], deletes)
        decreases |rows| - i
      {
        var v := |visited|;
        VisitNext(rows, states, i, all, v, deletes);
        visited := visited + [Cell(rows[i], states[i])];
        if deletes(v) {
          RemoveAt(i);
        } else {
          i := i + 1;
        }
      }
      assert all[..|all|] == all;
      assert Zip(rows, states)[..i] == InOrder();
    }
  }

  /** One visit: the next cell is the one at the position, and either it goes or the position moves on. */
  lemma {:induction false} VisitNext(rows: seq<Row>, states: seq<LoadState>, i: nat, all: seq<Cell>, v: nat,
          deletes: nat -> bool)
    requires |rows| == |states| && i < |rows| && v < |all| && Zip(rows, states)[i..] == all[v..]
    ensures all[..v + 1] == all[..v] + [Cell(rows[i], states[i])]
    ensures Kept(all[..v + 1], deletes) ==
            Kept(all[..v], deletes) + if deletes(v) then [] else [Cell(rows[i], states[i])]
    ensures Zip(rows, states)[..i + 1] == Zip(rows, states)[..i] + [Cell(rows[i], states[i])]
    ensures Zip(rows, states)[i + 1..] == all[v + 1..]
    ensures var r, s := rows[..i] + rows[i + 1..], states[..i] + states[i + 1..];
      Zip(r, s)[..i] == Zip(rows, states)[..i] && Zip(r, s)[i..] == all[v + 1..]
  {
    var z := Zip(rows, states);
    assert z[i..][0] == all[v] && z[i..][1..] == all[v..][1..];
    assert all[..v + 1][..v] == all[..v];
    ZipRemoved(rows, states, i);
  }

  /** The cells at which the callback does not decide to delete. */
  function Kept(cells: seq<Cell>, deletes: nat -> bool): seq<Cell> {
    if cells == [] then []
    else
      var n := |cells| - 1;
      Kept(cells[..n], deletes) + if deletes(n) then [] else [cells[n]]
  }
}
