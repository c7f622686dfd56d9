/** Parallel lists of rows and states, sorted by row ID, and the map from IDs that they stand for. */
module SortedRows {
  import opened TableTypes
  import opened TableSpec

  /** The first position whose row does not come before the ID. */
  predicate IsLowerBound(rows: seq<Row>, id: nat, pos: nat) {
    && pos <= |rows|
    && (forall i :: 0 <= i < pos ==> rows[i].id < id)
    && (forall i :: pos <= i < |rows| ==> id <= rows[i].id)
  }

  method LowerBound(rows: seq<Row>, start: nat, id: nat) returns (pos: nat)
    requires Ascending(rows) && start <= |rows|
    requires forall i :: 0 <= i < start ==> rows[i].id < id
    ensures IsLowerBound(rows, id, pos) && start <= pos
  {
    pos := start;
    var end: nat := |rows|;
    while pos < end
      invariant start <= pos <= end <= |rows|
      invariant forall i :: 0 <= i < pos ==> rows[i].id < id
      invariant forall i :: end <= i < |rows| ==> id <= rows[i].id
    {
      var mid := (pos + end) / 2;
      if rows[mid].id < id {
        pos := mid + 1;
      } else {
        end := mid;
      }
    }
  }

  predicate Holds(rows: seq<Row>, id: nat, pos: nat) {
    pos < |rows| && rows[pos].id == id
  }

  function CellMap(rows: seq<Row>, states: seq<LoadState>): map<nat, Cell>
    requires |rows| == |states|
  {
    if rows == [] then map[]
    else
      var n := |rows| - 1;
      CellMap(rows[..n], states[..n])[rows[n].id := Cell(rows[n], states[n])]
  }

  lemma {:induction false} CellMapDomain(rows: seq<Row>, states: seq<LoadState>)
    requires |rows| == |states|
    ensures CellMap(rows, states).Keys == IdsOf(rows)
  {
    if rows == [] {
      assert IdsOf(rows) == {};
    } else {
      var n := |rows| - 1;
      CellMapDomain(rows[..n], states[..n]);
      assert forall k :: 0 <= k < n ==> rows[..n][k] == rows[k];
      assert IdsOf(rows) == IdsOf(rows[..n]) + {rows[n].id};
    }
  }

  lemma {:induction false} CellMapAt(rows: seq<Row>, states: seq<LoadState>, k: nat)
    requires |rows| == |states| && Ascending(rows) && k < |rows|
    ensures rows[k].id in CellMap(rows, states)
    ensures CellMap(rows, states)[rows[k].id] == Cell(rows[k], states[k])
  {
    var n := |rows| - 1;
    if k < n {
      CellMapAt(rows[..n], states[..n], k);
      assert rows[k].id < rows[n].id;
    }
  }

  /** The map has the IDs of the sorted list as keys and its entries as values. */
  ghost predicate Entries(rows: seq<Row>, states: seq<LoadState>, m: map<nat, Cell>) {
    && |rows| == |states| && Ascending(rows) && m.Keys == IdsOf(rows)
    && forall k :: 0 <= k < |rows| ==> m[rows[k].id] == Cell(rows[k], states[k])
  }

  lemma {:induction false} EntriesAreUnique(rows: seq<Row>, states: seq<LoadState>, m: map<nat, Cell>)
    requires Entries(rows, states, m)
    ensures CellMap(rows, states) == m
  {
    CellMapDomain(rows, states);
    forall id | id in m ensures CellMap(rows, states)[id] == m[id] {
      var k :| 0 <= k < |rows| && rows[k].id == id;
      CellMapAt(rows, states, k);
    }
  }

  lemma {:induction false} CellMapIs(rows: seq<Row>, states: seq<LoadState>)
    requires |rows| == |states| && Ascending(rows)
    ensures Entries(rows, states, CellMap(rows, states))
  {
    CellMapDomain(rows, states);
    forall k | 0 <= k < |rows| ensures CellMap(rows, states)[rows[k].id] == Cell(rows[k], states[k]) {
      CellMapAt(rows, states, k);
    }
  }

  lemma {:induction false} CellMapKeyed(rows: seq<Row>, states: seq<LoadState>)
    requires |rows| == |states|
    ensures forall id :: id in CellMap(rows, states) ==> CellMap(rows, states)[id].row.id == id
  {
    if rows != [] {
      CellMapKeyed(rows[..|rows| - 1], states[..|rows| - 1]);
    }
  }

  lemma {:induction false} FoundAt(rows: seq<Row>, states: seq<LoadState>, id: nat, pos: nat)
    requires |rows| == |states| && Ascending(rows) && IsLowerBound(rows, id, pos)
    ensures id in CellMap(rows, states) <==> Holds(rows, id, pos)
    ensures Holds(rows, id, pos) ==> CellMap(rows, states)[id] == Cell(rows[pos], states[pos])
  {
    CellMapIs(rows, states);
  }

  lemma {:induction false} IdsJoined(a: seq<Row>, b: seq<Row>)
    ensures IdsOf(a + b) == IdsOf(a) + IdsOf(b)
  {
    var r := a + b;
    forall id | id in IdsOf(b) ensures id in IdsOf(r) {
      var k :| 0 <= k < |b| && b[k].id == id;
      assert r[|a| + k] == b[k];
    }
    forall id | id in IdsOf(a) ensures id in IdsOf(r) {
      var k :| 0 <= k < |a| && a[k].id == id;
      assert r[k] == a[k];
    }
  }

  lemma {:induction false} IdsInserted(rows: seq<Row>, pos: nat, row: Row)
    requires pos <= |rows|
    ensures IdsOf(rows[..pos] + [row] + rows[pos..]) == IdsOf(rows) + {row.id}
  {
    IdsJoined(rows[..pos], [row]);
    IdsJoined(rows[..pos] + [row], rows[pos..]);
    IdsJoined(rows[..pos], rows[pos..]);
    assert rows == rows[..pos] + rows[pos..];
    assert [row][0] == row && IdsOf([row]) == {row.id};
  }

  lemma {:induction false} IdsRemoved(rows: seq<Row>, pos: nat)
    requires Ascending(rows) && pos < |rows|
    ensures IdsOf(rows[..pos] + rows[pos + 1..]) == IdsOf(rows) - {rows[pos].id}
  {
    var rest := rows[..pos] + rows[pos + 1..];
    IdsJoined(rows[..pos], rows[pos + 1..]);
    IdsInserted(rest, pos, rows[pos]);
    assert rest[..pos] + [rows[pos]] + rest[pos..] == rows;
    forall k | 0 <= k < |rest| ensures rest[k].id != rows[pos].id {
      assert rest[k] == rows[if k < pos then k else k + 1];
    }
  }

  lemma {:induction false} AscendingInserted(rows: seq<Row>, pos: nat, row: Row)
    requires Ascending(rows) && IsLowerBound(rows, row.id, pos) && !Holds(rows, row.id, pos)
    ensures Ascending(rows[..pos] + [row] + rows[pos..])
  {
    var r := rows[..pos] + [row] + rows[pos..];
    forall i, j | 0 <= i < j < |r| ensures r[i].id < r[j].id {
      assert j > pos ==> r[j] == rows[j - 1] && rows[pos].id <= rows[j - 1].id;
      assert i > pos ==> r[i] == rows[i - 1];
    }
  }

  lemma {:induction false} AscendingRemoved(rows: seq<Row>, pos: nat)
    requires Ascending(rows) && pos < |rows|
    ensures Ascending(rows[..pos] + rows[pos + 1..])
  {
    var r := rows[..pos] + rows[pos + 1..];
    forall i, j | 0 <= i < j < |r| ensures r[i].id < r[j].id {
      assert r[i] == rows[if i < pos then i else i + 1] && r[j] == rows[if j < pos then j else j + 1];
    }
  }

  lemma {:induction false} EntriesInserted(rows: seq<Row>, states: seq<LoadState>, m: map<nat, Cell>,
                                           pos: nat, row: Row, state: LoadState)
    requires Entries(rows, states, m) && IsLowerBound(rows, row.id, pos) && !Holds(rows, row.id, pos)
    ensures Entries(rows[..pos] + [row] + rows[pos..], states[..pos] + [state] + states[pos..],
                    m[row.id := Cell(row, state)])
  {
    var r, s, n := rows[..pos] + [row] + rows[pos..], states[..pos] + [state] + states[pos..],
      m[row.id := Cell(row, state)];
    AscendingInserted(rows, pos, row);
    IdsInserted(rows, pos, row);
    hide IdsOf;
    forall k | 0 <= k < |r| ensures n[r[k].id] == Cell(r[k], s[k]) {
      InsertedAt(rows, states, pos, row, state, k);
    }
  }

  /** Each entry after an insertion is the inserted one, or an old one with another ID. */
  lemma {:induction false} InsertedAt(rows: seq<Row>, states: seq<LoadState>, pos: nat, row: Row, state: LoadState,
          k: nat)
    requires |rows| == |states| && IsLowerBound(rows, row.id, pos) && !Holds(rows, row.id, pos) && Ascending(rows)
    requires k <= |rows|
    ensures var r, s := rows[..pos] + [row] + rows[pos..], states[..pos] + [state] + states[pos..];
      if k == pos then r[k] == row && s[k] == state
      else var i := if k < pos then k else k - 1; r[k] == rows[i] && s[k] == states[i] && rows[i].id != row.id
  {
  }

  lemma {:induction false} EntriesRemoved(rows: seq<Row>, states: seq<LoadState>, m: map<nat, Cell>, pos: nat)
    requires Entries(rows, states, m) && pos < |rows|
    ensures Entries(rows[..pos] + rows[pos + 1..], states[..pos] + states[pos + 1..], m - {rows[pos].id})
  {
    var r, s, n := rows[..pos] + rows[pos + 1..], states[..pos] + states[pos + 1..], m - {rows[pos].id};
    AscendingRemoved(rows, pos);
    IdsRemoved(rows, pos);
    forall k | 0 <= k < |r| ensures n[r[k].id] == Cell(r[k], s[k]) {
      var i := if k < pos then k else k + 1;
      assert r[k] == rows[i] && s[k] == states[i] && r[k].id in n.Keys;
    }
  }

  lemma {:induction false} EntriesOverwritten(rows: seq<Row>, states: seq<LoadState>, m: map<nat, Cell>,
                                              pos: nat, row: Row, state: LoadState)
    requires Entries(rows, states, m) && pos < |rows| && rows[pos].id == row.id
    ensures Entries(rows[pos := row], states[pos := state], m[row.id := Cell(row, state)])
  {
    var r, n := rows[pos := row], m[row.id := Cell(row, state)];
    assert forall k :: 0 <= k < |rows| ==> r[k].id == rows[k].id;
    assert IdsOf(r) == IdsOf(rows);
    assert row.id in IdsOf(rows);
  }

  lemma {:induction false} Inserted(rows: seq<Row>, states: seq<LoadState>, pos: nat, row: Row, state: LoadState)
    requires |rows| == |states| && Ascending(rows) && IsLowerBound(rows, row.id, pos) && !Holds(rows, row.id, pos)
    ensures var r, s := rows[..pos] + [row] + rows[pos..], states[..pos] + [state] + states[pos..];
      Ascending(r) && |r| == |s| && CellMap(r, s) == CellMap(rows, states)[row.id := Cell(row, state)]
  {
    var r, s, m := rows[..pos] + [row] + rows[pos..], states[..pos] + [state] + states[pos..], CellMap(rows, states);
    CellMapIs(rows, states);
    EntriesInserted(rows, states, m, pos, row, state);
    EntriesAreUnique(r, s, m[row.id := Cell(row, state)]);
  }

  lemma {:induction false} Removed(rows: seq<Row>, states: seq<LoadState>, pos: nat)
    requires |rows| == |states| && Ascending(rows) && pos < |rows|
    ensures var r, s := rows[..pos] + rows[pos + 1..], states[..pos] + states[pos + 1..];
      Ascending(r) && |r| == |s| && CellMap(r, s) == CellMap(rows, states) - {rows[pos].id}
  {
    var r, s, m := rows[..pos] + rows[pos + 1..], states[..pos] + states[pos + 1..], CellMap(rows, states);
    CellMapIs(rows, states);
    EntriesRemoved(rows, states, m, pos);
    EntriesAreUnique(r, s, m - {rows[pos].id});
  }

  lemma {:induction false} Overwritten(rows: seq<Row>, states: seq<LoadState>, pos: nat, row: Row, state: LoadState)
    requires |rows| == |states| && Ascending(rows) && pos < |rows| && rows[pos].id == row.id
    ensures var r, s := rows[pos := row], states[pos := state];
      Ascending(r) && CellMap(r, s) == CellMap(rows, states)[row.id := Cell(row, state)]
  {
    var r, s, m := rows[pos := row], states[pos := state], CellMap(rows, states);
    CellMapIs(rows, states);
    EntriesOverwritten(rows, states, m, pos, row, state);
    EntriesAreUnique(r, s, m[row.id := Cell(row, state)]);
  }

  /** Appending rows that all come later, every one of them Loaded. */
  lemma {:induction false} Appended(rows: seq<Row>, states: seq<LoadState>, newRows: seq<Row>, loaded: seq<LoadState>)
    requires |rows| == |states| && Ascending(rows) && Ascending(newRows) && newRows != []
    requires forall i :: 0 <= i < |rows| ==> rows[i].id < newRows[0].id
    requires |loaded| == |newRows| && forall k :: 0 <= k < |loaded| ==> loaded[k].Loaded?
    ensures Ascending(rows + newRows)
    ensures CellMap(rows + newRows, states + loaded) == CellMap(rows, states) + RowCells(newRows)
    decreases |newRows|
  {
    var n := |newRows| - 1;
    assert forall i :: 0 <= i <= n ==> newRows[0].id <= newRows[i].id;
    AppendedLast(rows, states, newRows, loaded);
    if n == 0 {
      assert rows + newRows[..n] == rows && states + loaded[..n] == states;
    } else {
      Appended(rows, states, newRows[..n], loaded[..n]);
    }
  }

  lemma {:induction false} AppendedLast(rows: seq<Row>, states: seq<LoadState>, newRows: seq<Row>,
          loaded: seq<LoadState>)
    requires |rows| == |states| && |loaded| == |newRows| && newRows != []
    requires loaded[|loaded| - 1].Loaded?
    ensures var n := |newRows| - 1;
      CellMap(rows + newRows[..n], states + loaded[..n]) == CellMap(rows, states) + RowCells(newRows[..n]) ==>
        CellMap(rows + newRows, states + loaded) == CellMap(rows, states) + RowCells(newRows)
  {
    var n := |newRows| - 1;
    assert (rows + newRows)[..|rows| + n] == rows + newRows[..n];
    assert (states + loaded)[..|rows| + n] == states + loaded[..n];
  }

  /** The entries in order. */
  function Zip(rows: seq<Row>, states: seq<LoadState>): (z: seq<Cell>)
    requires |rows| == |states|
    ensures |z| == |rows|
  {
    seq(|rows|, k requires 0 <= k < |rows| => Cell(rows[k], states[k]))
  }

  lemma {:induction false} FirstIsIn(s: seq<nat>)
    ensures s == [] || s[0] in s
  {
  }

  /** Two strictly ascending lists with the same elements are equal. */
  lemma {:induction false} AscendingUnique(s: seq<nat>, r: seq<nat>)
    requires forall i, j :: 0 <= i < j < |s| ==> s[i] < s[j]
    requires forall i, j :: 0 <= i < j < |r| ==> r[i] < r[j]
    requires forall x :: x in s <==> x in r
    ensures s == r
    decreases |s|
  {
    FirstIsIn(s);
    FirstIsIn(r);
    if s != [] {
      assert s[0] in r;
      assert s[0] == r[0];
      forall x ensures x in s[1..] <==> x in r[1..] {
        assert x in s[1..] <==> x in s && x != s[0];
        assert x in r[1..] <==> x in r && x != r[0];
      }
      AscendingUnique(s[1..], r[1..]);
      assert s == [s[0]] + s[1..] && r == [r[0]] + r[1..];
    }
  }

  /** A sorted list enumerates its map in ascending order. */
  lemma {:induction false} ZipIsAscendingCells(rows: seq<Row>, states: seq<LoadState>)
    requires |rows| == |states| && Ascending(rows)
    ensures AscendingCells(CellMap(rows, states)) == Zip(rows, states)
  {
    CellMapIs(rows, states);
    var m, ids := CellMap(rows, states), seq(|rows|, k requires 0 <= k < |rows| => rows[k].id);
    assert forall k :: 0 <= k < |rows| ==> ids[k] == rows[k].id;
    AscendingUnique(AscendingIds(m.Keys), ids);
    EntriesInOrder(rows, states, m, ids);
  }

  lemma {:induction false} EntriesInOrder(rows: seq<Row>, states: seq<LoadState>, m: map<nat, Cell>, ids: seq<nat>)
    requires Entries(rows, states, m) && AscendingIds(m.Keys) == ids && |ids| == |rows|
    requires forall k :: 0 <= k < |rows| ==> ids[k] == rows[k].id
    ensures AscendingCells(m) == Zip(rows, states)
  {
  }

  /** Sorted lists that stand for the same map are the same lists. */
  lemma {:induction false} ListsAreUnique(rows: seq<Row>, states: seq<LoadState>, r: seq<Row>, s: seq<LoadState>)
    requires |rows| == |states| && Ascending(rows) && |r| == |s| && Ascending(r)
    requires CellMap(r, s) == CellMap(rows, states)
    ensures r == rows && s == states
  {
    ZipIsAscendingCells(rows, states);
    ZipIsAscendingCells(r, s);
    var z := Zip(rows, states);
    assert |r| == |z| == |rows|;
    assert forall k :: 0 <= k < |z| ==> z[k] == Cell(rows[k], states[k]) && z[k] == Cell(r[k], s[k]);
  }

  lemma {:induction false} ZipRemoved(rows: seq<Row>, states: seq<LoadState>, pos: nat)
    requires |rows| == |states| && pos < |rows|
    ensures Zip(rows[..pos] + rows[pos + 1..], states[..pos] + states[pos + 1..])[pos..] == Zip(rows, states)[pos + 1..]
  {
  }

  /** Whichever lists stand for a map with one ID less, they are the old lists without that entry. */
  lemma {:induction false} ZipWithout(rows: seq<Row>, states: seq<LoadState>, pos: nat, r: seq<Row>, s: seq<LoadState>)
    requires |rows| == |states| && Ascending(rows) && pos < |rows| && |r| == |s| && Ascending(r)
    requires CellMap(r, s) == CellMap(rows, states) - {rows[pos].id}
    ensures |r| == |rows| - 1 && Zip(r, s)[pos..] == Zip(rows, states)[pos + 1..]
  {
    var r', s' := rows[..pos] + rows[pos + 1..], states[..pos] + states[pos + 1..];
    Removed(rows, states, pos);
    ZipIsAscendingCells(r, s);
    ZipIsAscendingCells(r', s');
    ZipRemoved(rows, states, pos);
    assert |Zip(r, s)| == |Zip(r', s')|;
  }
}
