/** The local adds of a table are the last rows of its list, in the order in which they were recorded. */
module DraftTail {
  import opened TableTypes
  import opened TableSpec
  import opened TableInvariants
  import opened SortedRows

  function IdList(rows: seq<Row>): (ids: seq<nat>)
    ensures |ids| == |rows| && forall k :: 0 <= k < |rows| ==> ids[k] == rows[k].id
  {
    seq(|rows|, k requires 0 <= k < |rows| => rows[k].id)
  }

  /** Where the draft region begins in a sorted list. */
  lemma {:induction false} RegionBegins(rows: seq<Row>) returns (n: nat)
    requires Ascending(rows)
    ensures n <= |rows|
    ensures forall i :: 0 <= i < |rows| ==> (n <= i <==> BASE_DRAFT_ID <= rows[i].id)
  {
    n := |rows|;
    while n > 0 && BASE_DRAFT_ID <= rows[n - 1].id
      invariant n <= |rows|
      invariant forall i :: n <= i < |rows| ==> BASE_DRAFT_ID <= rows[i].id
    {
      n := n - 1;
    }
  }

  lemma {:induction false} TailIds(rows: seq<Row>, n: nat, id: nat)
    requires n <= |rows| && forall i :: 0 <= i < |rows| ==> (n <= i <==> BASE_DRAFT_ID <= rows[i].id)
    ensures id in IdList(rows[n..]) <==> id in IdsOf(rows) && BASE_DRAFT_ID <= id
  {
    if id in IdsOf(rows) && BASE_DRAFT_ID <= id {
      var i :| 0 <= i < |rows| && rows[i].id == id;
      assert IdList(rows[n..])[i - n] == id;
    }
    if id in IdList(rows[n..]) {
      var k :| 0 <= k < |rows| - n && IdList(rows[n..])[k] == id;
      assert rows[n + k].id == id;
    }
  }

  lemma {:induction false} RecordsAreTheTail(t: Table, rows: seq<Row>, states: seq<LoadState>, n: nat)
    requires DraftRegion(t) && |rows| == |states| && Ascending(rows) && CellMap(rows, states) == t.cells
    requires n <= |rows| && forall i :: 0 <= i < |rows| ==> (n <= i <==> BASE_DRAFT_ID <= rows[i].id)
    ensures DraftIds(t.adds) == IdList(rows[n..])
  {
    CellMapDomain(rows, states);
    forall id ensures id in DraftIds(t.adds) <==> id in IdList(rows[n..]) {
      TailIds(rows, n, id);
    }
    AscendingUnique(DraftIds(t.adds), IdList(rows[n..]));
  }

  /** In every reachable state the rows at or above the bound come last, are exactly the rows in an added state,
      and have the recorded draft IDs, in the recorded order; and the ID of the next add is not taken. */
  lemma {:induction false} DraftIdsAreTheTail(ops: seq<Op>, rows: seq<Row>, states: seq<LoadState>) returns (n: nat)
    requires AdmissibleRun(EMPTY_TABLE, ops)
    requires |rows| == |states| && Ascending(rows) && CellMap(rows, states) == Run(EMPTY_TABLE, ops).cells
    ensures n <= |rows| && DraftIds(Run(EMPTY_TABLE, ops).adds) == IdList(rows[n..])
    ensures forall i :: 0 <= i < |rows| ==>
      (n <= i <==> IsLocalAdd(states[i])) && (n <= i <==> BASE_DRAFT_ID <= rows[i].id)
    ensures NextDraftId(Run(EMPTY_TABLE, ops).cells.Keys) !in IdsOf(rows)
  {
    var t := Run(EMPTY_TABLE, ops);
    EmptyIsFine();
    RunKeepsInv(EMPTY_TABLE, ops);
    n := RegionBegins(rows);
    RecordsAreTheTail(t, rows, states, n);
    CellMapIs(rows, states);
    forall i | 0 <= i < |rows| ensures BASE_DRAFT_ID <= rows[i].id <==> IsLocalAdd(states[i]) {
      assert t.cells[rows[i].id] == Cell(rows[i], states[i]);
    }
  }

  /** In every reachable state the records hold draft IDs, as handling replies requires. */
  lemma {:induction false} RecordsHoldDraftIds(t: Table, k: nat)
    requires TableInvariants.Inv(t) && k < |t.adds|
    ensures DRAFT_ID_KEY in t.adds[k] && BASE_DRAFT_ID <= DraftIdOf(t.adds[k])
  {
    assert DraftIds(t.adds)[k] in DraftIds(t.adds);
  }

  lemma {:induction false} EmptyIsFine()
    ensures TableInvariants.Inv(EMPTY_TABLE)
  {
    assert DraftIds(EMPTY_TABLE.adds) == [];
  }
}
