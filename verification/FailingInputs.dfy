/** Inputs for which the code misses what its documentation says. */
module FailingInputs {
  import opened TableTypes
  import opened TableSpec
  import opened Restoration
  import opened TableInvariants
  import opened Simulation
  import KeyLoop
  import P = Paging
  import AP = ActionPrediction

  /** A table that has loaded one row. */
  function OneLoaded(row: Row): Table {
    EMPTY_TABLE.(cells := map[row.id := Cell(row, Loaded)])
  }

  /** It is what the empty table becomes when a reply brings the row. */
  lemma {:induction false} OneLoadedIsReached(row: Row)
    ensures Step(EMPTY_TABLE, ReplyOp([row], None, 0)) == OneLoaded(row).(told := [{row.id}])
  {
    var rows := [row];
    assert rows[..0] == [];
    assert RowCells(rows) == map[row.id := Cell(row, Loaded)];
    assert EMPTY_TABLE.cells + RowCells(rows) == RowCells(rows);
    assert IdsOf(rows) == {row.id} by { assert rows[0] == row; }
  }

  lemma {:induction false} OneLoadedIsFine(row: Row)
    requires row.id < BASE_DRAFT_ID
    ensures TableInvariants.Inv(OneLoaded(row)) && BaseView(OneLoaded(row)) == map[row.id := Cell(row, Loaded)]
  {
    assert DraftIds(OneLoaded(row).adds) == [];
  }

  // ---------------------------------------------------------------- draft edits

  function JustNamed(name: string): Fields {
    map[NAME_KEY := Text(name)]
  }

  /** A group that was added with a name and is then given tags: the edit never returns. */
  lemma {:induction false} TaggingAnAddHangs(name: string, tags: seq<string>)
    ensures var t := DraftAddRow(EMPTY_TABLE, JustNamed(name));
      EditHangs(t, NextDraftId({}), map[TAGS_KEY := Texts(tags)])
  {
    var t := DraftAddRow(EMPTY_TABLE, JustNamed(name));
    assert EMPTY_TABLE.cells.Keys == {};
    assert DraftIdOf(t.adds[0]) == NextDraftId({});
    assert TAGS_KEY !in t.adds[0];
  }

  /** However often its loop goes round, the key stays on the list. */
  lemma {:induction false} TagsStayListed(name: string, tags: seq<string>, n: nat)
    ensures var s := KeyLoop.LoopState([TAGS_KEY], JustNamed(name));
      KeyLoop.Passes(s, map[TAGS_KEY := Texts(tags)], n).keys == [TAGS_KEY]
  {
    if n > 0 {
      TagsStayListed(name, tags, n - 1);
    }
  }

  /** Giving a loaded row another ID is refused, but the row is left without name and tags, and without a backup. */
  lemma {:induction false} RefusedEditEmptiesRow(row: Row, other: nat)
    requires row.id < BASE_DRAFT_ID && other != row.id && (row.name != "" || row.tags != [])
    ensures var r := DraftEditRow(OneLoaded(row), row.id, map[ID_KEY := Number(other)]);
      && BaseView(r) == map[row.id := Cell(Row(row.id, "", []), Loaded)]
      && BaseView(r) != BaseView(OneLoaded(row)) && r.backups == map[]
  {
    var changes: Fields := map[ID_KEY := Number(other)];
    OneLoadedIsFine(row);
    assert Overlay(changes, row).id == other;
    DraftEditBaseView(OneLoaded(row), row.id, changes);
    assert BaseView(OneLoaded(row))[row.id].row == row;
  }

  // ---------------------------------------------------------------- pending edits

  /** A row that is loaded, renamed and submitted. */
  function Submitted(row: Row, name: string): Table {
    MarkEditsPending(DraftEditRow(OneLoaded(row), row.id, JustNamed(name)))
  }

  lemma {:induction false} SubmittedIs(row: Row, name: string)
    ensures var t := Submitted(row, name);
      && t.cells == map[row.id := Cell(row.(name := name), PendingEdit)]
      && t.backups == map[row.id := Cell(row, Loaded)] && t.adds == [] && t.pending && t.shown == []
  {
    assert Overlay(JustNamed(name), row) == row.(name := name);
  }

  /** When the backend deletes it, its backup stays, with no row under it. */
  lemma {:induction false} DeletedUnderEdit(row: Row, name: string)
    ensures var t := DeleteRow(Submitted(row, name), row.id);
      && t.cells == map[] && t.backups == map[row.id := Cell(row, Loaded)] && t.adds == [] && t.pending
  {
    SubmittedIs(row, name);
  }

  /** When the backend then adds a row with the same ID, a reset presents the placeholder as loaded. */
  lemma {:induction false} PlaceholderLooksLoaded(row: Row, name: string, now: int)
    requires row.id < BASE_DRAFT_ID
    ensures var t := GetNew(DeleteRow(Submitted(row, name), row.id), row.id, now);
      && BaseView(t) == map[row.id := Cell(Row(row.id, "", []), Loading)] && !Restorable(t)
      && ResetEdits(t).Some? && ResetEdits(t).value.cells == map[row.id := Cell(Row(row.id, "", []), Loaded)]
  {
    DeletedUnderEdit(row, name);
    var u := DeleteRow(Submitted(row, name), row.id);
    var t := GetNew(u, row.id, now);
    assert t.cells == map[row.id := Cell(Row(row.id, "", []), Loading)];
    PlaceholderReset(t, row, Row(row.id, "", []));
  }

  lemma {:induction false} PlaceholderReset(t: Table, row: Row, empty: Row)
    requires row.id == empty.id < BASE_DRAFT_ID && t.adds == [] && t.pending
    requires t.cells == map[row.id := Cell(empty, Loading)] && t.backups == map[row.id := Cell(row, Loaded)]
    ensures BaseView(t) == map[row.id := Cell(empty, Loading)] && !Restorable(t)
    ensures ResetEdits(t).Some? && ResetEdits(t).value.cells == map[row.id := Cell(empty, Loaded)]
  {
    OneBackupIsFine(t, row);
    ResetIs(t);
    OneRestored(t.cells, t.backups, row);
    assert row.id in t.cells && row.id in t.backups && IsUnedited(t.cells[row.id].state);
  }

  lemma {:induction false} OneBackupIsFine(t: Table, row: Row)
    requires row.id < BASE_DRAFT_ID && t.adds == [] && t.pending && t.cells.Keys == {row.id}
    requires t.cells[row.id].row.id == row.id && !IsDraft(t.cells[row.id].state) && !IsLocalAdd(t.cells[row.id].state)
    requires t.backups == map[row.id := Cell(row, Loaded)]
    ensures TableInvariants.Inv(t) && NoDraftAdd(t)
  {
    assert DraftIds(t.adds) == [];
  }

  lemma {:induction false} OneRestored(cells: map<nat, Cell>, backups: map<nat, Cell>, row: Row)
    requires cells.Keys == {row.id} && !IsLocalAdd(cells[row.id].state) && backups == map[row.id := Cell(row, Loaded)]
    ensures Restored(cells, backups, backups.Keys) == map[row.id := RestoredCell(cells[row.id], Cell(row, Loaded))]
  {
  }

  /** When the backend changes it instead, the change is not marked, and a reset presents the old row as loaded
      where a cache without editing has it stale. */
  lemma {:induction false} OutdatedRowLooksLoaded(row: Row, name: string, now: int)
    requires row.id < BASE_DRAFT_ID
    ensures var t := MarkStale(Submitted(row, name), row.id, now);
      && ResetEdits(t).Some? && ResetEdits(t).value.cells == map[row.id := Cell(row, Loaded)]
      && PlainStep(BaseView(Submitted(row, name)), JournalModifyOp(row.id, now)) == map[row.id := Cell(row, Stale)]
  {
    SubmittedIs(row, name);
    var s := Submitted(row, name);
    var t := MarkStale(s, row.id, now);
    MarkStaleIs(s, row.id, now);
    EditReset(t, row, row.(name := name));
    EditReset(s, row, row.(name := name));
  }

  lemma {:induction false} EditReset(t: Table, row: Row, edited: Row)
    requires row.id == edited.id < BASE_DRAFT_ID && t.adds == [] && t.pending
    requires t.cells == map[row.id := Cell(edited, PendingEdit)] && t.backups == map[row.id := Cell(row, Loaded)]
    ensures BaseView(t) == map[row.id := Cell(row, Loaded)]
    ensures ResetEdits(t).Some? && ResetEdits(t).value.cells == map[row.id := Cell(row, Loaded)]
  {
    OneBackupIsFine(t, row);
    ResetIs(t);
    OneRestored(t.cells, t.backups, row);
  }

  // ---------------------------------------------------------------- refreshes

  /** A full refresh from an empty backend, answered by one page without rows, leaves the row where it was. */
  lemma {:induction false} DroppedRowStays(row: Row)
    requires row.id < BASE_DRAFT_ID
    ensures P.Follow(map[], 0, [P.Part([], None)]) && P.Complete([P.Part([], None)])
    ensures BaseView(P.Receive(OneLoaded(row), [P.Part([], None)], 0)) == map[row.id := Cell(row, Loaded)]
  {
    var part := P.Part([], None);
    assert IdsOf(part.rows) == {};
    assert [part][1..] == [];
    OneLoadedIsFine(row);
  }

  // ---------------------------------------------------------------- predicted actions

  /** A group with one voter. */
  function OneVoter(group: string, voter: string, weight: nat): AP.State {
    AP.State(OneLoaded(Row(1, group, [])), map[1 := AP.Members(map[voter := AP.Member(weight, [], Loaded, {})], false)])
  }

  /** The same group after the action that removes the voter. */
  function VoterGone(group: string, voter: string, weight: nat): AP.State {
    var gone := AP.Member(weight, [], DraftDelete, {});
    AP.State(OneLoaded(Row(1, group, [])), map[1 := AP.Members(map[voter := gone], false)])
  }

  lemma {:induction false} OnlyGroup(s: AP.State, group: string)
    requires s.groups == OneLoaded(Row(1, group, []))
    ensures AP.FindGroup(s.groups.cells, group) == Some(1)
    ensures forall name :: name != group ==> AP.FindGroup(s.groups.cells, name) == None
  {
    assert AP.UniqueNames(s.groups.cells);
    AP.FindGroupIs(s.groups.cells, group);
    assert 1 in s.groups.cells && s.groups.cells[1].row.name == group;
    forall name | name != group ensures AP.FindGroup(s.groups.cells, name) == None {
      AP.FindGroupIs(s.groups.cells, name);
    }
  }

  lemma {:induction false} VoterIsRemoved(group: string, voter: string, weight: nat)
    ensures AP.Process(OneVoter(group, voter, weight), AP.VoterRemove(group, voter)) == VoterGone(group, voter, weight)
    ensures AP.Ready(OneVoter(group, voter, weight)) && AP.Ready(VoterGone(group, voter, weight))
  {
    var s, m := OneVoter(group, voter, weight), AP.MembersOf(OneVoter(group, voter, weight), 1);
    OnlyGroup(s, group);
    OneLoadedIsFine(Row(1, group, []));
    assert AP.Process(s, AP.VoterRemove(group, voter)) == AP.WithMembers(s, 1, AP.DeleteMember(m, voter));
    assert AP.DeleteMember(m, voter).rows == map[voter := AP.Member(weight, [], DraftDelete, {})];
  }

  lemma {:induction false} GoneIsUnpredictable(group: string, voter: string, weight: nat, again: nat, copy: string)
    ensures !AP.Predictable(VoterGone(group, voter, weight), AP.VoterAdd(group, voter, again))
    ensures copy != group ==> !AP.Predictable(VoterGone(group, voter, weight), AP.GroupCopy(group, copy))
  {
    var s := VoterGone(group, voter, weight);
    OnlyGroup(s, group);
    var m := AP.MembersOf(s, 1);
    assert voter in m.rows && m.rows[voter].state.DraftDelete?;
  }

  /** Adding the removed voter again is lost: the contract has him, with any weight, and the user does not see him. */
  lemma {:induction false} ReaddedVoterIsMissing(group: string, voter: string, weight: nat, again: nat)
    ensures var s, a := VoterGone(group, voter, weight), AP.VoterAdd(group, voter, again);
      AP.ViewOf(AP.Process(s, a)) != AP.Perform(AP.ViewOf(s), a)
  {
    VoterIsRemoved(group, voter, weight);
    GoneIsUnpredictable(group, voter, weight, again, group);
    Mispredicted(VoterGone(group, voter, weight), AP.VoterAdd(group, voter, again));
  }

  /** Copying the group brings the removed voter back: the contract's copy does not have him. */
  lemma {:induction false} CopiedVoterReturns(group: string, voter: string, weight: nat, copy: string)
    requires copy != group
    ensures var s, a := VoterGone(group, voter, weight), AP.GroupCopy(group, copy);
      AP.ViewOf(AP.Process(s, a)) != AP.Perform(AP.ViewOf(s), a)
  {
    VoterIsRemoved(group, voter, weight);
    GoneIsUnpredictable(group, voter, weight, 0, copy);
    Mispredicted(VoterGone(group, voter, weight), AP.GroupCopy(group, copy));
  }

  lemma {:induction false} Mispredicted(s: AP.State, a: AP.Action)
    requires AP.Ready(s) && !AP.Predictable(s, a)
    ensures AP.ViewOf(AP.Process(s, a)) != AP.Perform(AP.ViewOf(s), a)
  {
    AP.ActionIsPredicted(s, a);
  }
}
