/** What actions do to the rows of the member tables, beyond the weights that the user sees. */
module MemberEdits {
  import opened TableTypes
  import opened TableSpec
  import opened ActionPrediction
  import KeyLoop

  // ---------------------------------------------------------------- rows of the backend

  /** What becomes of a backend row: it keeps its tags, it is as it was unless it is marked edited or deleted, and a
      deletion is never taken back. */
  predicate Kept(was: Member, now: Member) {
    && !now.state.DraftAdd? && now.tags == was.tags
    && (now.state.DraftEdit? || now.state.DraftDelete? || now == was)
    && (was.state.DraftDelete? ==> now == was)
  }

  ghost predicate KeepsRows(m: Members, r: Members) {
    forall voter :: voter in m.rows && !m.rows[voter].state.DraftAdd? ==>
      voter in r.rows && Kept(m.rows[voter], r.rows[voter])
  }

  ghost predicate KeepsBackendRows(s: State, r: State) {
    forall id :: KeepsRows(MembersOf(s, id), MembersOf(r, id))
  }

  lemma {:induction false} MembersKeep(s: State, id: nat, m: Members)
    requires KeepsRows(MembersOf(s, id), m)
    ensures KeepsBackendRows(s, WithMembers(s, id, m))
  {
    forall k ensures KeepsRows(MembersOf(s, k), MembersOf(WithMembers(s, id, m), k)) {
      if k != id {
        assert MembersOf(WithMembers(s, id, m), k) == MembersOf(s, k);
      }
    }
  }

  lemma {:induction false} ActionKeepsRows(s: State, a: Action)
    ensures KeepsBackendRows(s, Process(s, a))
  {
    match a
    case VoterAdd(group, voter, weight) =>
      var s1 := EnsureGroup(s, group);
      var found := FindGroup(s1.groups.cells, group);
      if found.Some? {
        var m := MembersOf(s1, found.value);
        var row := Member(weight, [], DraftAdd, {ACCOUNT_KEY, WEIGHT_KEY});
        MembersKeep(s1, found.value, EditMember(m, voter, weight));
        MembersKeep(s1, found.value, AddMember(m, voter, row));
      }
    case VoterRemove(group, voter) =>
      var found := FindGroup(s.groups.cells, group);
      if found.Some? && voter in MembersOf(s, found.value).rows {
        MembersKeep(s, found.value, DeleteMember(MembersOf(s, found.value), voter));
      }
    case GroupRename(_, _) =>
    case GroupCopy(group, newName) =>
      var found, s1 := FindGroup(s.groups.cells, group), EnsureGroup(s, newName);
      var target := FindGroup(s1.groups.cells, newName);
      if found.Some? && target.Some? {
        MembersKeep(s1, target.value, CopyMembers(MembersOf(s1, target.value), MembersOf(s1, found.value)));
      }
  }

  /** Over every list of actions, predictable or not, no row of the backend leaves its table or loses its tags, and one
      that is not marked edited or deleted shows the backend's weight. */
  lemma {:induction false} BackendRowsStay(s: State, actions: seq<Action>)
    ensures KeepsBackendRows(s, ApplyActions(s, actions))
  {
    if actions != [] {
      var n := |actions| - 1;
      var u, r := ApplyActions(s, actions[..n]), ApplyActions(s, actions);
      BackendRowsStay(s, actions[..n]);
      ActionKeepsRows(u, actions[n]);
      forall id ensures KeepsRows(MembersOf(s, id), MembersOf(r, id)) {
        assert KeepsRows(MembersOf(s, id), MembersOf(u, id)) && KeepsRows(MembersOf(u, id), MembersOf(r, id));
      }
    }
  }

  // ---------------------------------------------------------------- new rows

  /** A voter without a row gets one with the weight and without tags, recorded under its account and weight. */
  lemma {:induction false} NewMemberIs(s: State, group: string, voter: string, weight: nat, id: nat)
    requires Ready(s) && FindGroup(s.groups.cells, group) == Some(id) && voter !in MembersOf(s, id).rows
    ensures var was, now := MembersOf(s, id), MembersOf(Process(s, VoterAdd(group, voter, weight)), id);
      && now.pending == was.pending && now.rows.Keys == was.rows.Keys + {voter}
      && (forall other :: other in was.rows ==> now.rows[other] == was.rows[other])
      && now.rows[voter].weight == weight && now.rows[voter].tags == [] && now.rows[voter].state.DraftAdd?
      && now.rows[voter].recorded == {"account", "weight"}
  {
    MembersReady(s, id);
  }

  /** A shown voter who is given another weight keeps the rest of his row, and is marked as edited unless he is a local
      add. */
  lemma {:induction false} EditedMemberIs(s: State, group: string, voter: string, weight: nat, id: nat)
    requires Ready(s) && FindGroup(s.groups.cells, group) == Some(id) && voter in MembersOf(s, id).rows
    requires MembersOf(s, id).rows[voter].weight != weight && !MembersOf(s, id).rows[voter].state.DraftDelete?
    ensures var was, now := MembersOf(s, id).rows, MembersOf(Process(s, VoterAdd(group, voter, weight)), id).rows;
      && now.Keys == was.Keys && (forall other :: other in was && other != voter ==> now[other] == was[other])
      && now[voter].weight == weight && now[voter].tags == was[voter].tags && now[voter].recorded == was[voter].recorded
      && (if was[voter].state.DraftAdd? then now[voter].state.DraftAdd? else now[voter].state.DraftEdit?)
  {
    MembersReady(s, id);
  }

  /** A removed voter of the backend keeps his row, marked as deleted. */
  lemma {:induction false} RemovedMemberIs(s: State, group: string, voter: string, id: nat)
    requires Ready(s) && FindGroup(s.groups.cells, group) == Some(id) && voter in MembersOf(s, id).rows
    requires !MembersOf(s, id).rows[voter].state.DraftAdd?
    ensures var was, now := MembersOf(s, id).rows, MembersOf(Process(s, VoterRemove(group, voter)), id).rows;
      && now.Keys == was.Keys && (forall other :: other in was && other != voter ==> now[other] == was[other])
      && now[voter].weight == was[voter].weight && now[voter].tags == was[voter].tags && now[voter].state.DraftDelete?
  {
    MembersReady(s, id);
  }

  /** The copy of a group has each row of the group, as a local add with the same weight and tags and a full record. */
  lemma {:induction false} CopiedRowsAre(s: State, group: string, newName: string, id: nat)
    requires Ready(s) && FindGroup(s.groups.cells, group) == Some(id) && FindGroup(s.groups.cells, newName).None?
    ensures var r := Process(s, GroupCopy(group, newName));
      var found := FindGroup(r.groups.cells, newName);
      && found.Some? && found.value !in s.groups.cells && MembersOf(r, id) == MembersOf(s, id)
      && var was, now := MembersOf(s, id), MembersOf(r, found.value);
         now.rows.Keys == was.rows.Keys && forall voter :: voter in was.rows ==>
           && now.rows[voter].weight == was.rows[voter].weight && now.rows[voter].tags == was.rows[voter].tags
           && now.rows[voter].state.DraftAdd? && now.rows[voter].recorded == {"account", "weight", "tags"}
  {
    hide Shows, Ready, EnsureGroup, CopyMembers, MembersOf, FindGroup;
    var v, s1 := ViewOf(s), EnsureGroup(s, newName);
    ViewOfIsShown(s);
    FoundIsShown(s, v, group);
    FoundIsShown(s, v, newName);
    EnsuredGroup(s, v, newName);
    var target := FindGroup(s1.groups.cells, newName).value;
    CopyIs(s, group, newName, s1, target, MembersOf(s, id));
    EmptyTarget(s, s1, target);
    CopiedIntoEmpty(MembersOf(s1, target), MembersOf(s, id));
    CopyElsewhere(s, s1, id, target, CopyMembers(MembersOf(s1, target), MembersOf(s, id)));
  }

  lemma {:induction false} EmptyTarget(s: State, s1: State, target: nat)
    requires Ready(s1) && Ready(s) && s1.members == s.members && target !in s.groups.cells
    ensures MembersOf(s1, target).rows == map[] && !MembersOf(s1, target).pending
  {
    NoMembersYet(s1, target, s);
    MembersReady(s1, target);
  }

  lemma {:induction false} CopyElsewhere(s: State, s1: State, id: nat, target: nat, m: Members)
    requires s1.members == s.members && id != target
    ensures var r := WithMembers(s1, target, m);
      r.groups == s1.groups && MembersOf(r, id) == MembersOf(s, id) && MembersOf(r, target) == m
  {
  }

  lemma {:induction false} CopiedIntoEmpty(target: Members, source: Members)
    requires target.rows == map[] && !target.pending
    ensures var now := CopyMembers(target, source);
      now.rows.Keys == source.rows.Keys && forall voter :: voter in source.rows ==>
        && now.rows[voter].weight == source.rows[voter].weight && now.rows[voter].tags == source.rows[voter].tags
        && now.rows[voter].state.DraftAdd? && now.rows[voter].recorded == {"account", "weight", "tags"}
  {
  }

  // ---------------------------------------------------------------- actions without effect

  /** An action that the contract would do nothing for leaves every table as it is, edit marks included. */
  lemma {:induction false} NoNewsNoEdit(s: State, a: Action)
    requires Ready(s) && Perform(ViewOf(s), a) == ViewOf(s)
    ensures Process(s, a) == s
  {
    var v := ViewOf(s);
    ViewOfIsShown(s);
    match a
    case VoterAdd(group, voter, weight) =>
      FoundIsShown(s, v, group);
      assert Perform(v, a)[group][voter] == weight;
    case VoterRemove(group, voter) => RemovalOfAbsent(s, v, group, voter);
    case GroupRename(group, newName) =>
      FoundIsShown(s, v, group);
      FoundIsShown(s, v, newName);
      assert group in v && newName !in v ==> newName in Perform(v, a);
    case GroupCopy(group, newName) =>
      FoundIsShown(s, v, group);
      FoundIsShown(s, v, newName);
      assert group in v && newName !in v ==> newName in Perform(v, a);
  }

  lemma {:induction false} RemovalOfAbsent(s: State, v: View, group: string, voter: string)
    requires Ready(s) && Shows(s, v) && Perform(v, VoterRemove(group, voter)) == v
    ensures Process(s, VoterRemove(group, voter)) == s
  {
    FoundIsShown(s, v, group);
    if group in v {
      var id := FindGroup(s.groups.cells, group).value;
      var m := MembersOf(s, id);
      MembersReady(s, id);
      assert voter !in Perform(v, VoterRemove(group, voter))[group];
      if voter in m.rows {
        assert m.rows[voter].state.DraftDelete?;
        assert DeleteMember(m, voter) == m;
        assert s.members[id := m] == s.members;
      }
    }
  }

  /** A predictable action changes the tables exactly if the contract has something to do. */
  lemma {:induction false} EditIffNews(s: State, a: Action)
    requires Ready(s) && Predictable(s, a)
    ensures Process(s, a) == s <==> Perform(ViewOf(s), a) == ViewOf(s)
  {
    ActionIsPredicted(s, a);
    if Perform(ViewOf(s), a) == ViewOf(s) {
      NoNewsNoEdit(s, a);
    }
  }

  // ---------------------------------------------------------------- the loop behind an edit of a local add

  /** Giving a voter another weight hangs exactly if he is a local add and the loop over his record never ends,
      whatever values the record and the edit hold. */
  lemma {:induction false} EditMemberHangsIff(m: Members, voter: string, record: Fields, changes: Fields)
    requires !m.pending && voter in m.rows
    requires record.Keys == m.rows[voter].recorded && changes.Keys == {"weight"}
    ensures EditMemberHangs(m, voter) <==>
      && m.rows[voter].state.DraftAdd?
      && forall n: nat :: KeyLoop.Passes(KeyLoop.LoopState(["weight"], record), changes, n).keys != []
  {
    var loop := KeyLoop.LoopState(["weight"], record);
    assert KeyLoop.Lists(loop.keys, changes);
    KeyLoop.LoopEnds(loop, changes);
    assert "weight" in record <==> changes.Keys <= record.Keys;
  }
}
