/** The controller that turns actions into draft edits of a groups table and of the groups' member tables. */
module TableEditControllers {
  import opened TableTypes
  import opened TableSpec
  import opened SortedRows
  import opened AbstractTables
  import opened ActionPrediction

  class TableEditController {
    const groups: AbstractTable
    var members: map<nat, Members>

    constructor (groups: AbstractTable)
      ensures this.groups == groups && members == map[]
    {
      this.groups, members := groups, map[];
    }

    ghost predicate Valid()
      reads this, groups, groups.backups, groups.models
    {
      groups.Valid()
    }

    ghost function State(): State
      reads this, groups, groups.backups, groups.models
      requires Valid()
    {
      ActionPrediction.State(groups.Abs(), members)
    }

    /** The member table of a group, an empty one if there is none yet. */
    method GetGroupMembersTable(id: nat) returns (m: Members)
      requires Valid()
      ensures m == MembersOf(State(), id)
    {
      m := if id in members then members[id] else Members(map[], false);
    }

    method FindGroupRow(name: string) returns (row: Option<Row>)
      requires Valid()
      ensures FindGroup(State().groups.cells, name) == if row.Some? then Some(row.value.id) else None
    {
      var found := groups.FindRowIf((r: Row) => r.name == name);
      row := if found.Some? then Some(found.value.row) else None;
      if row.Some? {
        assert row.value.id in IdsNamed(State().groups.cells, name);
      }
    }

    /** The row of a group, which is added if there is none. */
    method EnsureGroupRow(name: string) returns (row: Option<Row>)
      requires Valid()
      modifies groups, groups.backups, groups.models
      ensures Valid() && State() == EnsureGroup(old(State()), name) && groups.models == old(groups.models)
      ensures FindGroup(State().groups.cells, name) == if row.Some? then Some(row.value.id) else None
    {
      hide TableSpec.DraftAddRow, AbstractTable.Valid;
      row := FindGroupRow(name);
      if row.None? {
        groups.DraftAddRow(NameField(name));
        row := FindGroupRow(name);
      }
    }

    method ProcessVoterAdd(group: string, voter: string, weight: nat) returns (hung: bool)
      requires Valid()
      modifies this`members, groups, groups.backups, groups.models
      ensures hung <==> Hangs(old(State()), VoterAdd(group, voter, weight))
      ensures Valid() && groups.models == old(groups.models)
      ensures !hung ==> State() == Process(old(State()), VoterAdd(group, voter, weight))
    {
      hung := false;
      var groupRow := EnsureGroupRow(group);
      if groupRow.Some? {
        hung := AddVoter(groupRow.value.id, voter, weight);
      }
    }

    method AddVoter(id: nat, voter: string, weight: nat) returns (hung: bool)
      requires Valid()
      modifies this`members
      ensures Valid() && groups.models == old(groups.models)
      ensures var m := MembersOf(old(State()), id);
        hung <==> VoterAddHangs(m, voter, weight)
      ensures !hung ==> State() == VoterAdded(old(State()), id, voter, weight)
    {
      hung := false;
      var table := GetGroupMembersTable(id);
      if voter in table.rows {
        if table.rows[voter].weight == weight {
          return;
        }
        if !table.pending && table.rows[voter].state.DraftAdd? && WEIGHT_KEY !in table.rows[voter].recorded {
          return true;
        }
        members := members[id := EditMember(table, voter, weight)];
      } else {
        members := members[id := AddMember(table, voter, Member(weight, [], DraftAdd, {ACCOUNT_KEY, WEIGHT_KEY}))];
      }
    }

    method ProcessVoterRemove(group: string, voter: string)
      requires Valid()
      modifies this`members
      ensures Valid() && State() == Process(old(State()), VoterRemove(group, voter))
    {
      var groupRow := FindGroupRow(group);
      if groupRow.None? {
        return;
      }
      var table := GetGroupMembersTable(groupRow.value.id);
      if voter in table.rows {
        members := members[groupRow.value.id := DeleteMember(table, voter)];
      }
    }

    method ProcessGroupRename(group: string, newName: string) returns (hung: bool)
      requires Valid()
      modifies groups, groups.backups, groups.models
      ensures hung <==> Hangs(old(State()), GroupRename(group, newName))
      ensures !hung ==> Valid() && groups.models == old(groups.models)
      ensures !hung ==> State() == Process(old(State()), GroupRename(group, newName))
    {
      hung := false;
      if group == newName {
        return;
      }
      var groupRow := FindGroupRow(group);
      if groupRow.None? {
        return;
      }
      var newGroupRow := FindGroupRow(newName);
      if newGroupRow.Some? {
        return;
      }
      hung := groups.DraftEditRow(groupRow.value.id, NameField(newName));
    }

    method ProcessGroupCopy(group: string, newName: string)
      requires Valid()
      modifies this`members, groups, groups.backups, groups.models
      ensures Valid() && State() == Process(old(State()), GroupCopy(group, newName)) &&
        groups.models == old(groups.models)
    {
      if group == newName {
        return;
      }
      var groupRow := FindGroupRow(group);
      var newGroupRow := FindGroupRow(newName);
      if groupRow.None? || newGroupRow.Some? {
        return;
      }
      newGroupRow := EnsureGroupRow(newName);
      if newGroupRow.Some? {
        CopyAll(groupRow.value.id, newGroupRow.value.id);
      }
    }

    method CopyAll(sourceId: nat, targetId: nat)
      requires Valid()
      modifies this`members
      ensures Valid() && groups.models == old(groups.models)
      ensures State() == WithMembers(old(State()), targetId,
                                     CopyMembers(MembersOf(old(State()), targetId), MembersOf(old(State()), sourceId)))
    {
      var source := GetGroupMembersTable(sourceId);
      var target := GetGroupMembersTable(targetId);
      target := AddAll(target, source);
      members := members[targetId := target];
    }

    /** Adds the rows of one table to another, one after the other. */
    method AddAll(target: Members, source: Members) returns (r: Members)
      ensures r == CopyMembers(target, source)
    {
      r := target;
      var left := source.rows.Keys;
      ghost var done: map<string, Member> := map[];
      assert r == CopyMembers(target, Members(done, source.pending));
      while left != {}
        invariant left <= source.rows.Keys && done == source.rows - left
        invariant r == CopyMembers(target, Members(done, source.pending))
      {
        var account :| account in left;
        CopyOneMore(target, source.pending, done, account, source.rows[account]);
        r := AddMember(r, account, source.rows[account].(recorded := {ACCOUNT_KEY, WEIGHT_KEY, TAGS_KEY}));
        done := done[account := source.rows[account]];
        left := left - {account};
      }
      assert done == source.rows;
    }

    /** Applies the actions in order; `hung` stands for never returning. */
    method ApplyActions(actions: seq<Action>) returns (hung: bool)
      requires Valid()
      modifies this`members, groups, groups.backups, groups.models
      ensures hung <==> HangsWithin(old(State()), actions)
      ensures !hung ==> Valid() && State() == ActionPrediction.ApplyActions(old(State()), actions)
    {
      hung := false;
      ghost var start := State();
      for k := 0 to |actions|
        invariant Valid() && State() == ActionPrediction.ApplyActions(start, actions[..k])
        invariant groups.models == old(groups.models)
        invariant !HangsBefore(start, actions, k)
      {
        hung := ApplyNext(start, actions, k);
        if hung {
          HangsLater(start, actions, k, |actions|);
          return;
        }
      }
      assert actions[..|actions|] == actions;
    }

    method ApplyNext(ghost start: State, actions: seq<Action>, k: nat) returns (hung: bool)
      requires Valid() && k < |actions| && State() == ActionPrediction.ApplyActions(start, actions[..k])
      modifies this`members, groups, groups.backups, groups.models
      ensures hung <==> HangsAt(start, actions, k)
      ensures !hung ==> Valid() && groups.models == old(groups.models)
      ensures !hung ==> State() == ActionPrediction.ApplyActions(start, actions[..k + 1])
    {
      OneMoreAction(start, actions, k);
      hung := ProcessAction(actions[k]);
    }

    method ProcessAction(action: Action) returns (hung: bool)
      requires Valid()
      modifies this`members, groups, groups.backups, groups.models
      ensures hung <==> Hangs(old(State()), action)
      ensures !hung ==> Valid() && groups.models == old(groups.models)
      ensures !hung ==> State() == Process(old(State()), action)
    {
      hung := false;
      match action {
        case VoterAdd(group, voter, weight) => hung := ProcessVoterAdd(group, voter, weight);
        case VoterRemove(group, voter) => ProcessVoterRemove(group, voter);
        case GroupRename(group, newName) => hung := ProcessGroupRename(group, newName);
        case GroupCopy(group, newName) => ProcessGroupCopy(group, newName);
      }
    }
  }
}
