/** Which lists of actions are predicted right, told from the starting tables and the list alone. */
module Rosters {
  import opened TableTypes
  import opened TableSpec
  import opened TableInvariants
  import opened ActionPrediction

  /** The voters of a group that the backend has, and those of them that have been removed. */
  datatype Roster = Roster(backend: set<string>, gone: set<string>)

  const NEW_GROUP := Roster({}, {})

  type Rosters = map<string, Roster>

  function RosterOf(m: Members): Roster {
    Roster(set voter | voter in m.rows && !m.rows[voter].state.DraftAdd?,
           set voter | voter in m.rows && m.rows[voter].state.DraftDelete?)
  }

  /** The rosters of the groups at the start, by name. */
  ghost function StartingRosters(s: State): Rosters {
    map name | name in (set id | id in s.groups.cells :: s.groups.cells[id].row.name) ::
      var found := FindGroup(s.groups.cells, name);
      if found.Some? then RosterOf(MembersOf(s, found.value)) else NEW_GROUP
  }

  /** What an action makes of them: a removed backend voter is gone, a renamed group keeps its roster, and a new group
      has only voters that the backend does not have. */
  function Follow(h: Rosters, a: Action): Rosters {
    match a
    case VoterAdd(group, _, _) => if group in h then h else h[group := NEW_GROUP]
    case VoterRemove(group, voter) =>
      if group in h && voter in h[group].backend then h[group := h[group].(gone := h[group].gone + {voter})] else h
    case GroupRename(group, newName) =>
      if group in h && newName !in h then (h - {group})[newName := h[group]] else h
    case GroupCopy(group, newName) => if group in h && newName !in h then h[newName := NEW_GROUP] else h
  }

  function FollowAll(h: Rosters, actions: seq<Action>): Rosters {
    if actions == [] then h else Follow(FollowAll(h, actions[..|actions| - 1]), actions[|actions| - 1])
  }

  /** The action would bring a removed backend voter back: it adds him again, or copies his group under a free name. */
  predicate BringsBack(h: Rosters, a: Action) {
    match a
    case VoterAdd(group, voter, _) => group in h && voter in h[group].gone
    case GroupCopy(group, newName) => group in h && newName !in h && h[group].gone != {}
    case _ => false
  }

  /** No action brings back a voter whom the backend had at the start and whom an earlier action removed. */
  ghost predicate NoneComesBack(h: Rosters, actions: seq<Action>) {
    forall k :: 0 <= k < |actions| ==> !BringsBack(FollowAll(h, actions[..k]), actions[k])
  }

  // ---------------------------------------------------------------- the tables have these rosters

  ghost predicate Fits(s: State, h: Rosters) {
    && (forall id :: id in s.groups.cells ==>
          s.groups.cells[id].row.name in h && h[s.groups.cells[id].row.name] == RosterOf(MembersOf(s, id)))
    && (forall name :: name in h ==> IdsNamed(s.groups.cells, name) != {})
  }

  lemma {:induction false} StartFits(s: State)
    requires Ready(s)
    ensures Fits(s, StartingRosters(s))
  {
    var h := StartingRosters(s);
    forall id | id in s.groups.cells
      ensures s.groups.cells[id].row.name in h && h[s.groups.cells[id].row.name] == RosterOf(MembersOf(s, id))
    {
      FindGroupIs(s.groups.cells, s.groups.cells[id].row.name);
    }
    forall name | name in h ensures IdsNamed(s.groups.cells, name) != {} {
      var id :| id in s.groups.cells && s.groups.cells[id].row.name == name;
      assert id in IdsNamed(s.groups.cells, name);
    }
  }

  lemma {:induction false} FoundFits(s: State, h: Rosters, name: string)
    requires UniqueNames(s.groups.cells) && Fits(s, h)
    ensures FindGroup(s.groups.cells, name).Some? <==> name in h
    ensures FindGroup(s.groups.cells, name).Some? ==>
      var id := FindGroup(s.groups.cells, name).value;
      id in s.groups.cells && s.groups.cells[id].row.name == name && h[name] == RosterOf(MembersOf(s, id))
  {
    FindGroupIs(s.groups.cells, name);
    if name in h {
      var id :| id in IdsNamed(s.groups.cells, name);
    }
  }

  /** Told from the rosters, an action is predictable exactly if it brings nobody back. */
  lemma {:induction false} PredictableIff(s: State, h: Rosters, a: Action)
    requires Ready(s) && Fits(s, h)
    ensures Predictable(s, a) <==> !BringsBack(h, a)
  {
    match a
    case VoterAdd(group, _, _) => FoundFits(s, h, group);
    case GroupCopy(group, newName) =>
      FoundFits(s, h, group);
      FoundFits(s, h, newName);
      if group in h && newName !in h {
        var m := MembersOf(s, FindGroup(s.groups.cells, group).value);
        assert forall voter :: voter in m.rows && m.rows[voter].state.DraftDelete? ==> voter in RosterOf(m).gone;
        assert RosterOf(m).gone != {} ==> exists voter :: voter in RosterOf(m).gone;
      }
    case _ =>
  }

  /** Changing the members of one group. */
  lemma {:induction false} MembersFit(s: State, h: Rosters, id: nat, m: Members)
    requires UniqueNames(s.groups.cells) && Fits(s, h) && id in s.groups.cells
    ensures Fits(WithMembers(s, id, m), h[s.groups.cells[id].row.name := RosterOf(m)])
  {
    hide RosterOf;
    var r := WithMembers(s, id, m);
    assert forall k :: k in s.groups.cells && k != id ==> MembersOf(r, k) == MembersOf(s, k);
  }

  lemma {:induction false} NewGroupFits(s: State, r: State, h: Rosters, id: nat, cell: Cell)
    requires Fits(s, h) && id !in s.groups.cells && cell.row.name !in h && MembersOf(s, id).rows == map[]
    requires r == s.(groups := r.groups) && r.groups.cells == s.groups.cells[id := cell]
    ensures Fits(r, h[cell.row.name := NEW_GROUP])
  {
    NewNameIsListed(s.groups.cells, h.Keys, id, cell);
    assert RosterOf(MembersOf(s, id)) == NEW_GROUP;
    var g := h[cell.row.name := NEW_GROUP];
    assert g.Keys == h.Keys + {cell.row.name};
    forall k | k in r.groups.cells
      ensures r.groups.cells[k].row.name in g && g[r.groups.cells[k].row.name] == RosterOf(MembersOf(r, k))
    {
      assert MembersOf(r, k) == MembersOf(s, k);
    }
  }

  lemma {:induction false} RenamedFits(s: State, r: State, h: Rosters, id: nat, newName: string)
    requires UniqueNames(s.groups.cells) && Fits(s, h) && id in s.groups.cells && newName !in h
    requires r == s.(groups := r.groups) && id in r.groups.cells
    requires r.groups.cells == s.groups.cells[id := r.groups.cells[id]]
    requires r.groups.cells[id].row.name == newName
    ensures var before := s.groups.cells[id].row.name; Fits(r, (h - {before})[newName := h[before]])
  {
    hide RosterOf;
    var before := s.groups.cells[id].row.name;
    var g := (h - {before})[newName := h[before]];
    forall k | k in r.groups.cells
      ensures r.groups.cells[k].row.name in g && g[r.groups.cells[k].row.name] == RosterOf(MembersOf(r, k))
    {
      assert MembersOf(r, k) == MembersOf(s, k);
    }
    forall name | name in g ensures IdsNamed(r.groups.cells, name) != {} {
      if name == newName {
        assert id in IdsNamed(r.groups.cells, name);
      } else {
        var k :| k in IdsNamed(s.groups.cells, name);
        assert k in IdsNamed(r.groups.cells, name);
      }
    }
  }

  // ---------------------------------------------------------------- member by member

  lemma {:induction false} AddedRoster(m: Members, voter: string, row: Member)
    requires voter !in m.rows
    ensures RosterOf(AddMember(m, voter, row)) == RosterOf(m)
  {
  }

  lemma {:induction false} EditedRoster(m: Members, voter: string, weight: nat)
    ensures RosterOf(EditMember(m, voter, weight)) == RosterOf(m)
  {
  }

  lemma {:induction false} DeletedRoster(m: Members, voter: string)
    requires !m.pending && voter in m.rows
    ensures var r := RosterOf(m);
      RosterOf(DeleteMember(m, voter)) == if voter in r.backend then r.(gone := r.gone + {voter}) else r
  {
  }

  lemma {:induction false} CopiedRoster(target: Members, source: Members)
    requires target.rows == map[]
    ensures RosterOf(CopyMembers(target, source)) == NEW_GROUP
  {
  }

  // ---------------------------------------------------------------- action by action

  lemma {:induction false} EnsuredFits(s: State, h: Rosters, name: string)
    requires Ready(s) && Fits(s, h)
    ensures var r := EnsureGroup(s, name);
      && Ready(r) && Fits(r, if name in h then h else h[name := NEW_GROUP]) && FindGroup(r.groups.cells, name).Some?
      && r.members == s.members
      && (name !in h ==> MembersOf(r, FindGroup(r.groups.cells, name).value).rows == map[])
  {
    var v := ViewOf(s);
    ViewOfIsShown(s);
    EnsuredGroup(s, v, name);
    FoundFits(s, h, name);
    FoundIsShown(s, v, name);
    if name !in h {
      var t, r := s.groups, EnsureGroup(s, name);
      var id := NextDraftId(t.cells.Keys);
      assert id !in t.cells.Keys;
      NoMembersYet(r, id, s);
      NewGroupFits(s, r, h, id, Cell(Row(id, name, []), DraftAdd));
      NoMembersYet(r, FindGroup(r.groups.cells, name).value, s);
    }
  }

  lemma {:induction false} VoterAddFits(s: State, h: Rosters, id: nat, group: string, voter: string, weight: nat)
    requires Ready(s) && Fits(s, h) && FindGroup(s.groups.cells, group) == Some(id)
    ensures Fits(VoterAdded(s, id, voter, weight), h)
  {
    hide RosterOf;
    FoundFits(s, h, group);
    var m := MembersOf(s, id);
    MembersReady(s, id);
    if voter !in m.rows {
      var row := Member(weight, [], DraftAdd, {ACCOUNT_KEY, WEIGHT_KEY});
      AddedRoster(m, voter, row);
      MembersFit(s, h, id, AddMember(m, voter, row));
    } else {
      EditedRoster(m, voter, weight);
      MembersFit(s, h, id, EditMember(m, voter, weight));
    }
    assert h[group := h[group]] == h;
  }

  lemma {:induction false} RemoveFits(s: State, h: Rosters, group: string, voter: string)
    requires Ready(s) && Fits(s, h)
    ensures Fits(Process(s, VoterRemove(group, voter)), Follow(h, VoterRemove(group, voter)))
  {
    FoundFits(s, h, group);
    if group in h {
      var id := FindGroup(s.groups.cells, group).value;
      var m := MembersOf(s, id);
      MembersReady(s, id);
      assert voter in h[group].backend ==> voter in m.rows;
      if voter in m.rows {
        DeletedRoster(m, voter);
        MembersFit(s, h, id, DeleteMember(m, voter));
        assert h[group := h[group]] == h;
      }
    }
  }

  lemma {:induction false} RenameFits(s: State, h: Rosters, group: string, newName: string)
    requires Ready(s) && Fits(s, h)
    ensures Fits(Process(s, GroupRename(group, newName)), Follow(h, GroupRename(group, newName)))
  {
    FoundFits(s, h, group);
    FoundFits(s, h, newName);
    if group in h && newName !in h {
      var id := FindGroup(s.groups.cells, group).value;
      RenamedCells(s, id, newName);
      RenamedFits(s, Process(s, GroupRename(group, newName)), h, id, newName);
    }
  }

  lemma {:induction false} CopyFits(s: State, h: Rosters, group: string, newName: string)
    requires Ready(s) && Fits(s, h)
    ensures Fits(Process(s, GroupCopy(group, newName)), Follow(h, GroupCopy(group, newName)))
  {
    FoundFits(s, h, group);
    FoundFits(s, h, newName);
    if group in h && newName !in h {
      CopyToNewFits(s, h, group, newName);
    }
  }

  lemma {:induction false} CopyToNewFits(s: State, h: Rosters, group: string, newName: string)
    requires Ready(s) && Fits(s, h) && group in h && newName !in h
    ensures Fits(Process(s, GroupCopy(group, newName)), h[newName := NEW_GROUP])
  {
    hide RosterOf, CopyMembers, EnsureGroup, MembersOf, FindGroup;
    FoundFits(s, h, group);
    FoundFits(s, h, newName);
    var s1, source := EnsureGroup(s, newName), MembersOf(s, FindGroup(s.groups.cells, group).value);
    EnsuredFits(s, h, newName);
    var h1, target := h[newName := NEW_GROUP], FindGroup(s1.groups.cells, newName).value;
    FoundFits(s1, h1, newName);
    CopyIs(s, group, newName, s1, target, source);
    CopiedRoster(MembersOf(s1, target), source);
    MembersFit(s1, h1, target, CopyMembers(MembersOf(s1, target), source));
    assert h1[newName := NEW_GROUP] == h1;
  }

  lemma {:induction false} ActionFits(s: State, h: Rosters, a: Action)
    requires Ready(s) && Fits(s, h)
    ensures Ready(Process(s, a)) && Fits(Process(s, a), Follow(h, a))
  {
    ReadyStays(s, a);
    match a
    case VoterAdd(group, voter, weight) =>
      EnsuredFits(s, h, group);
      var s1 := EnsureGroup(s, group);
      VoterAddFits(s1, Follow(h, a), FindGroup(s1.groups.cells, group).value, group, voter, weight);
    case VoterRemove(group, voter) => RemoveFits(s, h, group, voter);
    case GroupRename(group, newName) => RenameFits(s, h, group, newName);
    case GroupCopy(group, newName) => CopyFits(s, h, group, newName);
  }

  lemma {:induction false} ActionsFit(s: State, actions: seq<Action>)
    requires Ready(s)
    ensures Ready(ApplyActions(s, actions)) && Fits(ApplyActions(s, actions), FollowAll(StartingRosters(s), actions))
  {
    if actions == [] {
      StartFits(s);
    } else {
      var n := |actions| - 1;
      ActionsFit(s, actions[..n]);
      ActionFits(ApplyActions(s, actions[..n]), FollowAll(StartingRosters(s), actions[..n]), actions[n]);
    }
  }

  // ---------------------------------------------------------------- lists of actions

  /** Whether a list is predictable at every step can be told from the starting tables and the list alone. */
  lemma {:induction false} PredictableFromStart(s: State, actions: seq<Action>)
    requires Ready(s)
    ensures PredictableRun(s, actions) <==> NoneComesBack(StartingRosters(s), actions)
  {
    var h := StartingRosters(s);
    if actions != [] {
      var n := |actions| - 1;
      PredictableFromStart(s, actions[..n]);
      ActionsFit(s, actions[..n]);
      PredictableIff(ApplyActions(s, actions[..n]), FollowAll(h, actions[..n]), actions[n]);
      NoneComesBackStep(h, actions);
    }
  }

  lemma {:induction false} NoneComesBackStep(h: Rosters, actions: seq<Action>)
    requires actions != []
    ensures var n := |actions| - 1;
      NoneComesBack(h, actions) <==>
        NoneComesBack(h, actions[..n]) && !BringsBack(FollowAll(h, actions[..n]), actions[n])
  {
    hide BringsBack, FollowAll;
    var n := |actions| - 1;
    assert forall k :: 0 <= k < n ==> actions[..n][..k] == actions[..k] && actions[..n][k] == actions[k];
  }

  /** If no action adds a voter whom the backend had at the start and an earlier action removed, or copies the group of
      such a voter, the user sees after the actions what the contract will have done. */
  lemma {:induction false} SeenAsPerformed(s: State, actions: seq<Action>)
    requires Ready(s) && NoneComesBack(StartingRosters(s), actions)
    ensures ViewOf(ApplyActions(s, actions)) == PerformAll(ViewOf(s), actions)
  {
    PredictableFromStart(s, actions);
    ActionsArePredicted(s, actions);
  }

  // ---------------------------------------------------------------- a voter the backend does not have

  /** Removing a voter who was added locally leaves no row for him. */
  lemma {:induction false} RemovedAddIsGone(s: State, group: string, voter: string, id: nat)
    requires Ready(s) && FindGroup(s.groups.cells, group) == Some(id)
    requires voter in MembersOf(s, id).rows && MembersOf(s, id).rows[voter].state.DraftAdd?
    ensures MembersOf(Process(s, VoterRemove(group, voter)), id).rows == MembersOf(s, id).rows - {voter}
  {
    MembersReady(s, id);
  }

  function ComeAndGo(group: string, voter: string, first: nat, second: nat): seq<Action> {
    [VoterAdd(group, voter, first), VoterRemove(group, voter), VoterAdd(group, voter, second)]
  }

  /** A voter without a row at the start may be added, removed and added again, with any weights. */
  lemma {:induction false} AddRemoveAdd(s: State, group: string, voter: string, first: nat, second: nat)
    requires Ready(s)
    requires group in StartingRosters(s) ==> voter !in StartingRosters(s)[group].backend
    ensures var v := ViewOf(ApplyActions(s, ComeAndGo(group, voter, first, second)));
      && v == PerformAll(ViewOf(s), ComeAndGo(group, voter, first, second))
      && group in v && voter in v[group] && v[group][voter] == second
  {
    var actions := ComeAndGo(group, voter, first, second);
    var h := StartingRosters(s);
    StartFits(s);
    if group in h {
      GoneIsBackend(s, h, group);
    }
    assert actions[..0] == [] && actions[..1][..0] == [];
    assert actions[..2][..1] == actions[..1] && actions[..3][..2] == actions[..2];
    assert FollowAll(h, actions[..1]) == Follow(h, actions[0]);
    assert FollowAll(h, actions[..2]) == Follow(Follow(h, actions[0]), actions[1]);
    assert NoneComesBack(h, actions) by {
      forall k | 0 <= k < 3 ensures !BringsBack(FollowAll(h, actions[..k]), actions[k]) {
      }
    }
    SeenAsPerformed(s, actions);
    LastAddShows(PerformAll(ViewOf(s), actions[..2]), actions[2]);
    assert actions[..3] == actions;
  }

  lemma {:induction false} LastAddShows(v: View, a: Action)
    requires a.VoterAdd?
    ensures var r := Perform(v, a); a.group in r && a.voter in r[a.group] && r[a.group][a.voter] == a.weight
  {
  }

  lemma {:induction false} GoneIsBackend(s: State, h: Rosters, group: string)
    requires Fits(s, h) && group in h
    ensures h[group].gone <= h[group].backend
  {
    var id :| id in IdsNamed(s.groups.cells, group);
  }
}
