/** The draft edits that predict a list of contract actions, over the groups table and the groups' member tables. */
module ActionPrediction {
  import opened TableTypes
  import opened TableSpec
  import opened TableInvariants

  // ---------------------------------------------------------------- member tables

  const WEIGHT_KEY := "weight"
  const ACCOUNT_KEY := "account"

  /** A member's row; `recorded` are the keys of its record if it was added locally. */
  datatype Member = Member(weight: nat, tags: seq<string>, state: LoadState, recorded: set<string>)

  /** The draft operations of a table with string IDs, by account name. */
  datatype Members = Members(rows: map<string, Member>, pending: bool)

  function AddMember(m: Members, account: string, row: Member): Members {
    if m.pending || account in m.rows then m
    else m.(rows := m.rows[account := row.(state := DraftAdd)])
  }

  predicate EditMemberHangs(m: Members, account: string) {
    !m.pending && account in m.rows && m.rows[account].state.DraftAdd? && WEIGHT_KEY !in m.rows[account].recorded
  }

  function EditMember(m: Members, account: string, weight: nat): Members {
    if m.pending || account !in m.rows || m.rows[account].state.DraftDelete? then m
    else
      var row := m.rows[account].(weight := weight);
      m.(rows := m.rows[account := if row.state.DraftAdd? then row else row.(state := DraftEdit)])
  }

  function DeleteMember(m: Members, account: string): Members {
    if m.pending || account !in m.rows then m
    else if m.rows[account].state.DraftAdd? then m.(rows := m.rows - {account})
    else m.(rows := m.rows[account := m.rows[account].(state := DraftDelete)])
  }

  /** Adds a copy of every local row, draft-deleted ones too. */
  function CopyMembers(target: Members, source: Members): Members {
    if target.pending then target
    else target.(rows := (map account | account in source.rows :: source.rows[account].(
      state := DraftAdd, recorded := {ACCOUNT_KEY, WEIGHT_KEY, TAGS_KEY})) + target.rows)
  }

  /** Copying one more row. */
  lemma {:induction false} CopyOneMore(target: Members, pending: bool, done: map<string, Member>, account: string,
          row: Member)
    requires account !in done
    ensures CopyMembers(target, Members(done[account := row], pending)) ==
      AddMember(CopyMembers(target, Members(done, pending)), account,
                row.(recorded := {ACCOUNT_KEY, WEIGHT_KEY, TAGS_KEY}))
  {
  }

  // ---------------------------------------------------------------- the two levels

  datatype State = State(groups: Table, members: map<nat, Members>)

  function MembersOf(s: State, id: nat): Members {
    if id in s.members then s.members[id] else Members(map[], false)
  }

  function WithMembers(s: State, id: nat, m: Members): State {
    s.(members := s.members[id := m])
  }

  function IdsNamed(cells: map<nat, Cell>, name: string): set<nat> {
    set id | id in cells && cells[id].row.name == name
  }

  /** The first row with this name. */
  ghost function FindGroup(cells: map<nat, Cell>, name: string): Option<nat> {
    if IdsNamed(cells, name) == {} then None else Some(Least(IdsNamed(cells, name)))
  }

  function NameField(name: string): Fields {
    map[NAME_KEY := Text(name)]
  }

  // ---------------------------------------------------------------- the actions

  datatype Action =
    | VoterAdd(group: string, voter: string, weight: nat)
    | VoterRemove(group: string, voter: string)
    | GroupRename(group: string, newName: string)
    | GroupCopy(group: string, newName: string)

  ghost function EnsureGroup(s: State, name: string): State {
    if FindGroup(s.groups.cells, name).Some? then s else s.(groups := DraftAddRow(s.groups, NameField(name)))
  }

  function VoterAdded(s: State, id: nat, voter: string, weight: nat): State {
    var m := MembersOf(s, id);
    if voter in m.rows then
      if m.rows[voter].weight == weight then s else WithMembers(s, id, EditMember(m, voter, weight))
    else WithMembers(s, id, AddMember(m, voter, Member(weight, [], DraftAdd, {ACCOUNT_KEY, WEIGHT_KEY})))
  }

  ghost function Process(s: State, a: Action): State {
    match a
    case VoterAdd(group, voter, weight) =>
      var s1 := EnsureGroup(s, group);
      var found := FindGroup(s1.groups.cells, group);
      if found.None? then s1 else VoterAdded(s1, found.value, voter, weight)
    case VoterRemove(group, voter) =>
      var found := FindGroup(s.groups.cells, group);
      if found.None? then s
      else
        var m := MembersOf(s, found.value);
        if voter in m.rows then WithMembers(s, found.value, DeleteMember(m, voter)) else s
    case GroupRename(group, newName) =>
      var found := FindGroup(s.groups.cells, group);
      if group == newName || found.None? || FindGroup(s.groups.cells, newName).Some? then s
      else s.(groups := DraftEditRow(s.groups, found.value, NameField(newName)))
    case GroupCopy(group, newName) =>
      var found := FindGroup(s.groups.cells, group);
      if group == newName || found.None? || FindGroup(s.groups.cells, newName).Some? then s
      else
        var s1 := EnsureGroup(s, newName);
        var target := FindGroup(s1.groups.cells, newName);
        if target.None? then s1
        else WithMembers(s1, target.value, CopyMembers(MembersOf(s1, target.value), MembersOf(s1, found.value)))
  }

  ghost function ApplyActions(s: State, actions: seq<Action>): State {
    if actions == [] then s else Process(ApplyActions(s, actions[..|actions| - 1]), actions[|actions| - 1])
  }

  predicate VoterAddHangs(m: Members, voter: string, weight: nat) {
    voter in m.rows && m.rows[voter].weight != weight && EditMemberHangs(m, voter)
  }

  /** The draft edit behind the action would never return. */
  ghost predicate Hangs(s: State, a: Action) {
    match a
    case VoterAdd(group, voter, weight) =>
      var s1 := EnsureGroup(s, group);
      var found := FindGroup(s1.groups.cells, group);
      found.Some? && VoterAddHangs(MembersOf(s1, found.value), voter, weight)
    case GroupRename(group, newName) =>
      var found := FindGroup(s.groups.cells, group);
      group != newName && found.Some? && FindGroup(s.groups.cells, newName).None? &&
      EditHangs(s.groups, found.value, NameField(newName))
    case _ => false
  }

  // ---------------------------------------------------------------- what the contract would do

  /** The weights of the members of each group. */
  type View = map<string, map<string, nat>>

  function Weighing(members: map<string, nat>, voter: string, weight: nat): map<string, nat> {
    members[voter := weight]
  }

  function Perform(v: View, a: Action): View {
    match a
    case VoterAdd(group, voter, weight) =>
      v[group := Weighing(if group in v then v[group] else map[], voter, weight)]
    case VoterRemove(group, voter) =>
      if group in v then v[group := v[group] - {voter}] else v
    case GroupRename(group, newName) =>
      if group in v && newName !in v then (v - {group})[newName := v[group]] else v
    case GroupCopy(group, newName) =>
      if group in v && newName !in v then v[newName := v[group]] else v
  }

  function PerformAll(v: View, actions: seq<Action>): View {
    if actions == [] then v else Perform(PerformAll(v, actions[..|actions| - 1]), actions[|actions| - 1])
  }

  // ---------------------------------------------------------------- what the user sees

  function VisibleMembers(m: Members): map<string, nat> {
    map account | account in m.rows && !m.rows[account].state.DraftDelete? :: m.rows[account].weight
  }

  ghost predicate UniqueNames(cells: map<nat, Cell>) {
    forall i, j :: i in cells && j in cells && cells[i].row.name == cells[j].row.name ==> i == j
  }

  /** The visible rows of the tables are the members of each group. */
  ghost predicate Shows(s: State, v: View) {
    && (forall id :: id in s.groups.cells ==>
          s.groups.cells[id].row.name in v && v[s.groups.cells[id].row.name] == VisibleMembers(MembersOf(s, id)))
    && (forall name :: name in v ==> IdsNamed(s.groups.cells, name) != {})
  }

  /** Nothing is pending, group names are unique, no group is deleted, only groups have members, and every local
      add records the fields that actions may edit. */
  ghost predicate Ready(s: State) {
    && TableInvariants.Inv(s.groups) && !s.groups.pending
    && UniqueNames(s.groups.cells)
    && (forall id :: id in s.groups.cells ==> !s.groups.cells[id].state.DraftDelete?)
    && (forall k :: 0 <= k < |s.groups.adds| ==> NAME_KEY in s.groups.adds[k])
    && (forall id :: id in s.members ==> !s.members[id].pending)
    && (forall id :: id in s.members && id !in s.groups.cells ==> s.members[id].rows == map[])
    && (forall id, account ::
          id in s.members && account in s.members[id].rows && s.members[id].rows[account].state.DraftAdd? ==>
          WEIGHT_KEY in s.members[id].rows[account].recorded)
  }

  /** The actions the prediction gets right: no voter is added again after being draft-deleted, and no group is
      copied while one of its members is draft-deleted. */
  ghost predicate Predictable(s: State, a: Action) {
    match a
    case VoterAdd(group, voter, _) =>
      var found := FindGroup(s.groups.cells, group);
      found.Some? && voter in MembersOf(s, found.value).rows ==>
        !MembersOf(s, found.value).rows[voter].state.DraftDelete?
    case GroupCopy(group, newName) =>
      var found := FindGroup(s.groups.cells, group);
      found.Some? && FindGroup(s.groups.cells, newName).None? ==>
        forall voter :: voter in MembersOf(s, found.value).rows ==>
          !MembersOf(s, found.value).rows[voter].state.DraftDelete?
    case _ => true
  }

  // ---------------------------------------------------------------- groups

  lemma {:induction false} FindGroupIs(cells: map<nat, Cell>, name: string)
    requires UniqueNames(cells)
    ensures var found := FindGroup(cells, name);
      && (found.Some? ==> found.value in cells && cells[found.value].row.name == name)
      && (forall id :: id in cells && cells[id].row.name == name ==> found == Some(id))
  {
    var ids := IdsNamed(cells, name);
    forall id | id in cells && cells[id].row.name == name ensures FindGroup(cells, name) == Some(id) {
      assert id in ids;
      assert Least(ids) in ids;
    }
  }

  lemma {:induction false} FoundIsShown(s: State, v: View, name: string)
    requires Ready(s) && Shows(s, v)
    ensures FindGroup(s.groups.cells, name).Some? <==> name in v
    ensures FindGroup(s.groups.cells, name).Some? ==>
      FindGroup(s.groups.cells, name).value in s.groups.cells &&
      s.groups.cells[FindGroup(s.groups.cells, name).value].row.name == name &&
      v[name] == VisibleMembers(MembersOf(s, FindGroup(s.groups.cells, name).value))
  {
    FindGroupIs(s.groups.cells, name);
    if name in v {
      var id :| id in IdsNamed(s.groups.cells, name);
    }
  }

  /** A new group is found by its name, and has no members yet. */
  lemma {:induction false} EnsuredGroup(s: State, v: View, name: string)
    requires Ready(s) && Shows(s, v)
    ensures var r := EnsureGroup(s, name);
      && Ready(r) && Shows(r, if name in v then v else v[name := map[]])
      && r.members == s.members && FindGroup(r.groups.cells, name).Some?
      && (forall id :: id in s.groups.cells ==> id in r.groups.cells && r.groups.cells[id] == s.groups.cells[id])
      && (name !in v ==> FindGroup(r.groups.cells, name).value !in s.groups.cells)
  {
    hide TableInvariants.Inv, Shows, UniqueNames, VisibleMembers;
    FoundIsShown(s, v, name);
    if name !in v {
      var t, r := s.groups, EnsureGroup(s, name);
      var id := NextDraftId(t.cells.Keys);
      var cell := Cell(Row(id, name, []), DraftAdd);
      assert id !in t.cells.Keys;
      DraftAddKeepsInv(t, NameField(name));
      assert r.groups.cells == t.cells[id := cell];
      assert forall k :: 0 <= k < |r.groups.adds| ==> NAME_KEY in r.groups.adds[k];
      NewGroupShows(s, r, v, id, cell);
    }
  }

  lemma {:induction false} NewGroupShows(s: State, r: State, v: View, id: nat, cell: Cell)
    requires Ready(s) && Shows(s, v) && id !in s.groups.cells && cell.row.name !in v && !cell.state.DraftDelete?
    requires r == s.(groups := r.groups) && r.groups.cells == s.groups.cells[id := cell]
    requires TableInvariants.Inv(r.groups) && !r.groups.pending
    requires forall k :: 0 <= k < |r.groups.adds| ==> NAME_KEY in r.groups.adds[k]
    ensures Ready(r) && Shows(r, v[cell.row.name := map[]])
    ensures FindGroup(r.groups.cells, cell.row.name) == Some(id)
  {
    hide TableInvariants.Inv, FindGroup, VisibleMembers;
    NewNameIsUnique(s.groups.cells, v.Keys, id, cell);
    FindGroupIs(r.groups.cells, cell.row.name);
    NewGroupShown(s, r, v, id, cell);
  }

  lemma {:induction false} NewGroupShown(s: State, r: State, v: View, id: nat, cell: Cell)
    requires Shows(s, v) && id !in s.groups.cells && cell.row.name !in v && MembersOf(s, id).rows == map[]
    requires r == s.(groups := r.groups) && r.groups.cells == s.groups.cells[id := cell]
    ensures Shows(r, v[cell.row.name := map[]])
  {
    NewNameIsListed(s.groups.cells, v.Keys, id, cell);
    assert VisibleMembers(MembersOf(s, id)) == map[];
    assert v[cell.row.name := map[]].Keys == v.Keys + {cell.row.name};
    forall k | k in r.groups.cells
      ensures r.groups.cells[k].row.name in v[cell.row.name := map[]]
      ensures v[cell.row.name := map[]][r.groups.cells[k].row.name] == VisibleMembers(MembersOf(r, k))
    {
      assert MembersOf(r, k) == MembersOf(s, k);
    }
  }

  lemma {:induction false} NewNameIsUnique(cells: map<nat, Cell>, names: set<string>, id: nat, cell: Cell)
    requires UniqueNames(cells) && id !in cells && cell.row.name !in names
    requires forall k :: k in cells ==> cells[k].row.name in names
    ensures UniqueNames(cells[id := cell])
  {
  }

  lemma {:induction false} NewNameIsListed(cells: map<nat, Cell>, names: set<string>, id: nat, cell: Cell)
    requires id !in cells && forall name :: name in names ==> IdsNamed(cells, name) != {}
    ensures forall name :: name in names + {cell.row.name} ==> IdsNamed(cells[id := cell], name) != {}
  {
    forall name | name in names + {cell.row.name} ensures IdsNamed(cells[id := cell], name) != {} {
      if name == cell.row.name {
        assert id in IdsNamed(cells[id := cell], name);
      } else {
        var k :| k in IdsNamed(cells, name);
        assert k in IdsNamed(cells[id := cell], name);
      }
    }
  }

  // ---------------------------------------------------------------- members

  /** Changing one group's members changes the view at that group's name, and only there. */
  lemma {:induction false} MembersChange(s: State, v: View, name: string, m: Members)
    requires Ready(s) && Shows(s, v) && name in v
    requires !m.pending
    requires forall account :: account in m.rows && m.rows[account].state.DraftAdd? ==>
      WEIGHT_KEY in m.rows[account].recorded
    ensures var r := WithMembers(s, FindGroup(s.groups.cells, name).value, m);
      Ready(r) && Shows(r, v[name := VisibleMembers(m)])
  {
    FoundIsShown(s, v, name);
    var id := FindGroup(s.groups.cells, name).value;
    var r := WithMembers(s, id, m);
    MembersChangeShows(s, v, id, m);
    assert forall k :: k in r.members ==> r.members[k] == if k == id then m else s.members[k];
  }

  lemma {:induction false} MembersChangeShows(s: State, v: View, id: nat, m: Members)
    requires UniqueNames(s.groups.cells) && Shows(s, v) && id in s.groups.cells
    ensures Shows(WithMembers(s, id, m), v[s.groups.cells[id].row.name := VisibleMembers(m)])
  {
    var r, name := WithMembers(s, id, m), s.groups.cells[id].row.name;
    forall k | k in s.groups.cells
      ensures s.groups.cells[k].row.name in v
      ensures v[name := VisibleMembers(m)][s.groups.cells[k].row.name] == VisibleMembers(MembersOf(r, k))
    {
      assert k != id ==> MembersOf(r, k) == MembersOf(s, k);
    }
  }

  lemma {:induction false} MembersReady(s: State, id: nat)
    requires Ready(s)
    ensures var m := MembersOf(s, id);
      !m.pending && forall account :: account in m.rows && m.rows[account].state.DraftAdd? ==>
        WEIGHT_KEY in m.rows[account].recorded
  {
  }

  /** The tables show at most one view. */
  lemma {:induction false} ViewsAgree(s: State, v: View, w: View)
    requires Shows(s, v) && Shows(s, w)
    ensures v == w
  {
    forall name | name in v || name in w ensures name in v && name in w && v[name] == w[name] {
      var id :| id in IdsNamed(s.groups.cells, name);
      assert s.groups.cells[id].row.name == name;
    }
  }

  // ---------------------------------------------------------------- the prediction, action by action

  lemma {:induction false} EditedView(m: Members, voter: string, weight: nat)
    requires !m.pending && voter in m.rows
    ensures var r := EditMember(m, voter, weight);
      && !r.pending
      && (m.rows[voter].state.DraftDelete? ==> r == m && voter !in VisibleMembers(m))
      && (!m.rows[voter].state.DraftDelete? ==> VisibleMembers(r) == VisibleMembers(m)[voter := weight])
  {
  }

  lemma {:induction false} AddedView(m: Members, voter: string, row: Member)
    requires !m.pending && voter !in m.rows
    ensures VisibleMembers(AddMember(m, voter, row)) == VisibleMembers(m)[voter := row.weight]
  {
  }

  lemma {:induction false} DeletedView(m: Members, voter: string)
    requires !m.pending
    ensures VisibleMembers(DeleteMember(m, voter)) == VisibleMembers(m) - {voter}
  {
  }

  lemma {:induction false} CopiedView(target: Members, source: Members)
    requires !target.pending && target.rows == map[]
    ensures VisibleMembers(CopyMembers(target, source)) == VisibleMembers(source) <==>
      forall voter :: voter in source.rows ==> !source.rows[voter].state.DraftDelete?
  {
    var r := CopyMembers(target, source);
    assert r.rows.Keys == source.rows.Keys;
    if VisibleMembers(r) == VisibleMembers(source) {
      forall voter | voter in source.rows ensures !source.rows[voter].state.DraftDelete? {
        assert voter in VisibleMembers(r);
      }
    } else {
      assert (forall voter :: voter in source.rows ==> !source.rows[voter].state.DraftDelete?) ==>
        VisibleMembers(r) == VisibleMembers(source);
    }
  }

  /** Adding to a group that is there. */
  lemma {:induction false} AddInGroup(s: State, v: View, group: string, voter: string, weight: nat)
    requires Ready(s) && Shows(s, v) && group in v
    ensures var r := Process(s, VoterAdd(group, voter, weight));
      && Ready(r)
      && (Shows(r, v[group := Weighing(v[group], voter, weight)]) <==> Predictable(s, VoterAdd(group, voter, weight)))
  {
    hide TableInvariants.Inv, Shows, UniqueNames;
    FoundIsShown(s, v, group);
    var id := FindGroup(s.groups.cells, group).value;
    var m, r := MembersOf(s, id), Process(s, VoterAdd(group, voter, weight));
    MembersReady(s, id);
    if voter !in m.rows {
      var row := Member(weight, [], DraftAdd, {ACCOUNT_KEY, WEIGHT_KEY});
      AddedView(m, voter, row);
      MembersChange(s, v, group, AddMember(m, voter, row));
    } else if m.rows[voter].weight == weight {
      SameWeight(s, v, group, voter);
    } else {
      EditedView(m, voter, weight);
      MembersChange(s, v, group, EditMember(m, voter, weight));
      if m.rows[voter].state.DraftDelete? {
        assert v[group := VisibleMembers(m)] == v;
        WrongView(r, v, group, voter, weight);
      }
    }
  }

  /** A view that misses the voter is not the view with the voter. */
  lemma {:induction false} WrongView(s: State, v: View, group: string, voter: string, weight: nat)
    requires Shows(s, v) && group in v && voter !in v[group]
    ensures !Shows(s, v[group := Weighing(v[group], voter, weight)])
  {
    var w := v[group := Weighing(v[group], voter, weight)];
    assert voter in w[group];
    if Shows(s, w) {
      ViewsAgree(s, v, w);
    }
  }

  lemma {:induction false} SameWeight(s: State, v: View, group: string, voter: string)
    requires Ready(s) && Shows(s, v) && group in v
    requires var m := MembersOf(s, FindGroup(s.groups.cells, group).value); voter in m.rows
    ensures var m := MembersOf(s, FindGroup(s.groups.cells, group).value);
      Shows(s, v[group := Weighing(v[group], voter, m.rows[voter].weight)]) <==> !m.rows[voter].state.DraftDelete?
  {
    FoundIsShown(s, v, group);
    var m := MembersOf(s, FindGroup(s.groups.cells, group).value);
    if m.rows[voter].state.DraftDelete? {
      assert voter !in v[group];
      WrongView(s, v, group, voter, m.rows[voter].weight);
    } else {
      assert Weighing(v[group], voter, m.rows[voter].weight) == v[group];
      assert v[group := v[group]] == v;
    }
  }

  lemma {:induction false} AddToNewGroup(s: State, v: View, group: string, voter: string, weight: nat)
    requires Ready(s) && Shows(s, v) && group !in v
    ensures var a := VoterAdd(group, voter, weight);
      Ready(Process(s, a)) && Shows(Process(s, a), Perform(v, a)) && Predictable(s, a)
  {
    var s1 := EnsureGroup(s, group);
    FoundIsShown(s, v, group);
    EnsuredGroup(s, v, group);
    NoMembersYet(s1, FindGroup(s1.groups.cells, group).value, s);
    EnsuredOnce(s, VoterAdd(group, voter, weight));
    AddToEmpty(s1, v, group, voter, weight);
  }

  lemma {:induction false} AddToEmpty(s1: State, v: View, group: string, voter: string, weight: nat)
    requires group !in v && Ready(s1) && Shows(s1, v[group := map[]])
    requires FindGroup(s1.groups.cells, group).Some?
    requires MembersOf(s1, FindGroup(s1.groups.cells, group).value).rows == map[]
    ensures var a := VoterAdd(group, voter, weight);
      Ready(Process(s1, a)) && Shows(Process(s1, a), Perform(v, a))
  {
    hide Ready, Shows, Process, FindGroup, MembersOf;
    var v1 := v[group := map[]];
    AddInGroup(s1, v1, group, voter, weight);
    assert v1[group := Weighing(v1[group], voter, weight)] == v[group := Weighing(map[], voter, weight)];
  }

  lemma {:induction false} NoMembersYet(s1: State, id: nat, s: State)
    requires Ready(s) && s1.members == s.members && id !in s.groups.cells
    ensures MembersOf(s1, id).rows == map[]
  {
  }

  /** Once the group exists, ensuring it again changes nothing. */
  lemma {:induction false} EnsuredOnce(s: State, a: Action)
    requires a.VoterAdd? && FindGroup(EnsureGroup(s, a.group).groups.cells, a.group).Some?
    ensures Process(s, a) == Process(EnsureGroup(s, a.group), a)
  {
  }

  lemma {:induction false} AddIsPredicted(s: State, v: View, group: string, voter: string, weight: nat)
    requires Ready(s) && Shows(s, v)
    ensures var a := VoterAdd(group, voter, weight);
      Ready(Process(s, a)) && (Shows(Process(s, a), Perform(v, a)) <==> Predictable(s, a))
  {
    if group in v {
      AddInGroup(s, v, group, voter, weight);
    } else {
      AddToNewGroup(s, v, group, voter, weight);
    }
  }

  lemma {:induction false} RemoveIsPredicted(s: State, v: View, group: string, voter: string)
    requires Ready(s) && Shows(s, v)
    ensures var a := VoterRemove(group, voter);
      Ready(Process(s, a)) && Shows(Process(s, a), Perform(v, a))
  {
    hide TableInvariants.Inv, UniqueNames;
    FoundIsShown(s, v, group);
    if group in v {
      var id := FindGroup(s.groups.cells, group).value;
      var m := MembersOf(s, id);
      MembersReady(s, id);
      if voter in m.rows {
        DeletedView(m, voter);
        MembersChange(s, v, group, DeleteMember(m, voter));
      } else {
        assert v[group] - {voter} == v[group];
        assert v[group := v[group]] == v;
      }
    }
  }

  lemma {:induction false} RenamedRecords(t: Table, id: nat, newName: string)
    requires forall k :: 0 <= k < |t.adds| ==> NAME_KEY in t.adds[k]
    ensures var r := DraftEditRow(t, id, NameField(newName));
      forall k :: 0 <= k < |r.adds| ==> NAME_KEY in r.adds[k]
    ensures !EditHangs(t, id, NameField(newName))
  {
    var k := FindAdd(t.adds, id);
    assert k < |t.adds| ==> NameField(newName).Keys <= t.adds[k].Keys;
  }

  lemma {:induction false} RenamedCells(s: State, id: nat, newName: string)
    requires Ready(s) && id in s.groups.cells
    ensures var t, r := s.groups, DraftEditRow(s.groups, id, NameField(newName));
      && TableInvariants.Inv(r) && !r.pending
      && id in r.cells && r.cells == t.cells[id := r.cells[id]] && !r.cells[id].state.DraftDelete?
      && r.cells[id].row == t.cells[id].row.(name := newName)
  {
    hide FindAdd;
    DraftEditKeepsInv(s.groups, id, NameField(newName));
    assert Overlay(NameField(newName), s.groups.cells[id].row) == s.groups.cells[id].row.(name := newName);
  }

  lemma {:induction false} RenamedShows(s: State, r: State, v: View, id: nat, newName: string)
    requires UniqueNames(s.groups.cells) && Shows(s, v) && id in s.groups.cells && newName !in v
    requires r == s.(groups := r.groups) && id in r.groups.cells &&
      r.groups.cells == s.groups.cells[id := r.groups.cells[id]]
    requires r.groups.cells[id].row.name == newName
    ensures var old_ := s.groups.cells[id].row.name;
      UniqueNames(r.groups.cells) && Shows(r, (v - {old_})[newName := v[old_]])
  {
    var before := s.groups.cells[id].row.name;
    var w := (v - {before})[newName := v[before]];
    forall k | k in r.groups.cells
      ensures r.groups.cells[k].row.name in w && w[r.groups.cells[k].row.name] == VisibleMembers(MembersOf(r, k))
    {
      assert MembersOf(r, k) == MembersOf(s, k);
    }
    forall name | name in w ensures IdsNamed(r.groups.cells, name) != {} {
      if name == newName {
        assert id in IdsNamed(r.groups.cells, name);
      } else {
        var k :| k in IdsNamed(s.groups.cells, name);
        assert k in IdsNamed(r.groups.cells, name);
      }
    }
  }

  lemma {:induction false} RenameIsPredicted(s: State, v: View, group: string, newName: string)
    requires Ready(s) && Shows(s, v)
    ensures var a := GroupRename(group, newName);
      Ready(Process(s, a)) && Shows(Process(s, a), Perform(v, a))
  {
    hide TableInvariants.Inv, DraftEditRow, VisibleMembers, MembersOf;
    FoundIsShown(s, v, group);
    FoundIsShown(s, v, newName);
    if group in v && newName !in v {
      var id := FindGroup(s.groups.cells, group).value;
      RenamedCells(s, id, newName);
      RenamedRecords(s.groups, id, newName);
      RenamedShows(s, Process(s, GroupRename(group, newName)), v, id, newName);
    }
  }

  /** Copying between groups that are both there, the second one still without members. */
  lemma {:induction false} CopyInto(s1: State, v1: View, source: Members, newName: string, weights: map<string, nat>)
    requires Ready(s1) && Shows(s1, v1) && newName in v1 && weights == VisibleMembers(source)
    requires MembersOf(s1, FindGroup(s1.groups.cells, newName).value).rows == map[]
    ensures var target := FindGroup(s1.groups.cells, newName).value;
      var r := WithMembers(s1, target, CopyMembers(MembersOf(s1, target), source));
      && Ready(r)
      && (Shows(r, v1[newName := weights]) <==>
            forall voter :: voter in source.rows ==> !source.rows[voter].state.DraftDelete?)
  {
    var target := FindGroup(s1.groups.cells, newName).value;
    var empty := MembersOf(s1, target);
    MembersReady(s1, target);
    var m := CopyMembers(empty, source);
    CopiedView(empty, source);
    assert forall account :: account in m.rows ==> account in source.rows;
    MembersChange(s1, v1, newName, m);
    var r := WithMembers(s1, target, m);
    if Shows(r, v1[newName := weights]) {
      ViewsAgree(r, v1[newName := weights], v1[newName := VisibleMembers(m)]);
      assert v1[newName := weights][newName] == v1[newName := VisibleMembers(m)][newName];
    }
  }

  lemma {:induction false} CopyIsPredicted(s: State, v: View, group: string, newName: string)
    requires Ready(s) && Shows(s, v)
    ensures var a := GroupCopy(group, newName);
      Ready(Process(s, a)) && (Shows(Process(s, a), Perform(v, a)) <==> Predictable(s, a))
  {
    FoundIsShown(s, v, group);
    FoundIsShown(s, v, newName);
    if group in v && newName !in v {
      CopyToNewGroup(s, v, group, newName);
    }
  }

  lemma {:induction false} CopyToNewGroup(s: State, v: View, group: string, newName: string)
    requires Ready(s) && Shows(s, v) && group in v && newName !in v
    ensures var a := GroupCopy(group, newName);
      Ready(Process(s, a)) && (Shows(Process(s, a), Perform(v, a)) <==> Predictable(s, a))
  {
    hide Ready, Shows, CopyMembers, EnsureGroup, VisibleMembers;
    FoundIsShown(s, v, group);
    FoundIsShown(s, v, newName);
    var s1, source := EnsureGroup(s, newName), MembersOf(s, FindGroup(s.groups.cells, group).value);
    EnsuredGroup(s, v, newName);
    var target := FindGroup(s1.groups.cells, newName).value;
    NoMembersYet(s1, target, s);
    CopyToEmpty(s1, v, source, newName, v[group]);
    CopyIs(s, group, newName, s1, target, source);
  }

  lemma {:induction false} CopyIs(s: State, group: string, newName: string, s1: State, target: nat, source: Members)
    requires s1 == EnsureGroup(s, newName) && FindGroup(s1.groups.cells, newName) == Some(target)
    requires group != newName && FindGroup(s.groups.cells, group).Some? && FindGroup(s.groups.cells, newName).None?
    requires source == MembersOf(s, FindGroup(s.groups.cells, group).value) && s1.members == s.members
    ensures var a := GroupCopy(group, newName);
      && Process(s, a) == WithMembers(s1, target, CopyMembers(MembersOf(s1, target), source))
      && (Predictable(s, a) <==> forall voter :: voter in source.rows ==> !source.rows[voter].state.DraftDelete?)
  {
  }

  lemma {:induction false} CopyToEmpty(s1: State, v: View, source: Members, newName: string, weights: map<string, nat>)
    requires newName !in v && Ready(s1) && Shows(s1, v[newName := map[]]) && weights == VisibleMembers(source)
    requires FindGroup(s1.groups.cells, newName).Some?
    requires MembersOf(s1, FindGroup(s1.groups.cells, newName).value).rows == map[]
    ensures var target := FindGroup(s1.groups.cells, newName).value;
      var r := WithMembers(s1, target, CopyMembers(MembersOf(s1, target), source));
      && Ready(r)
      && (Shows(r, v[newName := weights]) <==>
            forall voter :: voter in source.rows ==> !source.rows[voter].state.DraftDelete?)
  {
    hide Ready, Shows, CopyMembers, MembersOf, WithMembers, VisibleMembers, FindGroup;
    CopyInto(s1, v[newName := map[]], source, newName, weights);
    assert v[newName := map[]][newName := weights] == v[newName := weights];
  }

  lemma {:induction false} ActionIsShown(s: State, v: View, a: Action)
    requires Ready(s) && Shows(s, v)
    ensures Ready(Process(s, a)) && (Shows(Process(s, a), Perform(v, a)) <==> Predictable(s, a))
  {
    match a
    case VoterAdd(group, voter, weight) => AddIsPredicted(s, v, group, voter, weight);
    case VoterRemove(group, voter) => RemoveIsPredicted(s, v, group, voter);
    case GroupRename(group, newName) => RenameIsPredicted(s, v, group, newName);
    case GroupCopy(group, newName) => CopyIsPredicted(s, v, group, newName);
  }

  /** No action hangs on tables whose local adds were made by actions. */
  lemma {:induction false} ReadyNeverHangs(s: State, a: Action)
    requires Ready(s)
    ensures !Hangs(s, a)
  {
    match a
    case VoterAdd(group, voter, _) =>
      var s1 := EnsureGroup(s, group);
      var found := FindGroup(s1.groups.cells, group);
      EnsuringIsReady(s, group);
      if found.Some? {
        MembersReady(s1, found.value);
      }
    case GroupRename(group, newName) =>
      var found := FindGroup(s.groups.cells, group);
      if found.Some? {
        RenamedRecords(s.groups, found.value, newName);
      }
    case _ =>
  }

  /** What the user sees to begin with. */
  ghost function ViewOf(s: State): View {
    map name | name in (set id | id in s.groups.cells :: s.groups.cells[id].row.name) ::
      var found := FindGroup(s.groups.cells, name);
      if found.Some? then VisibleMembers(MembersOf(s, found.value)) else map[]
  }

  lemma {:induction false} ViewOfIsShown(s: State)
    requires Ready(s)
    ensures Shows(s, ViewOf(s))
  {
    forall id | id in s.groups.cells
      ensures s.groups.cells[id].row.name in ViewOf(s)
      ensures ViewOf(s)[s.groups.cells[id].row.name] == VisibleMembers(MembersOf(s, id))
    {
      FindGroupIs(s.groups.cells, s.groups.cells[id].row.name);
    }
    forall name | name in ViewOf(s) ensures IdsNamed(s.groups.cells, name) != {} {
      var id :| id in s.groups.cells && s.groups.cells[id].row.name == name;
      assert id in IdsNamed(s.groups.cells, name);
    }
  }

  lemma {:induction false} ReadyStays(s: State, a: Action)
    requires Ready(s)
    ensures Ready(Process(s, a))
  {
    ViewOfIsShown(s);
    ActionIsShown(s, ViewOf(s), a);
  }

  lemma {:induction false} EnsuringIsReady(s: State, name: string)
    requires Ready(s)
    ensures Ready(EnsureGroup(s, name))
  {
    ViewOfIsShown(s);
    EnsuredGroup(s, ViewOf(s), name);
  }

  lemma {:induction false} ReadyThroughout(s: State, actions: seq<Action>)
    requires Ready(s)
    ensures Ready(ApplyActions(s, actions))
  {
    if actions != [] {
      ReadyThroughout(s, actions[..|actions| - 1]);
      ReadyStays(ApplyActions(s, actions[..|actions| - 1]), actions[|actions| - 1]);
    }
  }

  ghost predicate PredictableRun(s: State, actions: seq<Action>) {
    actions == [] ||
    (PredictableRun(s, actions[..|actions| - 1]) &&
     Predictable(ApplyActions(s, actions[..|actions| - 1]), actions[|actions| - 1]))
  }

  /** One of the actions, once those before it are applied, would never return. */
  ghost predicate HangsAt(s: State, actions: seq<Action>, k: nat)
    requires k < |actions|
  {
    Hangs(ApplyActions(s, actions[..k]), actions[k])
  }

  ghost predicate HangsBefore(s: State, actions: seq<Action>, n: nat)
    requires n <= |actions|
  {
    n > 0 && (HangsAt(s, actions, n - 1) || HangsBefore(s, actions, n - 1))
  }

  lemma {:induction false} HangsLater(s: State, actions: seq<Action>, k: nat, n: nat)
    requires k < n <= |actions| && HangsAt(s, actions, k)
    ensures HangsBefore(s, actions, n)
  {
    hide HangsAt, ApplyActions, Hangs;
    if k < n - 1 {
      HangsLater(s, actions, k, n - 1);
    }
  }

  ghost predicate HangsWithin(s: State, actions: seq<Action>) {
    HangsBefore(s, actions, |actions|)
  }

  lemma {:induction false} OneMoreAction(s: State, actions: seq<Action>, k: nat)
    requires k < |actions|
    ensures ApplyActions(s, actions[..k + 1]) == Process(ApplyActions(s, actions[..k]), actions[k])
    ensures HangsAt(s, actions, k) <==> Hangs(ApplyActions(s, actions[..k]), actions[k])
  {
    assert actions[..k + 1][..k] == actions[..k];
  }

  /** On ready tables every list of actions is applied to its end. */
  lemma {:induction false} ReadyNeverHangsWithin(s: State, actions: seq<Action>)
    requires Ready(s)
    ensures !HangsWithin(s, actions)
  {
    ReadyNeverHangsBefore(s, actions, |actions|);
  }

  lemma {:induction false} ReadyNeverHangsBefore(s: State, actions: seq<Action>, n: nat)
    requires Ready(s) && n <= |actions|
    ensures !HangsBefore(s, actions, n)
  {
    if n > 0 {
      ReadyNeverHangsBefore(s, actions, n - 1);
      ReadyThroughout(s, actions[..n - 1]);
      ReadyNeverHangs(ApplyActions(s, actions[..n - 1]), actions[n - 1]);
    }
  }

  lemma {:induction false} ActionsAreShown(s: State, v: View, actions: seq<Action>)
    requires Ready(s) && Shows(s, v) && PredictableRun(s, actions)
    ensures Ready(ApplyActions(s, actions)) && Shows(ApplyActions(s, actions), PerformAll(v, actions))
  {
    if actions != [] {
      var n := |actions| - 1;
      ActionsAreShown(s, v, actions[..n]);
      ActionIsShown(ApplyActions(s, actions[..n]), PerformAll(v, actions[..n]), actions[n]);
    }
  }

  /** The tables show a view exactly when it is what the user sees. */
  lemma {:induction false} ShowsIsViewOf(s: State, v: View)
    requires Ready(s)
    ensures Shows(s, v) <==> v == ViewOf(s)
  {
    ViewOfIsShown(s);
    if Shows(s, v) {
      ViewsAgree(s, v, ViewOf(s));
    }
  }

  /** After one action the user sees what the contract will have done exactly when the action is predictable. */
  lemma {:induction false} ActionIsPredicted(s: State, a: Action)
    requires Ready(s)
    ensures Ready(Process(s, a))
    ensures ViewOf(Process(s, a)) == Perform(ViewOf(s), a) <==> Predictable(s, a)
  {
    ReadyStays(s, a);
    ViewOfIsShown(s);
    ActionIsShown(s, ViewOf(s), a);
    ShowsIsViewOf(Process(s, a), Perform(ViewOf(s), a));
  }

  /** Whatever the actions, group names stay unique. */
  lemma {:induction false} NamesStayUnique(s: State, actions: seq<Action>)
    requires Ready(s)
    ensures UniqueNames(ApplyActions(s, actions).groups.cells)
  {
    ReadyThroughout(s, actions);
  }

  /** After a list of predictable actions the user sees what the contract will have done. */
  lemma {:induction false} ActionsArePredicted(s: State, actions: seq<Action>)
    requires Ready(s) && PredictableRun(s, actions)
    ensures ViewOf(ApplyActions(s, actions)) == PerformAll(ViewOf(s), actions)
  {
    ViewOfIsShown(s);
    ActionsAreShown(s, ViewOf(s), actions);
    ShowsIsViewOf(ApplyActions(s, actions), PerformAll(ViewOf(s), actions));
  }
}
