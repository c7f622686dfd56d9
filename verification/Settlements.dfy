/** What a table announces: which local edits end, how, and with which values. */
module Settlements {
  import opened TableTypes
  import opened TableSpec
  import opened TableInvariants

  // ---------------------------------------------------------------- records and rows, field by field

  /** A value as a field of the other value's type would hold it. */
  function Converted(v: Value, like: Value): Value {
    match like
    case Number(_) => Number(v.AsNumber())
    case Text(_) => Text(v.AsText())
    case Texts(_) => Texts(v.AsTexts())
  }

  /** The fields of a row, by their names. */
  function Named(row: Row): Fields {
    map["id" := Number(row.id), "name" := Text(row.name), "tags" := Texts(row.tags)]
  }

  /** Whatever field of the row is recorded has the row's value. */
  ghost predicate Describes(record: Fields, row: Row) {
    forall key :: key in record && key in Named(row) ==> Converted(record[key], Named(row)[key]) == Named(row)[key]
  }

  lemma {:induction false} DescribesIsMatches(record: Fields, row: Row)
    ensures Describes(record, row) <==> Matches(record, row)
  {
    if Describes(record, row) {
      assert "id" in record ==> Converted(record["id"], Named(row)["id"]) == Named(row)["id"];
      assert "name" in record ==> Converted(record["name"], Named(row)["name"]) == Named(row)["name"];
      assert "tags" in record ==> Converted(record["tags"], Named(row)["tags"]) == Named(row)["tags"];
    }
  }

  /** The record is the first one that describes the row. */
  ghost predicate FirstDescribing(adds: seq<Fields>, row: Row, k: nat) {
    k < |adds| && Describes(adds[k], row) && forall i :: 0 <= i < k ==> !Describes(adds[i], row)
  }

  lemma {:induction false} FirstFound(adds: seq<Fields>, row: Row)
    ensures FindMatch(adds, row) < |adds| ==> FirstDescribing(adds, row, FindMatch(adds, row))
    ensures FindMatch(adds, row) == |adds| ==> forall k :: 0 <= k < |adds| ==> !Describes(adds[k], row)
    ensures forall k: nat :: FirstDescribing(adds, row, k) ==> k == FindMatch(adds, row)
  {
    forall k | 0 <= k < |adds| ensures Describes(adds[k], row) <==> Matches(adds[k], row) {
      DescribesIsMatches(adds[k], row);
    }
  }

  // ---------------------------------------------------------------- one row of a reply

  /** What a reply with one row does to the rest of the table is what applying the row does. */
  lemma {:induction false} OneRowReply(t: Table, row: Row)
    requires Inv(t) && row.id < BASE_DRAFT_ID
    ensures var r, a := Step(t, ReplyOp([row], None, 0)), ApplyRow(t, row);
      r.cells == a.cells && r.backups == a.backups && r.adds == a.adds && r.pending == a.pending && r.log == a.log
  {
    var rows := [row];
    MergeIsApply(t, rows);
    assert rows[..0] == [];
    assert ApplyRows(t, rows) == ApplyRow(ApplyRows(t, []), row);
  }

  /** A row that is new takes out a record exactly if some record describes it, and then the first one, with the
      draft row and the backup that belong to it; its submitted fields and the row are announced. */
  lemma {:induction false} NewRowTakesFirst(t: Table, row: Row)
    requires Inv(t) && t.pending && row.id < BASE_DRAFT_ID
    requires row.id !in t.cells || t.cells[row.id].state.Loading?
    ensures var r := Step(t, ReplyOp([row], None, 0));
      && (r.adds != t.adds <==> exists k :: 0 <= k < |t.adds| && Describes(t.adds[k], row))
      && (r.adds == t.adds ==>
            r.backups == t.backups && r.log == t.log && r.cells == t.cells[row.id := Cell(row, Loaded)])
    ensures forall k: nat :: FirstDescribing(t.adds, row, k) ==>
      var r, id := Step(t, ReplyOp([row], None, 0)), DraftIdOf(t.adds[k]);
      && r.adds == t.adds[..k] + t.adds[k + 1..]
      && r.cells == (t.cells - {id})[row.id := Cell(row, Loaded)] && r.backups == t.backups - {id}
      && r.log == t.log + [Settled(id, t.adds[k] - {DRAFT_ID_KEY}, Some(row))]
  {
    hide Step, ApplyRow, Describes, Inv, FindMatch;
    OneRowReply(t, row);
    FirstFound(t.adds, row);
    NewRowMerged(t, row);
  }

  /** If the backend gives a pending add the very ID it had as a draft, its row stays, now Loaded, while its record
      and its backup go. */
  lemma {:induction false} SettledUnderItsId(t: Table, row: Row, k: nat)
    requires t.pending && row.id in t.cells && t.cells[row.id].state.PendingAdd?
    requires FirstDescribing(t.adds, row, k) && DraftIdOf(t.adds[k]) == row.id
    ensures var r := Step(t, ReplyOp([row], None, 0));
      && r.adds == t.adds[..k] + t.adds[k + 1..] && r.cells == t.cells[row.id := Cell(row, Loaded)]
      && r.backups == t.backups - {row.id} && r.log == t.log + [Settled(row.id, t.adds[k] - {DRAFT_ID_KEY}, Some(row))]
      && |r.shown| == |t.shown| && forall i :: 0 <= i < |t.shown| ==> r.shown[i] == t.shown[i] + {row.id}
  {
    hide Describes;
    var rows := [row];
    assert !Appends(t, rows);
    assert rows[..0] == [];
    assert ApplyRows(t, rows) == ApplyRow(ApplyRows(t, []), row);
    FirstFound(t.adds, row);
  }

  lemma {:induction false} NewRowMerged(t: Table, row: Row)
    requires Inv(t) && t.pending && row.id < BASE_DRAFT_ID
    requires row.id !in t.cells || t.cells[row.id].state.Loading?
    ensures var r, k := ApplyRow(t, row), FindMatch(t.adds, row);
      if k < |t.adds| then
        var id := DraftIdOf(t.adds[k]);
        && r.adds == t.adds[..k] + t.adds[k + 1..] && r.adds != t.adds
        && r.cells == (t.cells - {id})[row.id := Cell(row, Loaded)] && r.backups == t.backups - {id}
        && r.log == t.log + [Settled(id, t.adds[k] - {DRAFT_ID_KEY}, Some(row))]
      else
        r.adds == t.adds && r.backups == t.backups && r.log == t.log && r.cells == t.cells[row.id := Cell(row, Loaded)]
  {
    hide Matches, CheckOverwrittenEdit;
    var k := FindMatch(t.adds, row);
    MergeNew(t, row);
    if k < |t.adds| {
      assert |t.adds[..k] + t.adds[k + 1..]| < |t.adds|;
      assert DraftIds(t.adds)[k] in DraftIds(t.adds);
    }
  }

  /** What one row of a reply makes the table announce, by what was known of the row before. */
  ghost function Announced(t: Table, row: Row): seq<Event> {
    if row.id !in t.cells || t.cells[row.id].state.Loading? then
      if t.pending && exists k: nat :: FirstDescribing(t.adds, row, k) then
        var k: nat :| FirstDescribing(t.adds, row, k);
        [Settled(DraftIdOf(t.adds[k]), t.adds[k] - {DRAFT_ID_KEY}, Some(row))]
      else []
    else
      var was := t.cells[row.id];
      match was.state
      case PendingEdit => [Settled(row.id, Named(was.row), Some(row))]
      case DraftEdit => [Invalidated(row.id)]
      case DraftDelete => [Invalidated(row.id)]
      case PendingDelete => [Invalidated(row.id)]
      case _ => []
  }

  lemma {:induction false} RowAnnounces(t: Table, row: Row)
    requires Inv(t) && row.id < BASE_DRAFT_ID
    ensures ApplyRow(t, row).log == t.log + Announced(t, row)
  {
    FirstFound(t.adds, row);
    if row.id !in t.cells || t.cells[row.id].state.Loading? {
      if t.pending {
        NewRowMerged(t, row);
      }
    } else {
      assert !IsLocalAdd(t.cells[row.id].state);
      KnownRowAnnounces(t, row);
    }
  }

  lemma {:induction false} KnownRowAnnounces(t: Table, row: Row)
    requires Inv(t) && row.id < BASE_DRAFT_ID && row.id in t.cells && !t.cells[row.id].state.Loading?
    ensures ApplyRow(t, row).log == t.log + Announced(t, row)
  {
    hide CheckPendingInsertion, FindAdd;
    var was := t.cells[row.id];
    assert FieldsOf(was.row) == Named(was.row);
    assert !IsLocalAdd(was.state);
  }

  // ---------------------------------------------------------------- a whole reply

  ghost function AnnouncedAll(t: Table, rows: seq<Row>): seq<Event> {
    if rows == [] then []
    else
      var n := |rows| - 1;
      AnnouncedAll(t, rows[..n]) + Announced(ApplyRows(t, rows[..n]), rows[n])
  }

  /** A reply announces what each of its rows does, in order, and nothing else. */
  lemma {:induction false} ReplyAnnounces(t: Table, rows: seq<Row>, next: Option<nat>, count: nat)
    requires Inv(t) && FromBackend(rows)
    ensures Step(t, ReplyOp(rows, next, count)).log == t.log + AnnouncedAll(t, rows)
  {
    var t1 := if Continues(rows, next, count) then t.(sent := t.sent + [NextPage(rows, next, count)]) else t;
    InvFrame(t, t1);
    MergeIsApply(t1, rows);
    RowsAnnounce(t1, rows);
    SameAnnounced(t, t1, rows);
  }

  /** A reply whose rows all come after the table's settles nothing and loses nothing, whatever is recorded. */
  lemma {:induction false} LaterRowsSettleNothing(t: Table, rows: seq<Row>, next: Option<nat>, count: nat)
    requires rows != [] && forall id :: id in t.cells ==> id < rows[0].id
    ensures var r := Step(t, ReplyOp(rows, next, count));
      r.adds == t.adds && r.backups == t.backups && r.log == t.log && r.pending == t.pending
  {
    assert Appends(t, rows);
  }

  lemma {:induction false} RowsAnnounce(t: Table, rows: seq<Row>)
    requires Inv(t) && FromBackend(rows)
    ensures ApplyRows(t, rows).log == t.log + AnnouncedAll(t, rows)
  {
    if rows != [] {
      var n := |rows| - 1;
      RowsAnnounce(t, rows[..n]);
      ApplyRowsKeepsInv(t, rows[..n]);
      RowAnnounces(ApplyRows(t, rows[..n]), rows[n]);
    }
  }

  /** Announcements do not depend on the requests sent. */
  lemma {:induction false} SameAnnounced(t: Table, u: Table, rows: seq<Row>)
    requires u == t.(sent := u.sent)
    ensures AnnouncedAll(t, rows) == AnnouncedAll(u, rows)
    ensures ApplyRows(u, rows) == ApplyRows(t, rows).(sent := u.sent)
  {
    if rows != [] {
      var n := |rows| - 1;
      SameAnnounced(t, u, rows[..n]);
      SameRow(ApplyRows(t, rows[..n]), ApplyRows(u, rows[..n]), rows[n]);
    }
  }

  lemma {:induction false} SameRow(t: Table, u: Table, row: Row)
    requires u == t.(sent := u.sent)
    ensures ApplyRow(u, row) == ApplyRow(t, row).(sent := u.sent)
    ensures Announced(t, row) == Announced(u, row)
  {
    hide Describes, FindMatch, CheckPendingInsertion, CheckOverwrittenEdit;
    var cells := t.cells[row.id := Cell(row, Loaded)];
    SameInsertion(t.(cells := cells), u.(cells := cells), row);
    if row.id in t.cells {
      SameOverwrite(t.(cells := cells), u.(cells := cells), t.cells[row.id], row);
    }
  }

  lemma {:induction false} SameDrop(t: Table, u: Table, id: nat)
    requires u == t.(sent := u.sent)
    ensures DropBackup(u, id) == DropBackup(t, id).(sent := u.sent)
  {
  }

  lemma {:induction false} SameEnd(t: Table, u: Table, e: Event, id: nat)
    requires u == t.(sent := u.sent)
    ensures DropBackup(Emit(u, e), id) == DropBackup(Emit(t, e), id).(sent := u.sent)
  {
    SameDrop(Emit(t, e), Emit(u, e), id);
  }

  lemma {:induction false} SameDeletion(t: Table, u: Table, id: nat)
    requires u == t.(sent := u.sent)
    ensures DeleteRow(u, id) == DeleteRow(t, id).(sent := u.sent)
  {
    hide DropBackup, Emit, FieldsOf;
    if id in t.cells {
      var v, w := t.(cells := t.cells - {id}), u.(cells := u.cells - {id});
      SameEnd(v, w, Settled(id, FieldsOf(t.cells[id].row), None), id);
      SameEnd(v, w, Invalidated(id), id);
    }
    assert TakeOut(u, id) == TakeOut(t, id).(sent := u.sent);
  }

  lemma {:induction false} SameInsertion(t: Table, u: Table, row: Row)
    requires u == t.(sent := u.sent)
    ensures CheckPendingInsertion(u, row) == CheckPendingInsertion(t, row).(sent := u.sent)
  {
    hide FindMatch, DeleteRow, DropBackup, Emit;
    var k := FindMatch(t.adds, row);
    if k < |t.adds| {
      var id, adds := DraftIdOf(t.adds[k]), t.adds[..k] + t.adds[k + 1..];
      var e := Settled(id, t.adds[k] - {DRAFT_ID_KEY}, Some(row));
      SameDeletion(t.(adds := adds), u.(adds := adds), id);
      SameEnd(t.(adds := adds), u.(adds := adds), e, id);
      SameEnd(DeleteRow(t.(adds := adds), id), DeleteRow(u.(adds := adds), id), e, id);
    }
  }

  lemma {:induction false} SameOverwrite(t: Table, u: Table, was: Cell, row: Row)
    requires u == t.(sent := u.sent)
    ensures CheckOverwrittenEdit(u, was, row) == CheckOverwrittenEdit(t, was, row).(sent := u.sent)
  {
    hide FindAdd, FieldsOf, DropBackup;
    var id, e := was.row.id, Invalidated(was.row.id);
    match was.state
    case DraftAdd =>
      var k := FindAdd(t.adds, id);
      var adds := if k < |t.adds| then t.adds[..k] + t.adds[k + 1..] else t.adds;
      SameDrop(Emit(t, e).(adds := adds), Emit(u, e).(adds := adds), id);
    case PendingEdit => SameEnd(t, u, Settled(id, FieldsOf(was.row), Some(row)), id);
    case Loading => SameDrop(t, u, id);
    case PendingAdd => SameDrop(t, u, id);
    case _ => SameEnd(t, u, e, id);
  }

  /** The rows of a reply that were under an edit when it arrived are announced by the state they had then: a
      pending edit as settled, with its own values and the row's; any other edit as invalidated; an unedited row
      not at all. */
  lemma {:induction false} EditIsAnnounced(t: Table, rows: seq<Row>, k: nat)
    requires Inv(t) && FromBackend(rows) && k < |rows| && rows[k].id in t.cells && !t.cells[rows[k].id].state.Loading?
    ensures var row, was := rows[k], t.cells[rows[k].id];
      Announced(ApplyRows(t, rows[..k]), row) ==
        if was.state.PendingEdit? then
          [Settled(row.id,
                   map["id" := Number(row.id), "name" := Text(was.row.name), "tags" := Texts(was.row.tags)],
                   Some(row))]
        else if IsUnedited(was.state) then []
        else [Invalidated(row.id)]
  {
    var s, row, was := ApplyRows(t, rows[..k]), rows[k], t.cells[rows[k].id];
    assert FromBackend(rows[..k]);
    ReplyMerge(t, rows[..k]);
    RowCellsDomain(rows[..k]);
    NotYetThere(rows, k);
    assert !IsLocalAdd(was.state);
    assert row.id in s.cells && s.cells[row.id] == was;
  }

  /** Whatever the table holds, a draft add whose ID the backend reports is lost with its first record and its
      backup. */
  lemma {:induction false} AddIsOverwritten(t: Table, row: Row, k: nat)
    requires row.id in t.cells && t.cells[row.id].row.id == row.id && t.cells[row.id].state.DraftAdd?
    requires k < |t.adds| && DraftIdOf(t.adds[k]) == row.id && forall i :: 0 <= i < k ==> DraftIdOf(t.adds[i]) != row.id
    ensures var r := Step(t, ReplyOp([row], None, 0));
      && r.adds == t.adds[..k] + t.adds[k + 1..] && r.cells == t.cells[row.id := Cell(row, Loaded)]
      && r.backups == t.backups - {row.id} && r.log == t.log + [Invalidated(row.id)]
      && r.pending == (t.pending && t.backups - {row.id} != map[])
  {
    var rows := [row];
    assert !Appends(t, rows);
    assert rows[..0] == [];
    assert ApplyRows(t, rows) == ApplyRow(ApplyRows(t, []), row);
    assert FindAdd(t.adds, row.id) == k;
  }

  // ---------------------------------------------------------------- journal entries

  /** A row that the backend deletes: a pending deletion is settled without a row, a draft is invalidated. */
  lemma {:induction false} DeletionAnnounces(t: Table, id: nat)
    ensures Step(t, JournalDeleteOp(id)).log == t.log +
      if id !in t.cells then []
      else if t.cells[id].state.PendingDelete? then [Settled(id, Named(t.cells[id].row), None)]
      else if t.cells[id].state.DraftAdd? || t.cells[id].state.DraftEdit? || t.cells[id].state.DraftDelete? then
        [Invalidated(id)]
      else []
  {
    if id in t.cells {
      assert FieldsOf(t.cells[id].row) == Named(t.cells[id].row);
    }
  }

  /** A row that the backend changes: only a draft is announced, as invalidated. */
  lemma {:induction false} ChangeAnnounces(t: Table, id: nat, now: int)
    ensures Step(t, JournalModifyOp(id, now)).log == t.log +
      if id in t.cells &&
         (t.cells[id].state.DraftAdd? || t.cells[id].state.DraftEdit? || t.cells[id].state.DraftDelete?)
      then [Invalidated(id)] else []
  {
    MarkStaleIs(t, id, now);
  }

  // ---------------------------------------------------------------- over runs

  /** Of the events, only pending deletions overtaken by the backend are reported as lost. */
  ghost predicate LosesOnlyDeletions(t: Table, news: seq<Event>) {
    forall e :: e in news && e.Invalidated? ==> e.id in t.cells && t.cells[e.id].state.PendingDelete?
  }

  lemma {:induction false} RowLosesOnlyDeletions(t: Table, rows: seq<Row>, k: nat)
    requires Inv(t) && t.pending && FromBackend(rows) && k < |rows|
    ensures LosesOnlyDeletions(t, Announced(ApplyRows(t, rows[..k]), rows[k]))
  {
    var row, s := rows[k], ApplyRows(t, rows[..k]);
    if row.id in t.cells && !t.cells[row.id].state.Loading? {
      EditIsAnnounced(t, rows, k);
    } else {
      assert FromBackend(rows[..k]);
      ReplyMerge(t, rows[..k]);
      RowCellsDomain(rows[..k]);
      NotYetThere(rows, k);
      assert row.id !in s.cells || s.cells[row.id].state.Loading?;
    }
  }

  lemma {:induction false} ReplyLosesOnlyDeletions(t: Table, rows: seq<Row>, n: nat)
    requires Inv(t) && t.pending && FromBackend(rows) && n <= |rows|
    ensures LosesOnlyDeletions(t, AnnouncedAll(t, rows[..n]))
  {
    if n > 0 {
      ReplyLosesOnlyDeletions(t, rows, n - 1);
      RowLosesOnlyDeletions(t, rows, n - 1);
      assert rows[..n][..n - 1] == rows[..n - 1];
    }
  }

  /** While a table is pending, whatever step comes, only a pending deletion is ever reported as lost. */
  lemma {:induction false} PendingLosesOnlyDeletions(t: Table, op: Op)
    requires Inv(t) && t.pending && Admissible(t, op)
    ensures t.log <= Step(t, op).log && LosesOnlyDeletions(t, Step(t, op).log[|t.log|..])
  {
    match op
    case ReplyOp(rows, next, count) =>
      ReplyAnnounces(t, rows, next, count);
      ReplyLosesOnlyDeletions(t, rows, |rows|);
      assert rows[..|rows|] == rows;
    case RowReplyOp(id, rows, next) =>
      LoadAnswerLoses(t, id, rows, next);
    case JournalDeleteOp(id) => DeletionAnnounces(t, id);
    case JournalModifyOp(id, now) => ChangeAnnounces(t, id, now);
    case AttachOp(now) =>
      RefreshAllFrame(if t.shown == [] then FullRefresh(t) else t, AscendingIds(StaleRows(t)), now);
    case ResetOp => ResetIs(t);
    case _ =>
  }

  lemma {:induction false} LoadAnswerLoses(t: Table, id: nat, rows: seq<Row>, next: Option<nat>)
    requires Inv(t) && t.pending && FromBackend(rows)
    ensures var r := RowReply(t, id, rows, next);
      t.log <= r.log && LosesOnlyDeletions(t, r.log[|t.log|..])
  {
    hide ProcessRowsResponse, Inv, AnnouncedAll;
    var u := t.(loading := t.loading - {id});
    InvFrame(t, u);
    ReplyAnnounces(u, rows, next, 1);
    ReplyLosesOnlyDeletions(u, rows, |rows|);
    assert rows[..|rows|] == rows;
  }

  /** Over every run: an edit that is reported as lost by a step of a pending table was a pending deletion. */
  lemma {:induction false} LostWhilePending(ops: seq<Op>, k: nat)
    requires AdmissibleRun(EMPTY_TABLE, ops) && k < |ops| && Run(EMPTY_TABLE, ops[..k]).pending
    ensures var t, r := Run(EMPTY_TABLE, ops[..k]), Run(EMPTY_TABLE, ops[..k + 1]);
      t.log <= r.log && LosesOnlyDeletions(t, r.log[|t.log|..])
  {
    hide Inv, Step;
    EmptyKeepsInv();
    PrefixIsAdmissible(EMPTY_TABLE, ops, k + 1);
    assert ops[..k + 1][..k] == ops[..k];
    RunKeepsInv(EMPTY_TABLE, ops[..k]);
    PendingLosesOnlyDeletions(Run(EMPTY_TABLE, ops[..k]), ops[k]);
  }

  lemma {:induction false} EmptyKeepsInv()
    ensures Inv(EMPTY_TABLE)
  {
    assert DraftIds(EMPTY_TABLE.adds) == [];
  }

  lemma {:induction false} PrefixIsAdmissible(t: Table, ops: seq<Op>, k: nat)
    requires AdmissibleRun(t, ops) && k <= |ops|
    ensures AdmissibleRun(t, ops[..k])
    decreases |ops|
  {
    if k < |ops| {
      PrefixIsAdmissible(t, ops[..|ops| - 1], k);
      assert ops[..|ops| - 1][..k] == ops[..k];
    } else {
      assert ops[..k] == ops;
    }
  }

  // ---------------------------------------------------------------- from the add to its settlement

  function GroupFields(name: string, tags: seq<string>): Fields {
    map["name" := Text(name), "tags" := Texts(tags)]
  }

  /** The table once a group is added and the edits are submitted. */
  ghost function Submitted(t: Table, name: string, tags: seq<string>): Table {
    Step(Step(t, AddOp(GroupFields(name, tags))), PendOp)
  }

  lemma {:induction false} SubmittedAddIs(t: Table, name: string, tags: seq<string>)
    requires Inv(t) && !t.pending && t.adds == []
    ensures var r, id := Submitted(t, name, tags), NextDraftId(t.cells.Keys);
      && Inv(r) && r.pending && r.adds == [GroupFields(name, tags)[DRAFT_ID_KEY := Number(id)]]
      && id !in t.cells && BASE_DRAFT_ID <= id
      && id in r.cells && r.cells[id] == Cell(Row(id, name, tags), PendingAdd) && id in r.backups
      && forall k :: k != id ==> (k in r.cells <==> k in t.cells)
  {
    var f, id := GroupFields(name, tags), NextDraftId(t.cells.Keys);
    var a := DraftAddRow(t, f);
    assert Overlay(f, DEFAULT_ROW) == Row(0, name, tags);
    assert id !in t.cells.Keys;
    DraftAddKeepsInv(t, f);
    MarkPendingKeepsInv(a);
    assert id in a.backups;
  }

  /** A group that is added and submitted is settled by the row that has its name and tags: no local add is left,
      and its submitted fields are announced with the row. */
  lemma {:induction false} AddIsSettled(t: Table, name: string, tags: seq<string>, id: nat)
    requires Inv(t) && !t.pending && t.adds == [] && id < BASE_DRAFT_ID && id !in t.cells
    ensures var u, draft := Submitted(t, name, tags), NextDraftId(t.cells.Keys);
      var r := Step(u, ReplyOp([Row(id, name, tags)], None, 0));
      && r.adds == [] && draft !in r.cells && draft !in r.backups
      && id in r.cells && r.cells[id] == Cell(Row(id, name, tags), Loaded)
      && r.log == u.log + [Settled(draft, GroupFields(name, tags), Some(Row(id, name, tags)))]
  {
    hide Step, Submitted;
    SubmittedAddIs(t, name, tags);
    OnlyAddSettled(Submitted(t, name, tags), GroupFields(name, tags), NextDraftId(t.cells.Keys), Row(id, name, tags));
  }

  lemma {:induction false} OnlyAddSettled(u: Table, f: Fields, draft: nat, row: Row)
    requires Inv(u) && u.pending && u.adds == [f[DRAFT_ID_KEY := Number(draft)]] && f == GroupFields(row.name, row.tags)
    requires row.id < BASE_DRAFT_ID <= draft && row.id !in u.cells
    ensures var r := Step(u, ReplyOp([row], None, 0));
      && r.adds == [] && draft !in r.cells && draft !in r.backups
      && row.id in r.cells && r.cells[row.id] == Cell(row, Loaded)
      && r.log == u.log + [Settled(draft, f, Some(row))]
  {
    hide Step;
    assert Describes(u.adds[0], row);
    assert FirstDescribing(u.adds, row, 0);
    NewRowTakesFirst(u, row);
    assert u.adds[0] - {DRAFT_ID_KEY} == f;
    assert u.adds[..0] + u.adds[0 + 1..] == [];
    assert DraftIdOf(u.adds[0]) == draft;
  }

  /** A row with another name or other tags leaves the record, the row and the backup of the add alone. */
  lemma {:induction false} AddIsNotSettled(t: Table, name: string, tags: seq<string>, row: Row)
    requires Inv(t) && !t.pending && t.adds == [] && row.id < BASE_DRAFT_ID && row.id !in t.cells
    requires row.name != name || row.tags != tags
    ensures var u, draft := Submitted(t, name, tags), NextDraftId(t.cells.Keys);
      var r := Step(u, ReplyOp([row], None, 0));
      && r.adds == u.adds && |r.adds| == 1 && r.backups == u.backups && draft in r.backups
      && draft in r.cells && r.cells[draft] == Cell(Row(draft, name, tags), PendingAdd) && r.log == u.log
  {
    var u := Submitted(t, name, tags);
    SubmittedAddIs(t, name, tags);
    var key := if row.name != name then "name" else "tags";
    assert key in u.adds[0] && key in Named(row) && Converted(u.adds[0][key], Named(row)[key]) != Named(row)[key];
    assert !Describes(u.adds[0], row);
    NewRowTakesFirst(u, row);
  }
}
