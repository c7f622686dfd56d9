/** A node, a link that delivers replies in the order they were served, and a table that may be edited meanwhile. */
module Coherence {
  import opened TableTypes
  import opened TableSpec
  import opened Restoration
  import opened TableInvariants
  import opened Simulation
  import opened JournalEntries

  type Backend = map<nat, Row>

  datatype Message =
    | RowsMessage(request: Request, rows: seq<Row>, next: Option<nat>, version: nat)
    | JournalMessage(from: nat, to: nat)

  /** `history[v]` is the backend's table after the first `v` journal entries. The client has processed the
      first `processed` of them, and read each row it was ever sent at the version `read` records. */
  datatype System = System(
    history: seq<Backend>,
    journal: seq<JournalEntry>,
    served: multiset<Request>,
    replies: seq<Message>,
    client: Table,
    processed: nat,
    read: map<nat, nat>)

  function InTransit(s: System): multiset<Request> {
    multiset(s.client.sent) - s.served
  }

  // ---------------------------------------------------------------- the backend

  ghost predicate Stored(db: Backend) {
    forall id :: id in db ==> id < BASE_DRAFT_ID && db[id].id == id
  }

  /** One change of the table, and the journal entry that is written with it. */
  ghost predicate Follows(before: Backend, e: JournalEntry, after: Backend) {
    match e.kind
    case Add => e.key !in before && e.key in after && after - {e.key} == before
    case Delete => e.key in before && after == before - {e.key}
    case Modify => e.key in before && e.key in after && after - {e.key} == before - {e.key}
    case Elsewhere => after == before
  }

  predicate Touches(e: JournalEntry, id: nat) {
    !e.kind.Elsewhere? && e.key == id
  }

  ghost predicate Untouched(journal: seq<JournalEntry>, id: nat, lo: nat, hi: nat) {
    forall q :: lo <= q < hi && q < |journal| ==> !Touches(journal[q], id)
  }

  ghost predicate DeletedIn(journal: seq<JournalEntry>, id: nat, lo: nat, hi: nat) {
    exists q :: lo <= q < hi && q < |journal| && journal[q] == JournalEntry(Delete, id)
  }

  ghost predicate Chain(history: seq<Backend>, journal: seq<JournalEntry>) {
    && |history| == |journal| + 1
    && (forall v :: 0 <= v < |history| ==> Stored(history[v]))
    && (forall v :: 0 <= v < |journal| ==> Follows(history[v], journal[v], history[v + 1]))
  }

  lemma {:induction false} FollowsElsewhere(before: Backend, e: JournalEntry, after: Backend, id: nat)
    requires Follows(before, e, after) && !Touches(e, id)
    ensures (id in before <==> id in after) && (id in before ==> before[id] == after[id])
  {
    assert id in before - {e.key} <==> id in before && id != e.key;
    assert id in after - {e.key} <==> id in after && id != e.key;
    if id in before && id != e.key {
      assert (before - {e.key})[id] == before[id];
      assert (after - {e.key})[id] == after[id];
    }
  }

  lemma {:induction false} UntouchedIsUnchanged(history: seq<Backend>, journal: seq<JournalEntry>, id: nat, lo: nat,
          hi: nat)
    requires Chain(history, journal) && lo <= hi <= |journal| && Untouched(journal, id, lo, hi)
    ensures (id in history[lo] <==> id in history[hi]) && (id in history[lo] ==> history[lo][id] == history[hi][id])
    decreases hi - lo
  {
    if lo < hi {
      UntouchedIsUnchanged(history, journal, id, lo, hi - 1);
      FollowsElsewhere(history[hi - 1], journal[hi - 1], history[hi], id);
    }
  }

  lemma {:induction false} VanishedMeansDeleted(history: seq<Backend>, journal: seq<JournalEntry>, id: nat, lo: nat,
          hi: nat)
    requires Chain(history, journal) && lo <= hi <= |journal| && id in history[lo] && id !in history[hi]
    ensures DeletedIn(journal, id, lo, hi)
    decreases hi - lo
  {
    if id in history[hi - 1] {
      if !Touches(journal[hi - 1], id) {
        FollowsElsewhere(history[hi - 1], journal[hi - 1], history[hi], id);
      }
      assert journal[hi - 1] == JournalEntry(Delete, id);
    } else {
      VanishedMeansDeleted(history, journal, id, lo, hi - 1);
    }
  }

  // ---------------------------------------------------------------- the node's answers

  /** Rows of the backend in order: all of them from the page's key to the next key, or the requested row. */
  ghost predicate Answers(request: Request, rows: seq<Row>, next: Option<nat>, db: Backend) {
    && Ascending(rows)
    && (forall k :: 0 <= k < |rows| ==> rows[k].id in db && db[rows[k].id] == rows[k])
    && match request
       case LoadRow(id) => id in db ==> id in IdsOf(rows)
       case Page(from, _) =>
         forall id :: id in db && from <= id && (next.Some? ==> id < next.value) ==> id in IdsOf(rows)
  }

  function React(t: Table, m: Message): Table
    requires m.RowsMessage?
  {
    match m.request
    case LoadRow(id) => RowReply(t, id, m.rows, m.next)
    case Page(_, count) => ProcessRowsResponse(t, m.rows, m.next, count)
  }

  // ---------------------------------------------------------------- the steps

  datatype Action =
    | Commit(entry: JournalEntry, after: Backend)
    | ServeRows(request: Request, rows: seq<Row>, next: Option<nat>)
    | ServeJournal(from: nat, to: nat)
    | HandleRows
    | HandleJournal(now: int)
    | Lose
    | Local(op: Op)

  predicate IsLocal(op: Op) {
    op.EditOp? || op.AddOp? || op.DeleteOp? || op.PendOp? || op.ResetOp? || op.FullRefreshOp? || op.AttachOp?
  }

  predicate Deferring(t: Table, id: nat) {
    id in t.cells && IsPendingOverlay(t.cells[id].state)
  }

  /** A reset comes while no row is under a pending edit or delete, whose refresh might have been deferred. */
  ghost predicate Permitted(t: Table, op: Op) {
    IsLocal(op) && Faithful(t, op) && (op.ResetOp? ==> forall id :: !Deferring(t, id))
  }

  /** Replies are handled in order; a journal reply that is not empty continues where the last one ended. */
  ghost predicate Enabled(s: System, a: Action) {
    match a
    case Commit(entry, after) => s.history != [] && Stored(after) && Follows(s.history[|s.history| - 1], entry, after)
    case ServeRows(request, rows, next) =>
      request in InTransit(s) && s.history != [] && Answers(request, rows, next, s.history[|s.history| - 1])
    case ServeJournal(from, to) => from <= to <= |s.journal|
    case HandleRows => s.replies != [] && s.replies[0].RowsMessage?
    case HandleJournal(_) => s.replies != [] && s.replies[0].JournalMessage? &&
      (s.replies[0].from == s.replies[0].to || s.replies[0].from == s.processed)
    case Lose => s.replies != []
    case Local(op) => Permitted(s.client, op)
  }

  /** The client processes the next journal entry. */
  function HandleEntry(s: System, now: int): System {
    if s.processed < |s.journal| then
      s.(client := ApplyEntry(s.client, s.journal[s.processed], now), processed := s.processed + 1)
    else s
  }

  function HandleEntries(s: System, n: nat, now: int): System {
    if n == 0 then s else HandleEntry(HandleEntries(s, n - 1, now), now)
  }

  /** An unanswered row load is forgotten by the client too. */
  function Forget(t: Table, m: Message): Table {
    if m.RowsMessage? && m.request.LoadRow? then t.(loading := t.loading - {m.request.id}) else t
  }

  ghost function Do(s: System, a: Action): System
    requires Enabled(s, a)
  {
    match a
    case Commit(entry, after) => s.(history := s.history + [after], journal := s.journal + [entry])
    case ServeRows(request, rows, next) =>
      s.(served := s.served + multiset{request},
         replies := s.replies + [RowsMessage(request, rows, next, |s.history| - 1)])
    case ServeJournal(from, to) => s.(replies := s.replies + [JournalMessage(from, to)])
    case HandleRows =>
      var m := s.replies[0];
      s.(replies := s.replies[1..], client := React(s.client, m),
         read := s.read + (map id | id in IdsOf(m.rows) :: m.version))
    case HandleJournal(now) =>
      var m, popped := s.replies[0], s.(replies := s.replies[1..]);
      if m.from < m.to then HandleEntries(popped, m.to - m.from, now) else popped
    case Lose => s.(replies := s.replies[1..], client := Forget(s.client, s.replies[0]))
    case Local(op) => s.(client := Step(s.client, op))
  }

  ghost predicate EnabledRun(s: System, actions: seq<Action>) {
    actions == [] ||
    (EnabledRun(s, actions[..|actions| - 1]) && Enabled(Reach(s, actions[..|actions| - 1]), actions[|actions| - 1]))
  }

  ghost function Reach(s: System, actions: seq<Action>): System {
    if actions == [] then s
    else
      var before, a := Reach(s, actions[..|actions| - 1]), actions[|actions| - 1];
      if Enabled(before, a) then Do(before, a) else before
  }

  /** The journal has just been caught up with; the table is empty, a model is attached, and everything is asked for. */
  ghost predicate Initial(s: System) {
    && Chain(s.history, s.journal) && s.processed <= |s.journal|
    && s.replies == [] && s.served == multiset{} && s.read == map[]
    && s.client == EMPTY_TABLE.(shown := [{}], sent := [Page(0, 0)])
  }

  // ---------------------------------------------------------------- what is always so

  ghost predicate ValidMessage(s: System, m: Message) {
    if m.JournalMessage? then m.from <= m.to <= |s.journal|
    else s.processed <= m.version < |s.history| && Answers(m.request, m.rows, m.next, s.history[m.version])
  }

  /** A reply served after a journal reply was read no earlier than the entries in it. */
  ghost predicate Ordered(replies: seq<Message>) {
    forall i, j :: 0 <= i < j < |replies| && replies[i].JournalMessage? && replies[j].RowsMessage? ==>
      replies[i].to <= replies[j].version
  }

  ghost predicate Shape(s: System) {
    && Chain(s.history, s.journal) && s.processed <= |s.journal|
    && (forall i :: 0 <= i < |s.replies| ==> ValidMessage(s, s.replies[i]))
    && Ordered(s.replies)
    && s.served <= multiset(s.client.sent)
    && Inv(s.client)
  }

  /** The client last read the row at a version since which it has processed no entry about it. */
  ghost predicate Fresh(b: map<nat, Cell>, s: System, id: nat) {
    && id in b && b[id].state.Loaded?
    && id in s.read && s.read[id] < |s.history|
    && id in s.history[s.read[id]] && s.history[s.read[id]][id] == b[id].row
    && Untouched(s.journal, id, s.read[id], s.processed)
  }

  /** A row that claims to be loaded, and whose refresh is not deferred by a pending edit, is fresh. */
  ghost predicate Safe(s: System) {
    var b := BaseView(s.client);
    forall id :: id in b && b[id].state.Loaded? && !Deferring(s.client, id) ==> Fresh(b, s, id)
  }

  // ---------------------------------------------------------------- what the client does, seen from outside

  /** Requests only accumulate, and a row newly marked as loading has been asked for. */
  ghost predicate Asks(t: Table, r: Table) {
    && t.sent <= r.sent
    && forall id :: id in r.loading && id !in t.loading ==> LoadRow(id) in r.sent[|t.sent|..]
  }

  lemma {:induction false} AsksTransitive(t: Table, u: Table, r: Table)
    requires Asks(t, u) && Asks(u, r)
    ensures Asks(t, r)
  {
    assert r.sent[|t.sent|..] == u.sent[|t.sent|..] + r.sent[|u.sent|..];
  }

  lemma {:induction false} RefreshAsks(t: Table, id: nat, now: int)
    ensures var r := Refresh(t, id, now);
      Asks(t, r) && (id in t.loading || LoadRow(id) in r.sent[|t.sent|..])
  {
  }

  lemma {:induction false} RefreshTimesAsks(t: Table, id: nat, now: int, times: nat)
    ensures var r := RefreshTimes(t, id, now, times);
      Asks(t, r) && (times > 0 ==> id in t.loading || LoadRow(id) in r.sent[|t.sent|..])
  {
    if times > 0 {
      var u := RefreshTimes(t, id, now, times - 1);
      RefreshTimesAsks(t, id, now, times - 1);
      RefreshAsks(u, id, now);
      AsksTransitive(t, u, Refresh(u, id, now));
    }
  }

  lemma {:induction false} RefreshAllAsks(t: Table, ids: seq<nat>, now: int)
    ensures Asks(t, RefreshAll(t, ids, now))
  {
    if ids != [] {
      var n := |ids| - 1;
      RefreshAllAsks(t, ids[..n], now);
      RefreshAsks(RefreshAll(t, ids[..n], now), ids[n], now);
      AsksTransitive(t, RefreshAll(t, ids[..n], now), RefreshAll(t, ids, now));
    }
  }

  /** Same requests, same loads under way, as many models. */
  ghost predicate Quiet(t: Table, r: Table) {
    r.sent == t.sent && r.loading == t.loading && |r.shown| == |t.shown|
  }

  lemma {:induction false} DeleteIsQuiet(t: Table, id: nat)
    ensures Quiet(t, DeleteRow(t, id))
  {
  }

  lemma {:induction false} InsertionIsQuiet(t: Table, row: Row)
    ensures Quiet(t, CheckPendingInsertion(t, row))
  {
    var k := FindMatch(t.adds, row);
    if k < |t.adds| {
      DeleteIsQuiet(t.(adds := t.adds[..k] + t.adds[k + 1..]), DraftIdOf(t.adds[k]));
    }
  }

  lemma {:induction false} OverwriteIsQuiet(t: Table, was: Cell, row: Row)
    ensures Quiet(t, CheckOverwrittenEdit(t, was, row))
  {
  }

  lemma {:induction false} ApplyRowIsQuiet(t: Table, row: Row)
    ensures Quiet(t, ApplyRow(t, row))
  {
    var t1 := t.(cells := t.cells[row.id := Cell(row, Loaded)]);
    InsertionIsQuiet(t1, row);
    if row.id in t.cells {
      OverwriteIsQuiet(t1, t.cells[row.id], row);
    }
  }

  lemma {:induction false} ApplyRowsIsQuiet(t: Table, rows: seq<Row>)
    ensures Quiet(t, ApplyRows(t, rows))
  {
    if rows != [] {
      ApplyRowsIsQuiet(t, rows[..|rows| - 1]);
      ApplyRowIsQuiet(ApplyRows(t, rows[..|rows| - 1]), rows[|rows| - 1]);
    }
  }

  lemma {:induction false} ReplyAsks(t: Table, rows: seq<Row>, next: Option<nat>, count: nat)
    ensures var r := ProcessRowsResponse(t, rows, next, count);
      Quiet(if Continues(rows, next, count) then t.(sent := t.sent + [NextPage(rows, next, count)]) else t, r)
  {
    var t1 := if Continues(rows, next, count) then t.(sent := t.sent + [NextPage(rows, next, count)]) else t;
    ApplyRowsIsQuiet(t1, rows);
  }

  lemma {:induction false} LocalAsks(t: Table, op: Op)
    requires Inv(t) && Permitted(t, op)
    ensures Asks(t, Step(t, op))
  {
    if op.ResetOp? {
      ResetIs(t);
    } else if op.AttachOp? {
      var t1 := if t.shown == [] then FullRefresh(t) else t;
      RefreshAllAsks(t1, AscendingIds(StaleRows(t)), op.now);
      AsksTransitive(t, t1, RefreshAll(t1, AscendingIds(StaleRows(t)), op.now));
    }
  }

  lemma {:induction false} MarkStaleAsks(t: Table, id: nat, now: int)
    ensures var r := MarkStale(t, id, now);
      && Asks(t, r) && |r.shown| == |t.shown|
      && (Deferring(t, id) || t.shown != [] ==> id in t.loading || LoadRow(id) in r.sent[|t.sent|..])
  {
    MarkStaleIs(t, id, now);
    if Deferring(t, id) {
      RefreshAsks(t, id, now);
    } else {
      RefreshTimesAsks(Staled(t, id), id, now, |t.shown|);
    }
  }

  /** Processing an entry that adds or modifies a row leaves a load of the row under way. */
  lemma {:induction false} EntryAsks(t: Table, e: JournalEntry, now: int)
    ensures var r := ApplyEntry(t, e, now);
      && Asks(t, r) && |r.shown| == |t.shown|
      && (e.kind.Add? || (e.kind.Modify? && (Deferring(t, e.key) || t.shown != [])) ==>
            e.key in t.loading || LoadRow(e.key) in r.sent[|t.sent|..])
  {
    match e.kind
    case Add => RefreshAsks(t, e.key, now);
    case Delete => DeleteIsQuiet(t, e.key);
    case Modify => MarkStaleAsks(t, e.key, now);
    case Elsewhere =>
  }

  function OpOf(e: JournalEntry, now: int): Op
    requires !e.kind.Elsewhere?
  {
    match e.kind
    case Add => JournalAddOp(e.key, now)
    case Delete => JournalDeleteOp(e.key)
    case Modify => JournalModifyOp(e.key, now)
  }

  lemma {:induction false} EntryView(t: Table, e: JournalEntry, now: int)
    requires Inv(t) && (e.kind.Elsewhere? || e.key < BASE_DRAFT_ID)
    ensures Inv(ApplyEntry(t, e, now))
    ensures BaseView(ApplyEntry(t, e, now)) ==
      if e.kind.Elsewhere? || (e.kind.Modify? && Deferring(t, e.key)) then BaseView(t)
      else PlainStep(BaseView(t), OpOf(e, now))
    ensures forall id :: Deferring(t, id) && id in ApplyEntry(t, e, now).cells ==> Deferring(ApplyEntry(t, e, now), id)
  {
    hide BaseView, TableInvariants.Inv, MarkStale, GetNew, DeleteRow;
    if !e.kind.Elsewhere? {
      var op := OpOf(e, now);
      StepKeepsInv(t, op);
      FaithfulStep(t, op);
      forall id | Deferring(t, id) && id in Step(t, op).cells ensures Deferring(Step(t, op), id) {
        OverlayPersists(t, op, id);
      }
    }
  }

  /** What an entry makes of one row of the base view. */
  lemma {:induction false} EntryOnRow(t: Table, e: JournalEntry, now: int, id: nat)
    requires Inv(t) && (e.kind.Elsewhere? || e.key < BASE_DRAFT_ID)
    ensures var b, c := BaseView(t), BaseView(ApplyEntry(t, e, now));
      if !Touches(e, id) then (id in c <==> id in b) && (id in b ==> c[id] == b[id])
      else match e.kind
        case Add => id in c && if id in b then c[id] == b[id] else c[id].state.Loading?
        case Delete => id !in c
        case Modify => (id in c <==> id in b) && (id in b ==>
          if Deferring(t, id) then c[id] == b[id] else c[id].state.Stale?)
        case Elsewhere => true
    ensures Deferring(t, id) && id in BaseView(ApplyEntry(t, e, now)) ==> Deferring(ApplyEntry(t, e, now), id)
  {
    hide ApplyEntry, BaseView, TableInvariants.Inv;
    EntryView(t, e, now);
    ViewedRow(ApplyEntry(t, e, now), id);
  }

  lemma {:induction false} ViewedRow(t: Table, id: nat)
    ensures id in BaseView(t) ==> id in t.cells
  {
  }

  lemma {:induction false} ReactView(t: Table, m: Message, db: Backend)
    requires Inv(t) && m.RowsMessage? && Stored(db) && Answers(m.request, m.rows, m.next, db)
    ensures Inv(React(t, m))
    ensures BaseView(React(t, m)) == BaseView(t) + RowCells(m.rows)
    ensures forall id :: Deferring(t, id) && id !in IdsOf(m.rows) && id in React(t, m).cells ==>
      Deferring(React(t, m), id)
  {
    var op := match m.request
      case LoadRow(id) => RowReplyOp(id, m.rows, m.next)
      case Page(_, count) => ReplyOp(m.rows, m.next, count);
    StepKeepsInv(t, op);
    FaithfulStep(t, op);
    forall id | Deferring(t, id) && id !in IdsOf(m.rows) && id in React(t, m).cells ensures Deferring(React(t, m), id) {
      OverlayPersists(t, op, id);
    }
  }

  lemma {:induction false} LocalView(t: Table, op: Op)
    requires Inv(t) && Permitted(t, op)
    ensures Inv(Step(t, op)) && BaseView(Step(t, op)) == BaseView(t)
    ensures forall id :: Deferring(t, id) && id in BaseView(t) ==> Deferring(Step(t, op), id)
  {
    StepKeepsInv(t, op);
    FaithfulStep(t, op);
    forall id | Deferring(t, id) && id in BaseView(t) ensures Deferring(Step(t, op), id) {
      assert id in BaseView(Step(t, op));
      OverlayPersists(t, op, id);
    }
  }
}
