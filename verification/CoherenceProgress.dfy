/** While no reply is lost, every row that is not up to date has a load or a deletion on its way; so once nothing
    is on its way the base view is the backend's table. */
module CoherenceProgress {
  import opened TableTypes
  import opened TableSpec
  import opened Restoration
  import opened TableInvariants
  import opened Simulation
  import opened JournalEntries
  import opened Coherence
  import opened CoherenceSafety

  // ---------------------------------------------------------------- what is on its way

  predicate IsLoadOf(m: Message, id: nat) {
    m.RowsMessage? && m.request == LoadRow(id)
  }

  ghost predicate LoadOnTheWay(s: System, id: nat) {
    LoadRow(id) in InTransit(s) || exists i :: 0 <= i < |s.replies| && IsLoadOf(s.replies[i], id)
  }

  ghost predicate DeletionOnTheWay(s: System, id: nat) {
    DeletedIn(s.journal, id, s.processed, |s.journal|)
  }

  /** The answer to an unlimited page holds the row, or its continuation will, or the row was gone by then. */
  ghost predicate Brings(history: seq<Backend>, m: Message, id: nat) {
    && m.RowsMessage? && m.request.Page? && m.request.count == 0 && m.request.from <= id && m.version < |history|
    && ((m.next.Some? && m.next.value <= id) || id in IdsOf(m.rows) || id !in history[m.version])
  }

  ghost predicate PageOnTheWay(s: System, id: nat) {
    || (exists from: nat :: Page(from, 0) in InTransit(s) && from <= id)
    || (exists i :: 0 <= i < |s.replies| && Brings(s.history, s.replies[i], id))
  }

  /** The row exists as far as the client has read the journal, and news of it is coming. */
  ghost predicate Waiting(s: System, id: nat) {
    s.processed < |s.history| && id in s.history[s.processed] && (LoadOnTheWay(s, id) || DeletionOnTheWay(s, id))
  }

  ghost predicate LoadingIsAsked(s: System) {
    forall id :: id in s.client.loading ==> LoadOnTheWay(s, id)
  }

  ghost predicate FreshOrWaiting(s: System) {
    var b := BaseView(s.client);
    forall id :: id in b ==> Fresh(b, s, id) || Waiting(s, id)
  }

  ghost predicate NothingMissed(s: System) {
    s.processed < |s.history| &&
    forall id :: id in s.history[s.processed] && id !in BaseView(s.client) ==>
      DeletionOnTheWay(s, id) || PageOnTheWay(s, id)
  }

  ghost predicate Live(s: System) {
    s.client.shown != [] && LoadingIsAsked(s) && FreshOrWaiting(s) && NothingMissed(s)
  }

  // ---------------------------------------------------------------- how it stays on its way

  /** The same replies, or more; the same requests under way, or more. */
  ghost predicate StaysOnTheWay(s: System, r: System) {
    && r.history == s.history && r.journal == s.journal && r.replies == s.replies
    && InTransit(s) <= InTransit(r)
  }

  lemma {:induction false} MoreSent(s: System, t: Table)
    requires s.client.sent <= t.sent
    ensures StaysOnTheWay(s, s.(client := t))
  {
    assert t.sent == s.client.sent + t.sent[|s.client.sent|..];
  }

  lemma {:induction false} NewlySent(s: System, t: Table, request: Request)
    requires s.client.sent <= t.sent && request in t.sent[|s.client.sent|..] && s.served <= multiset(s.client.sent)
    ensures request in InTransit(s.(client := t))
  {
    assert t.sent == s.client.sent + t.sent[|s.client.sent|..];
    assert multiset(t.sent) == multiset(s.client.sent) + multiset(t.sent[|s.client.sent|..]);
  }

  lemma {:induction false} OnTheWayContinues(s: System, r: System, id: nat)
    requires StaysOnTheWay(s, r)
    ensures LoadOnTheWay(s, id) ==> LoadOnTheWay(r, id)
    ensures PageOnTheWay(s, id) ==> PageOnTheWay(r, id)
  {
  }

  // ---------------------------------------------------------------- journal entries

  /** Processing the entries up to a deletion does not take it away, unless it is that very entry. */
  lemma {:induction false} DeletionRemains(s: System, r: System, id: nat)
    requires r == s.(client := r.client, processed := s.processed + 1) && s.processed < |s.journal|
    requires DeletionOnTheWay(s, id) && s.journal[s.processed] != JournalEntry(Delete, id)
    ensures DeletionOnTheWay(r, id)
  {
    var q :| s.processed <= q < |s.journal| && s.journal[q] == JournalEntry(Delete, id);
    assert r.processed <= q;
  }

  lemma {:induction false} EntryKeepsLoading(s: System, now: int)
    requires Shape(s) && s.processed < |s.journal| && LoadingIsAsked(s)
    ensures LoadingIsAsked(HandleEntry(s, now))
    ensures StaysOnTheWay(s, HandleEntry(s, now)) && |HandleEntry(s, now).client.shown| == |s.client.shown|
    ensures var e := s.journal[s.processed];
      e.kind.Add? || (e.kind.Modify? && s.client.shown != []) ==> LoadOnTheWay(HandleEntry(s, now), e.key)
  {
    var e, r := s.journal[s.processed], HandleEntry(s, now);
    EntryAsks(s.client, e, now);
    MoreSent(s, r.client);
    forall id | id in r.client.loading || (id == e.key && LoadRow(id) in r.client.sent[|s.client.sent|..])
      ensures LoadOnTheWay(r, id)
    {
      if LoadRow(id) in r.client.sent[|s.client.sent|..] {
        NewlySent(s, r.client, LoadRow(id));
      } else {
        OnTheWayContinues(s, r, id);
      }
    }
    if e.key in s.client.loading {
      OnTheWayContinues(s, r, e.key);
    }
  }

  /** A waiting row that the next entry does not touch keeps waiting. */
  lemma {:induction false} StillWaiting(s: System, r: System, id: nat)
    requires Waiting(s, id) && StaysOnTheWay(s, r)
    requires r == s.(client := r.client, processed := s.processed + 1) && s.processed < |s.journal|
    requires Chain(s.history, s.journal) && !Touches(s.journal[s.processed], id)
    ensures Waiting(r, id)
  {
    FollowsElsewhere(s.history[s.processed], s.journal[s.processed], s.history[s.processed + 1], id);
    OnTheWayContinues(s, r, id);
    if DeletionOnTheWay(s, id) {
      DeletionRemains(s, r, id);
    }
  }

  /** A row that the next entry adds or modifies is being loaded. */
  lemma {:induction false} TouchedIsWaiting(s: System, now: int, id: nat)
    requires Shape(s) && s.processed < |s.journal| && LoadingIsAsked(s) && s.client.shown != []
    requires Touches(s.journal[s.processed], id) && !s.journal[s.processed].kind.Delete?
    ensures Waiting(HandleEntry(s, now), id)
  {
    EntryKey(s);
    EntryKeepsLoading(s, now);
  }

  lemma {:induction false} UntouchedOnWaiting(s: System, now: int, id: nat)
    requires Shape(s) && s.processed < |s.journal| && LoadingIsAsked(s) && !Touches(s.journal[s.processed], id)
    requires Waiting(s, id)
    ensures Waiting(HandleEntry(s, now), id)
  {
    EntryKeepsLoading(s, now);
    EntryIsApplied(s, now);
    StillWaiting(s, HandleEntry(s, now), id);
  }

  lemma {:induction false} EntryOnWaiting(s: System, now: int, id: nat)
    requires Shape(s) && s.processed < |s.journal| && Live(s)
    requires id in BaseView(HandleEntry(s, now).client)
    ensures var r := HandleEntry(s, now);
      Fresh(BaseView(r.client), r, id) || Waiting(r, id)
  {
    var e := s.journal[s.processed];
    EntryKey(s);
    EntryOnRow(s.client, e, now, id);
    if Touches(e, id) {
      TouchedIsWaiting(s, now, id);
    } else if Fresh(BaseView(s.client), s, id) {
      EntryKeepsFresh(s, now, id);
    } else {
      UntouchedOnWaiting(s, now, id);
    }
  }

  lemma {:induction false} EntryMissesNothing(s: System, now: int, id: nat)
    requires Shape(s) && s.processed < |s.journal| && Live(s)
    requires var r := HandleEntry(s, now);
      id in s.history[s.processed + 1] && id !in BaseView(r.client)
    ensures var r := HandleEntry(s, now);
      DeletionOnTheWay(r, id) || PageOnTheWay(r, id)
  {
    hide Fresh, Waiting, ApplyEntry, BaseView;
    var e, r := s.journal[s.processed], HandleEntry(s, now);
    EntryKey(s);
    EntryOnRow(s.client, e, now, id);
    EntryKeepsLoading(s, now);
    if !Touches(e, id) {
      FollowsElsewhere(s.history[s.processed], e, s.history[s.processed + 1], id);
    }
    assert id in s.history[s.processed] && id !in BaseView(s.client);
    OnTheWayContinues(s, r, id);
    if DeletionOnTheWay(s, id) {
      DeletionRemains(s, r, id);
    }
  }

  lemma {:induction false} EntryKeepsRows(s: System, now: int)
    requires Shape(s) && s.processed < |s.journal| && Live(s)
    ensures FreshOrWaiting(HandleEntry(s, now)) && NothingMissed(HandleEntry(s, now))
  {
    var r := HandleEntry(s, now);
    var b := BaseView(r.client);
    assert r.history == s.history && r.processed == s.processed + 1;
    forall id | id in b ensures Fresh(b, r, id) || Waiting(r, id) {
      EntryOnWaiting(s, now, id);
    }
    forall id | id in r.history[r.processed] && id !in b ensures DeletionOnTheWay(r, id) || PageOnTheWay(r, id) {
      EntryMissesNothing(s, now, id);
    }
  }

  lemma {:induction false} EntryKeepsLive(s: System, now: int)
    requires Shape(s) && s.processed < |s.journal| && Live(s)
    ensures Live(HandleEntry(s, now))
  {
    EntryKeepsLoading(s, now);
    EntryKeepsRows(s, now);
  }

  lemma {:induction false} EntriesKeepLive(s: System, n: nat, now: int)
    requires Shape(s) && Safe(s) && Live(s) && s.processed + n <= |s.journal| && Ahead(s, s.processed + n)
    ensures Live(HandleEntries(s, n, now))
  {
    hide Live, Shape, Safe, HandleEntry;
    if n > 0 {
      EntriesKeepLive(s, n - 1, now);
      EntriesKeep(s, n - 1, now);
      EntryKeepsLive(HandleEntries(s, n - 1, now), now);
    }
  }

  // ---------------------------------------------------------------- handling a reply

  lemma {:induction false} PoppedLoad(s: System, r: System, id: nat)
    requires s.replies != [] && r.replies == s.replies[1..] && InTransit(s) <= InTransit(r)
    requires LoadOnTheWay(s, id) && !IsLoadOf(s.replies[0], id)
    ensures LoadOnTheWay(r, id)
  {
    if LoadRow(id) !in InTransit(s) {
      var i :| 0 <= i < |s.replies| && IsLoadOf(s.replies[i], id);
      assert r.replies[i - 1] == s.replies[i];
    }
  }

  lemma {:induction false} PoppedPage(s: System, r: System, id: nat)
    requires s.replies != [] && r.replies == s.replies[1..] && InTransit(s) <= InTransit(r) && r.history == s.history
    requires PageOnTheWay(s, id) && !Brings(s.history, s.replies[0], id)
    ensures PageOnTheWay(r, id)
  {
    if !(exists from: nat :: Page(from, 0) in InTransit(s) && from <= id) {
      var i :| 0 <= i < |s.replies| && Brings(s.history, s.replies[i], id);
      assert r.replies[i - 1] == s.replies[i];
    }
  }

  lemma {:induction false} HandledTransit(s: System)
    requires Shape(s) && Enabled(s, HandleRows)
    ensures InTransit(s) <= InTransit(Do(s, HandleRows))
    ensures var m := s.replies[0];
      m.request.Page? && m.request.count == 0 && m.next.Some? ==> Page(m.next.value, 0) in InTransit(Do(s, HandleRows))
  {
    var r := Do(s, HandleRows);
    ReactAsks(s.client, s.replies[0]);
    MoreSent(s, r.client);
    var m := s.replies[0];
    if m.request.Page? && m.request.count == 0 && m.next.Some? {
      NewlySent(s, r.client, Page(m.next.value, 0));
    }
  }

  lemma {:induction false} HandledView(s: System)
    requires Shape(s) && Enabled(s, HandleRows)
    ensures var m := s.replies[0];
      BaseView(Do(s, HandleRows).client) == BaseView(s.client) + RowCells(m.rows) &&
        RowCells(m.rows).Keys == IdsOf(m.rows)
    ensures ValidMessage(s, s.replies[0])
  {
    var m := s.replies[0];
    assert ValidMessage(s, m);
    assert Stored(s.history[m.version]);
    ReactView(s.client, m, s.history[m.version]);
    RowCellsDomain(m.rows);
  }

  lemma {:induction false} HandledLoading(s: System)
    requires Shape(s) && Live(s) && Enabled(s, HandleRows)
    ensures LoadingIsAsked(Do(s, HandleRows))
  {
    var r := Do(s, HandleRows);
    ReactAsks(s.client, s.replies[0]);
    HandledTransit(s);
    forall id | id in r.client.loading ensures LoadOnTheWay(r, id) {
      PoppedLoad(s, r, id);
    }
  }

  lemma {:induction false} HandledWaiting(s: System, r: System, id: nat)
    requires Chain(s.history, s.journal) && s.replies != [] && ValidMessage(s, s.replies[0]) && Waiting(s, id)
    requires s.replies[0].RowsMessage? && id !in IdsOf(s.replies[0].rows)
    requires r == s.(client := r.client, replies := s.replies[1..], read := r.read) && InTransit(s) <= InTransit(r)
    ensures Waiting(r, id)
  {
    var m := s.replies[0];
    if IsLoadOf(m, id) {
      VanishedMeansDeleted(s.history, s.journal, id, s.processed, m.version);
    } else if LoadOnTheWay(s, id) {
      PoppedLoad(s, r, id);
    }
  }

  lemma {:induction false} HandledRow(s: System, id: nat)
    requires Shape(s) && Live(s) && Enabled(s, HandleRows) && id in BaseView(Do(s, HandleRows).client)
    ensures var r := Do(s, HandleRows); Fresh(BaseView(r.client), r, id) || Waiting(r, id)
  {
    hide LoadingIsAsked, NothingMissed;
    var m, r := s.replies[0], Do(s, HandleRows);
    HandledView(s);
    if id in IdsOf(m.rows) {
      RowsAreFresh(s, m, id, BaseView(r.client));
    } else if Fresh(BaseView(s.client), s, id) {
      assert BaseView(r.client)[id] == BaseView(s.client)[id];
    } else {
      HandledTransit(s);
      HandledWaiting(s, r, id);
    }
  }

  lemma {:induction false} HandledMissesNothing(s: System, id: nat)
    requires Shape(s) && Live(s) && Enabled(s, HandleRows)
    requires id in s.history[s.processed] && id !in BaseView(Do(s, HandleRows).client)
    ensures var r := Do(s, HandleRows); DeletionOnTheWay(r, id) || PageOnTheWay(r, id)
  {
    var m, r := s.replies[0], Do(s, HandleRows);
    HandledView(s);
    HandledTransit(s);
    if !DeletionOnTheWay(s, id) {
      if Brings(s.history, m, id) {
        if id !in s.history[m.version] {
          VanishedMeansDeleted(s.history, s.journal, id, s.processed, m.version);
        }
      } else {
        PoppedPage(s, r, id);
      }
    }
  }

  lemma {:induction false} HandleRowsKeepsLive(s: System)
    requires Shape(s) && Live(s) && Enabled(s, HandleRows)
    ensures Live(Do(s, HandleRows))
  {
    var r := Do(s, HandleRows);
    ReactAsks(s.client, s.replies[0]);
    HandledLoading(s);
    forall id | id in BaseView(r.client) ensures Fresh(BaseView(r.client), r, id) || Waiting(r, id) {
      HandledRow(s, id);
    }
    forall id | id in r.history[r.processed] && id !in BaseView(r.client)
      ensures DeletionOnTheWay(r, id) || PageOnTheWay(r, id)
    {
      HandledMissesNothing(s, id);
    }
  }

  // ---------------------------------------------------------------- the other steps

  /** Nothing changes for the client, and whatever was on its way still is. */
  lemma {:induction false} LiveFrame(s: System, r: System)
    requires Live(s) && s.processed == r.processed && s.read == r.read
    requires BaseView(r.client) == BaseView(s.client) && r.client.shown != []
    requires r.history == s.history && r.journal == s.journal
    requires forall id :: LoadOnTheWay(s, id) ==> LoadOnTheWay(r, id)
    requires forall id :: PageOnTheWay(s, id) ==> PageOnTheWay(r, id)
    requires forall id :: id in r.client.loading ==> id in s.client.loading || LoadOnTheWay(r, id)
    ensures Live(r)
  {
    var b := BaseView(s.client);
    forall id | id in b ensures Fresh(b, r, id) || Waiting(r, id) {
      assert Fresh(b, s, id) || Waiting(s, id);
    }
  }

  lemma {:induction false} CommitKeepsLive(s: System, entry: JournalEntry, after: Backend)
    requires Shape(s) && Live(s) && Enabled(s, Commit(entry, after))
    ensures Live(Do(s, Commit(entry, after)))
  {
    var r, b := Do(s, Commit(entry, after)), BaseView(s.client);
    forall id ensures DeletionOnTheWay(s, id) ==> DeletionOnTheWay(r, id)
              ensures LoadOnTheWay(s, id) ==> LoadOnTheWay(r, id)
              ensures PageOnTheWay(s, id) ==> PageOnTheWay(r, id)
    {
      CommitContinues(s, r, id);
    }
    forall id | id in b ensures Fresh(b, r, id) || Waiting(r, id) {
      if Fresh(b, s, id) {
        CommitKeepsFresh(s, entry, after, b, id);
      }
    }
  }

  lemma {:induction false} CommitContinues(s: System, r: System, id: nat)
    requires r.replies == s.replies && r.client == s.client && r.served == s.served && r.processed == s.processed
    requires s.history <= r.history && s.journal <= r.journal
    ensures DeletionOnTheWay(s, id) ==> DeletionOnTheWay(r, id)
    ensures LoadOnTheWay(s, id) ==> LoadOnTheWay(r, id)
    ensures PageOnTheWay(s, id) ==> PageOnTheWay(r, id)
  {
    if DeletionOnTheWay(s, id) {
      var q :| s.processed <= q < |s.journal| && s.journal[q] == JournalEntry(Delete, id);
      assert r.journal[q] == JournalEntry(Delete, id);
    }
    if i :| 0 <= i < |s.replies| && Brings(s.history, s.replies[i], id) {
      assert Brings(r.history, r.replies[i], id);
    }
  }

  /** Serving a request turns it into a reply. */
  lemma {:induction false} ServeContinues(s: System, r: System, m: Message, id: nat)
    requires m.RowsMessage? && m.request in InTransit(s) && m.version < |s.history|
    requires Answers(m.request, m.rows, m.next, s.history[m.version])
    requires r == s.(served := s.served + multiset{m.request}, replies := s.replies + [m])
    ensures LoadOnTheWay(s, id) ==> LoadOnTheWay(r, id)
    ensures PageOnTheWay(s, id) ==> PageOnTheWay(r, id)
  {
    var last := |s.replies|;
    assert r.replies[last] == m && forall i :: 0 <= i < last ==> r.replies[i] == s.replies[i];
    TransitServed(s, r, m.request);
    if LoadOnTheWay(s, id) {
      if i :| 0 <= i < last && IsLoadOf(s.replies[i], id) {
        assert IsLoadOf(r.replies[i], id);
      } else {
        assert LoadRow(id) in InTransit(r) || IsLoadOf(r.replies[last], id);
      }
    }
    if PageOnTheWay(s, id) {
      if i :| 0 <= i < last && Brings(s.history, s.replies[i], id) {
        assert Brings(r.history, r.replies[i], id);
      } else {
        var from: nat :| Page(from, 0) in InTransit(s) && from <= id;
        assert Page(from, 0) in InTransit(r) || Brings(r.history, r.replies[last], id);
      }
    }
  }

  lemma {:induction false} TransitServed(s: System, r: System, request: Request)
    requires r.client == s.client && r.served == s.served + multiset{request}
    ensures forall other :: other != request && other in InTransit(s) ==> other in InTransit(r)
  {
  }

  lemma {:induction false} ServeKeepsLive(s: System, request: Request, rows: seq<Row>, next: Option<nat>)
    requires Shape(s) && Live(s) && Enabled(s, ServeRows(request, rows, next))
    ensures Live(Do(s, ServeRows(request, rows, next)))
  {
    var r, m := Do(s, ServeRows(request, rows, next)), RowsMessage(request, rows, next, |s.history| - 1);
    forall id
      ensures LoadOnTheWay(s, id) ==> LoadOnTheWay(r, id)
      ensures PageOnTheWay(s, id) ==> PageOnTheWay(r, id)
    {
      ServeContinues(s, r, m, id);
    }
    LiveFrame(s, r);
  }

  lemma {:induction false} ServeJournalKeepsLive(s: System, from: nat, to: nat)
    requires Shape(s) && Live(s) && Enabled(s, ServeJournal(from, to))
    ensures Live(Do(s, ServeJournal(from, to)))
  {
    var r := Do(s, ServeJournal(from, to));
    assert forall i :: 0 <= i < |s.replies| ==> r.replies[i] == s.replies[i];
    LiveFrame(s, r);
  }

  lemma {:induction false} PopJournalKeepsLive(s: System)
    requires Live(s) && s.replies != [] && s.replies[0].JournalMessage?
    ensures Live(s.(replies := s.replies[1..]))
  {
    var r := s.(replies := s.replies[1..]);
    forall id
      ensures LoadOnTheWay(s, id) ==> LoadOnTheWay(r, id)
      ensures PageOnTheWay(s, id) ==> PageOnTheWay(r, id)
    {
      if LoadOnTheWay(s, id) { PoppedLoad(s, r, id); }
      if PageOnTheWay(s, id) { PoppedPage(s, r, id); }
    }
    LiveFrame(s, r);
  }

  lemma {:induction false} HandleJournalKeepsLive(s: System, now: int)
    requires Shape(s) && Safe(s) && Live(s) && Enabled(s, HandleJournal(now))
    ensures Live(Do(s, HandleJournal(now)))
  {
    var m, popped := s.replies[0], s.(replies := s.replies[1..]);
    assert ValidMessage(s, m);
    PopJournalKeepsLive(s);
    PopKeepsShape(s);
    SafeFrame(s, popped);
    if m.from < m.to {
      EntriesKeepLive(popped, m.to - m.from, now);
    }
  }

  lemma {:induction false} LocalShows(t: Table, op: Op)
    requires Inv(t) && Permitted(t, op) && t.shown != []
    ensures Step(t, op).shown != []
  {
    if op.ResetOp? {
      ResetIs(t);
    } else if op.AttachOp? {
      RefreshAllFrame(t, AscendingIds(StaleRows(t)), op.now);
    }
  }

  lemma {:induction false} LocalKeepsLive(s: System, op: Op)
    requires Shape(s) && Live(s) && Enabled(s, Local(op))
    ensures Live(Do(s, Local(op)))
  {
    var r := Do(s, Local(op));
    LocalView(s.client, op);
    LocalAsks(s.client, op);
    LocalShows(s.client, op);
    MoreSent(s, r.client);
    forall id
      ensures LoadOnTheWay(s, id) ==> LoadOnTheWay(r, id)
      ensures PageOnTheWay(s, id) ==> PageOnTheWay(r, id)
    {
      OnTheWayContinues(s, r, id);
    }
    forall id | id in r.client.loading && id !in s.client.loading ensures LoadOnTheWay(r, id) {
      NewlySent(s, r.client, LoadRow(id));
    }
    LiveFrame(s, r);
  }

  lemma {:induction false} StepKeepsLive(s: System, a: Action)
    requires Shape(s) && Safe(s) && Live(s) && Enabled(s, a) && !a.Lose?
    ensures Live(Do(s, a))
  {
    match a
    case Commit(entry, after) => CommitKeepsLive(s, entry, after);
    case ServeRows(request, rows, next) => ServeKeepsLive(s, request, rows, next);
    case ServeJournal(from, to) => ServeJournalKeepsLive(s, from, to);
    case HandleRows => HandleRowsKeepsLive(s);
    case HandleJournal(now) => HandleJournalKeepsLive(s, now);
    case Local(op) => LocalKeepsLive(s, op);
  }

  ghost predicate Lossless(actions: seq<Action>) {
    forall k :: 0 <= k < |actions| ==> !actions[k].Lose?
  }

  lemma {:induction false} InitialIsLive(s: System)
    requires Initial(s)
    ensures Live(s)
  {
    assert s.client.sent[0] == Page(0, 0);
    assert Page(0, 0) in InTransit(s);
    assert BaseView(s.client) == map[];
  }

  lemma {:induction false} RunKeepsLive(s: System, actions: seq<Action>)
    requires Initial(s) && EnabledRun(s, actions) && Lossless(actions)
    ensures Live(Reach(s, actions))
  {
    if actions == [] {
      InitialIsLive(s);
    } else {
      var n := |actions| - 1;
      RunKeepsLive(s, actions[..n]);
      RunKeeps(s, actions[..n]);
      StepKeepsLive(Reach(s, actions[..n]), actions[n]);
    }
  }

  /** Nothing is on its way any more, and the journal is processed to its end. */
  ghost predicate Quiescent(s: System) {
    InTransit(s) == multiset{} && s.replies == [] && s.processed == |s.journal|
  }

  function AllLoaded(db: Backend): map<nat, Cell> {
    map id | id in db :: Cell(db[id], Loaded)
  }

  /** Whatever edits are in progress: when everything asked for has been answered, the table without its local
      edits is the backend's table, every row of it loaded. */
  lemma {:induction false} QuiescentTableIsBackend(s: System, actions: seq<Action>)
    requires Initial(s) && EnabledRun(s, actions) && Lossless(actions) && Quiescent(Reach(s, actions))
    ensures var r := Reach(s, actions);
      |r.history| == |r.journal| + 1 && BaseView(r.client) == AllLoaded(r.history[|r.journal|])
  {
    RunKeeps(s, actions);
    RunKeepsLive(s, actions);
    var r := Reach(s, actions);
    var b, all := BaseView(r.client), AllLoaded(r.history[|r.journal|]);
    forall id | id in b ensures id in all && b[id] == all[id] {
      assert !LoadOnTheWay(r, id) && !DeletionOnTheWay(r, id);
      assert Fresh(b, r, id);
      UntouchedIsUnchanged(r.history, r.journal, id, r.read[id], |r.journal|);
    }
    forall id | id in all ensures id in b {
      assert !DeletionOnTheWay(r, id) && !PageOnTheWay(r, id);
    }
  }
}
