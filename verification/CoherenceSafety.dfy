/** In every reachable state a row shown as loaded is as recent as the journal the client has processed. */
module CoherenceSafety {
  import opened TableTypes
  import opened TableSpec
  import opened Restoration
  import opened TableInvariants
  import opened Simulation
  import opened JournalEntries
  import opened Coherence

  // ---------------------------------------------------------------- shape

  lemma {:induction false} ServedStaysSent(served: multiset<Request>, sent: seq<Request>, more: seq<Request>)
    requires served <= multiset(sent) && sent <= more
    ensures served <= multiset(more)
  {
    assert more == sent + more[|sent|..];
  }

  lemma {:induction false} CommitKeepsShape(s: System, entry: JournalEntry, after: Backend)
    requires Shape(s) && Enabled(s, Commit(entry, after))
    ensures Shape(Do(s, Commit(entry, after)))
  {
    var r := Do(s, Commit(entry, after));
    forall i | 0 <= i < |r.replies| ensures ValidMessage(r, r.replies[i]) {
      assert ValidMessage(s, s.replies[i]);
    }
  }

  lemma {:induction false} ServeKeepsShape(s: System, a: Action)
    requires Shape(s) && Enabled(s, a) && (a.ServeRows? || a.ServeJournal?)
    ensures Shape(Do(s, a))
  {
    var r := Do(s, a);
    var last := |s.replies|;
    forall i | 0 <= i < |r.replies| ensures ValidMessage(r, r.replies[i]) {
      if i < last {
        assert r.replies[i] == s.replies[i] && ValidMessage(s, s.replies[i]);
      }
    }
    assert forall i :: 0 <= i < last ==> r.replies[i] == s.replies[i] && ValidMessage(s, s.replies[i]);
  }

  lemma {:induction false} PopKeepsShape(s: System)
    requires Shape(s) && s.replies != []
    ensures Shape(s.(replies := s.replies[1..]))
    ensures s.replies[0].JournalMessage? && s.replies[0].from == s.processed ==>
      forall i :: 0 <= i < |s.replies| - 1 && s.replies[1..][i].RowsMessage? ==>
        s.replies[0].to <= s.replies[1..][i].version
  {
    var r := s.(replies := s.replies[1..]);
    forall i | 0 <= i < |r.replies| ensures ValidMessage(r, r.replies[i]) {
      assert ValidMessage(s, s.replies[i + 1]);
    }
    assert forall i :: 0 <= i < |r.replies| ==> r.replies[i] == s.replies[i + 1];
  }

  lemma {:induction false} ClientKeepsShape(s: System, t: Table)
    requires Shape(s) && Inv(t) && s.client.sent <= t.sent
    ensures Shape(s.(client := t))
  {
    ServedStaysSent(s.served, s.client.sent, t.sent);
    var r := s.(client := t);
    forall i | 0 <= i < |r.replies| ensures ValidMessage(r, r.replies[i]) {
      assert ValidMessage(s, s.replies[i]);
    }
  }

  /** Room for the next journal entry: no reply still to come was read before it. */
  ghost predicate Ahead(s: System, to: nat) {
    forall i :: 0 <= i < |s.replies| && s.replies[i].RowsMessage? ==> to <= s.replies[i].version
  }

  lemma {:induction false} EntryKeepsShape(s: System, now: int)
    requires Shape(s) && s.processed < |s.journal| && Ahead(s, s.processed + 1)
    ensures Shape(HandleEntry(s, now))
    ensures HandleEntry(s, now).replies == s.replies && HandleEntry(s, now).processed == s.processed + 1
  {
    var e := s.journal[s.processed];
    EntryKey(s);
    EntryView(s.client, e, now);
    EntryAsks(s.client, e, now);
    var u := s.(client := ApplyEntry(s.client, e, now));
    ClientKeepsShape(s, u.client);
    var r := HandleEntry(s, now);
    assert r == u.(processed := s.processed + 1);
    forall i | 0 <= i < |r.replies| ensures ValidMessage(r, r.replies[i]) {
      assert ValidMessage(u, u.replies[i]);
    }
  }

  lemma {:induction false} EntryKey(s: System)
    requires Shape(s) && s.processed < |s.journal|
    ensures var e := s.journal[s.processed];
      && Follows(s.history[s.processed], e, s.history[s.processed + 1])
      && (e.kind.Elsewhere? || e.key < BASE_DRAFT_ID)
  {
    assert Follows(s.history[s.processed], s.journal[s.processed], s.history[s.processed + 1]);
    assert Stored(s.history[s.processed]) && Stored(s.history[s.processed + 1]);
  }

  // ---------------------------------------------------------------- freshness

  lemma {:induction false} CommitKeepsFresh(s: System, entry: JournalEntry, after: Backend, b: map<nat, Cell>, id: nat)
    requires Shape(s) && Enabled(s, Commit(entry, after)) && Fresh(b, s, id)
    ensures Fresh(b, Do(s, Commit(entry, after)), id)
  {
    var r := Do(s, Commit(entry, after));
    assert forall q :: 0 <= q < |s.journal| ==> r.journal[q] == s.journal[q];
  }

  /** A row that is there when an entry adding it is processed was read after the entry was written. */
  lemma {:induction false} AddedWasReadLater(s: System, id: nat)
    requires Shape(s) && s.processed < |s.journal| && Fresh(BaseView(s.client), s, id)
    requires s.journal[s.processed] == JournalEntry(Add, id)
    ensures s.processed < s.read[id]
  {
    EntryKey(s);
    if s.read[id] <= s.processed {
      UntouchedIsUnchanged(s.history, s.journal, id, s.read[id], s.processed);
    }
  }

  /** The next entry leaves every row it does not modify fresh. */
  lemma {:induction false} EntryKeepsFresh(s: System, now: int, id: nat)
    requires Shape(s) && s.processed < |s.journal| && Fresh(BaseView(s.client), s, id)
    requires id in BaseView(HandleEntry(s, now).client)
    requires s.journal[s.processed].kind.Modify? ==> !Touches(s.journal[s.processed], id)
    ensures Fresh(BaseView(HandleEntry(s, now).client), HandleEntry(s, now), id)
  {
    var e := s.journal[s.processed];
    EntryKey(s);
    EntryOnRow(s.client, e, now, id);
    if Touches(e, id) {
      AddedWasReadLater(s, id);
    }
    StillFresh(s, HandleEntry(s, now), id);
  }

  lemma {:induction false} StillFresh(s: System, r: System, id: nat)
    requires Fresh(BaseView(s.client), s, id)
    requires r == s.(client := r.client, processed := s.processed + 1) && s.processed < |s.journal|
    requires id in BaseView(r.client) && BaseView(r.client)[id] == BaseView(s.client)[id]
    requires Touches(s.journal[s.processed], id) ==> s.processed < s.read[id]
    ensures Fresh(BaseView(r.client), r, id)
  {
  }

  lemma {:induction false} RowsAreFresh(s: System, m: Message, id: nat, b: map<nat, Cell>)
    requires Shape(s) && ValidMessage(s, m) && m.RowsMessage? && id in IdsOf(m.rows)
    requires b == BaseView(s.client) + RowCells(m.rows)
    ensures Fresh(b, s.(read := s.read + (map k | k in IdsOf(m.rows) :: m.version)), id)
  {
    RowCellsDomain(m.rows);
    var k :| 0 <= k < |m.rows| && m.rows[k].id == id;
    assert b[id] == Cell(m.rows[k], Loaded);
  }

  // ---------------------------------------------------------------- every step

  lemma {:induction false} EntryKeepsSafe(s: System, now: int)
    requires Shape(s) && Safe(s) && s.processed < |s.journal|
    ensures Safe(HandleEntry(s, now))
  {
    var e, r := s.journal[s.processed], HandleEntry(s, now);
    EntryKey(s);
    var b, c := BaseView(s.client), BaseView(r.client);
    forall id | id in c && c[id].state.Loaded? && !Deferring(r.client, id) ensures Fresh(c, r, id) {
      EntryOnRow(s.client, e, now, id);
      assert id in b && b[id].state.Loaded? && !Deferring(s.client, id);
      EntryKeepsFresh(s, now, id);
    }
  }

  lemma {:induction false} EntriesKeep(s: System, n: nat, now: int)
    requires Shape(s) && Safe(s) && s.processed + n <= |s.journal| && Ahead(s, s.processed + n)
    ensures var r := HandleEntries(s, n, now);
      Shape(r) && Safe(r) && r == s.(client := r.client, processed := s.processed + n)
  {
    if n > 0 {
      EntriesKeep(s, n - 1, now);
      var u := HandleEntries(s, n - 1, now);
      EntryKeepsShape(u, now);
      EntryKeepsSafe(u, now);
    }
  }

  /** Handling a journal reply applies its entries to the table, in order, and nothing else. */
  lemma {:induction false} EntriesAreApplied(s: System, n: nat, now: int)
    requires s.processed + n <= |s.journal|
    ensures HandleEntries(s, n, now) ==
            s.(client := ApplyFrom(s.client, s.journal, s.processed, n, now), processed := s.processed + n)
  {
    hide ApplyEntry;
    if n > 0 {
      EntriesAreApplied(s, n - 1, now);
      EntryIsApplied(HandleEntries(s, n - 1, now), now);
      LastOfBatch(s.client, s.journal, s.processed, n, now);
    }
  }

  lemma {:induction false} LastOfBatch(t: Table, journal: seq<JournalEntry>, from: nat, n: nat, now: int)
    requires 0 < n && from + n <= |journal|
    ensures ApplyFrom(t, journal, from, n, now) ==
            ApplyEntry(ApplyFrom(t, journal, from, n - 1, now), journal[from + n - 1], now)
  {
  }

  lemma {:induction false} EntryIsApplied(s: System, now: int)
    requires s.processed < |s.journal|
    ensures HandleEntry(s, now) ==
            s.(client := ApplyEntry(s.client, s.journal[s.processed], now), processed := s.processed + 1)
  {
  }

  lemma {:induction false} HandleRowsKeeps(s: System)
    requires Shape(s) && Safe(s) && Enabled(s, HandleRows)
    ensures Shape(Do(s, HandleRows)) && Safe(Do(s, HandleRows))
  {
    var m, r := s.replies[0], Do(s, HandleRows);
    assert ValidMessage(s, m);
    assert Stored(s.history[m.version]);
    ReactView(s.client, m, s.history[m.version]);
    HandleRowsKeepsShape(s, r);
    HandleRowsKeepsSafe(s, r);
  }

  lemma {:induction false} HandleRowsKeepsShape(s: System, r: System)
    requires Shape(s) && Enabled(s, HandleRows) && r == Do(s, HandleRows) && Inv(r.client)
    ensures Shape(r)
  {
    ReactAsks(s.client, s.replies[0]);
    PopKeepsShape(s);
    var popped := s.(replies := s.replies[1..]);
    ClientKeepsShape(popped, r.client);
    ReadKeepsShape(popped.(client := r.client), r.read);
  }

  lemma {:induction false} HandleRowsKeepsSafe(s: System, r: System)
    requires Shape(s) && Safe(s) && s.replies != [] && s.replies[0].RowsMessage? && ValidMessage(s, s.replies[0])
    requires var m := s.replies[0];
      && r == s.(replies := r.replies, client := r.client, read := s.read + (map id | id in IdsOf(m.rows) :: m.version))
      && BaseView(r.client) == BaseView(s.client) + RowCells(m.rows)
      && forall id :: Deferring(s.client, id) && id !in IdsOf(m.rows) && id in r.client.cells ==>
        Deferring(r.client, id)
    ensures Safe(r)
  {
    var m, b, c := s.replies[0], BaseView(s.client), BaseView(r.client);
    RowCellsDomain(m.rows);
    forall id | id in c && c[id].state.Loaded? && !Deferring(r.client, id) ensures Fresh(c, r, id) {
      if id in IdsOf(m.rows) {
        RowsAreFresh(s, m, id, c);
      } else {
        assert id in b && b[id] == c[id] && id in r.client.cells;
        assert Fresh(b, s, id);
      }
    }
  }

  lemma {:induction false} ReadKeepsShape(s: System, read: map<nat, nat>)
    requires Shape(s)
    ensures Shape(s.(read := read))
  {
    var r := s.(read := read);
    forall i | 0 <= i < |r.replies| ensures ValidMessage(r, r.replies[i]) {
      assert ValidMessage(s, s.replies[i]);
    }
  }

  lemma {:induction false} ReactAsks(t: Table, m: Message)
    requires m.RowsMessage?
    ensures var r := React(t, m);
      && t.sent <= r.sent && |r.shown| == |t.shown|
      && r.loading == Forget(t, m).loading
      && (m.request.Page? && m.request.count == 0 && m.next.Some? ==> r.sent == t.sent + [Page(m.next.value, 0)])
  {
    match m.request
    case LoadRow(id) => ReplyAsks(t.(loading := t.loading - {id}), m.rows, m.next, 1);
    case Page(_, count) => ReplyAsks(t, m.rows, m.next, count);
  }

  lemma {:induction false} HandleJournalKeeps(s: System, now: int)
    requires Shape(s) && Safe(s) && Enabled(s, HandleJournal(now))
    ensures Shape(Do(s, HandleJournal(now))) && Safe(Do(s, HandleJournal(now)))
  {
    hide Safe, BaseView, HandleEntries;
    var m, popped := s.replies[0], s.(replies := s.replies[1..]);
    assert ValidMessage(s, m);
    PopKeepsShape(s);
    SafeFrame(s, popped);
    if m.from < m.to {
      EntriesKeep(popped, m.to - m.from, now);
    }
  }

  lemma {:induction false} LocalKeeps(s: System, op: Op)
    requires Shape(s) && Safe(s) && Enabled(s, Local(op))
    ensures Shape(Do(s, Local(op))) && Safe(Do(s, Local(op)))
  {
    LocalView(s.client, op);
    LocalAsks(s.client, op);
    ClientKeepsShape(s, Step(s.client, op));
    var b, r := BaseView(s.client), Do(s, Local(op));
    forall id | id in b && b[id].state.Loaded? && !Deferring(r.client, id) ensures Fresh(b, r, id) {
      assert Fresh(b, s, id);
    }
  }

  lemma {:induction false} LoseKeeps(s: System)
    requires Shape(s) && Safe(s) && Enabled(s, Lose)
    ensures Shape(Do(s, Lose)) && Safe(Do(s, Lose))
  {
    var t := Forget(s.client, s.replies[0]);
    InvFrame(s.client, t);
    ViewFrame(s.client, t);
    PopKeepsShape(s);
    ClientKeepsShape(s.(replies := s.replies[1..]), t);
    var b, r := BaseView(s.client), Do(s, Lose);
    forall id | id in b && b[id].state.Loaded? && !Deferring(r.client, id) ensures Fresh(b, r, id) {
      assert Fresh(b, s, id);
    }
  }

  lemma {:induction false} StepKeeps(s: System, a: Action)
    requires Shape(s) && Safe(s) && Enabled(s, a)
    ensures Shape(Do(s, a)) && Safe(Do(s, a))
  {
    match a
    case Commit(entry, after) =>
      CommitKeepsShape(s, entry, after);
      var b := BaseView(s.client);
      forall id | id in b && b[id].state.Loaded? && !Deferring(s.client, id) ensures Fresh(b, Do(s, a), id) {
        CommitKeepsFresh(s, entry, after, b, id);
      }
    case ServeRows(_, _, _) =>
      ServeKeepsShape(s, a);
      SafeFrame(s, Do(s, a));
    case ServeJournal(_, _) =>
      ServeKeepsShape(s, a);
      SafeFrame(s, Do(s, a));
    case HandleRows => HandleRowsKeeps(s);
    case HandleJournal(now) => HandleJournalKeeps(s, now);
    case Lose => LoseKeeps(s);
    case Local(op) => LocalKeeps(s, op);
  }

  lemma {:induction false} SafeFrame(s: System, r: System)
    requires Safe(s) && r == s.(served := r.served, replies := r.replies)
    ensures Safe(r)
  {
    var b := BaseView(s.client);
    forall id | id in b && b[id].state.Loaded? && !Deferring(s.client, id) ensures Fresh(b, r, id) {
      assert Fresh(b, s, id);
    }
  }

  lemma {:induction false} RunKeeps(s: System, actions: seq<Action>)
    requires Initial(s) && EnabledRun(s, actions)
    ensures Shape(Reach(s, actions)) && Safe(Reach(s, actions))
  {
    if actions == [] {
      assert DraftIds(s.client.adds) == [];
    } else {
      var n := |actions| - 1;
      RunKeeps(s, actions[..n]);
      StepKeeps(Reach(s, actions[..n]), actions[n]);
    }
  }

  /** Whatever is committed, served, handled, lost or edited meanwhile: a row in state Loaded has a value the
      backend held after every journal entry about the row that the client has processed. */
  lemma {:induction false} LoadedRowsAreCoherent(s: System, actions: seq<Action>, id: nat)
    requires Initial(s) && EnabledRun(s, actions)
    requires var t := Reach(s, actions).client; id in t.cells && t.cells[id].state.Loaded?
    ensures var r := Reach(s, actions);
      exists v :: 0 <= v < |r.history| && Untouched(r.journal, id, v, r.processed) &&
                  id in r.history[v] && r.history[v][id] == r.client.cells[id].row
  {
    RunKeeps(s, actions);
    var r := Reach(s, actions);
    var b := BaseView(r.client);
    assert id in b && b[id] == r.client.cells[id];
    assert Fresh(b, r, id);
    var v := r.read[id];
    assert Untouched(r.journal, id, v, r.processed);
  }

  /** Once the journal is fully processed, every row in state Loaded equals the backend's. */
  lemma {:induction false} CaughtUpMeansEqual(s: System, actions: seq<Action>, id: nat)
    requires Initial(s) && EnabledRun(s, actions)
    requires var r := Reach(s, actions);
      r.processed == |r.journal| && id in r.client.cells && r.client.cells[id].state.Loaded?
    ensures var r := Reach(s, actions);
      |r.history| == |r.journal| + 1 && id in r.history[|r.journal|] &&
      r.history[|r.journal|][id] == r.client.cells[id].row
  {
    RunKeeps(s, actions);
    LoadedRowsAreCoherent(s, actions, id);
    var r := Reach(s, actions);
    var v :| 0 <= v < |r.history| && Untouched(r.journal, id, v, r.processed) &&
             id in r.history[v] && r.history[v][id] == r.client.cells[id].row;
    UntouchedIsUnchanged(r.history, r.journal, id, v, |r.journal|);
  }
}
