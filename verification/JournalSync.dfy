/** Following the journal: when a reply is replayed entry by entry, and when every table is refreshed instead. */
module JournalSync {
  import opened TableTypes

  /** An entry counts as seen only if its timestamp could be parsed. */
  datatype Entry = Entry(id: nat, stamped: bool)

  /** All entries from an ID on, or only the newest entry. */
  datatype Query = From(id: nat) | Newest

  datatype Signal = NewEntries(entries: seq<Entry>) | RefreshAllTables

  /** What the tables were told: the IDs delivered, or a refresh when the next entry to be written was `written` and
      the newest one in the reply was `newest`. */
  datatype Event = Delivered(ids: seq<nat>) | Refreshed(newest: nat, written: nat)

  /** The client's newest entry, and all it has told the tables. */
  datatype Client = Client(last: Entry, past: seq<Event>)

  const NEW_CLIENT := Client(Entry(0, false), [])

  function NextQuery(last: Entry): Query {
    if last.stamped then From(last.id + 1) else Newest
  }

  function Answer(last: Entry, entries: seq<Entry>): Signal
    requires entries != []
  {
    if last.stamped && entries[0].id == last.id + 1 then NewEntries(entries) else RefreshAllTables
  }

  function EntryIds(entries: seq<Entry>): (ids: seq<nat>)
    ensures |ids| == |entries| && forall k :: 0 <= k < |entries| ==> ids[k] == entries[k].id
  {
    seq(|entries|, k requires 0 <= k < |entries| => entries[k].id)
  }

  function EventOf(signal: Signal, newest: nat, written: nat): Event {
    match signal
    case NewEntries(entries) => Delivered(EntryIds(entries))
    case RefreshAllTables => Refreshed(newest, written)
  }

  /** What a reply makes of the client; a reply without news leaves it as it is. */
  function Handled(c: Client, entries: seq<Entry>, written: nat): Client {
    if entries == [] then c
    else
      var newest := entries[|entries| - 1];
      Client(newest, c.past + [EventOf(Answer(c.last, entries), newest.id, written)])
  }

  // ---------------------------------------------------------------- the node

  /** The journal, from the oldest entry that the node still keeps. */
  datatype Node = Node(first: nat, entries: seq<Entry>)

  function NextId(node: Node): nat {
    node.first + |node.entries|
  }

  /** The backend numbers the entries one after the other. */
  ghost predicate Numbered(node: Node) {
    forall k :: 0 <= k < |node.entries| ==> node.entries[k].id == node.first + k
  }

  /** The rows of the journal from the key asked for, as many as the node will send; or the newest one. */
  function ReplyTo(node: Node, query: Query, count: nat): seq<Entry> {
    match query
    case From(id) =>
      var skip := if id <= node.first then 0 else if NextId(node) <= id then |node.entries| else id - node.first;
      var rows := node.entries[skip..];
      if count <= |rows| then rows[..count] else rows
    case Newest => if node.entries == [] then [] else [node.entries[|node.entries| - 1]]
  }

  /** The IDs of the entries follow each other. */
  predicate Consecutive(entries: seq<Entry>) {
    forall k :: 0 <= k < |entries| ==> entries[k].id == entries[0].id + k
  }

  ghost predicate Served(entries: seq<Entry>, written: nat) {
    Consecutive(entries) && forall k :: 0 <= k < |entries| ==> entries[k].id < written
  }

  lemma {:induction false} ReplyIsServed(node: Node, query: Query, count: nat)
    requires Numbered(node)
    ensures Served(ReplyTo(node, query, count), NextId(node))
    ensures query.From? && ReplyTo(node, query, count) != [] ==>
      ReplyTo(node, query, count)[0].id == if query.id <= node.first then node.first else query.id
  {
  }

  /** An answer handled before any other reply brings no entry again, and it is replayed rather than answered by a
      refresh exactly if the node still keeps the next entry. */
  ghost predicate Prompt(last: Entry, node: Node, reply: seq<Entry>) {
    last.stamped && reply != [] ==>
      last.id < reply[0].id && (Answer(last, reply).NewEntries? <==> node.first <= last.id + 1)
  }

  lemma {:induction false} PromptAnswer(last: Entry, node: Node, count: nat)
    requires Numbered(node)
    ensures Prompt(last, node, ReplyTo(node, NextQuery(last), count))
  {
    ReplyIsServed(node, NextQuery(last), count);
  }

  /** A client that has not seen an entry yet is answered with the newest one only, knows it at once, and has every
      table refreshed once. */
  ghost predicate CatchesUp(c: Client, node: Node, reply: seq<Entry>) {
    !c.last.stamped && node.entries != [] ==>
      var newest := node.entries[|node.entries| - 1];
      && reply == [newest]
      && Handled(c, reply, NextId(node)) == Client(newest, c.past + [Refreshed(newest.id, NextId(node))])
  }

  lemma {:induction false} FirstAnswer(c: Client, node: Node, count: nat)
    ensures CatchesUp(c, node, ReplyTo(node, NextQuery(c.last), count))
  {
  }

  /** When two requests overlap, the second answer to the same query is not replayed again: it causes a refresh. */
  lemma {:induction false} OverlappingAnswer(c: Client, node: Node, count: nat, later: Node, count': nat, written: nat)
    requires Numbered(node) && Numbered(later) && node.first <= later.first && c.last.stamped
    requires var first, second := ReplyTo(node, NextQuery(c.last), count), ReplyTo(later, NextQuery(c.last), count');
      first != [] && second != [] && Answer(c.last, first).NewEntries? && Answer(c.last, second).NewEntries?
    ensures var first, second := ReplyTo(node, NextQuery(c.last), count), ReplyTo(later, NextQuery(c.last), count');
      Answer(Handled(c, first, written).last, second).RefreshAllTables?
  {
    ReplyIsServed(node, NextQuery(c.last), count);
    ReplyIsServed(later, NextQuery(c.last), count');
    var first := ReplyTo(node, NextQuery(c.last), count);
    assert first[|first| - 1].id >= first[0].id;
  }

  // ---------------------------------------------------------------- the client

  class BlockchainInterface {
    var lastJournalEntry: Entry
    ghost var signals: seq<Signal>
    ghost var past: seq<Event>

    ghost function State(): Client
      reads this
    {
      Client(lastJournalEntry, past)
    }

    constructor ()
      ensures State() == NEW_CLIENT && signals == []
    {
      lastJournalEntry := Entry(0, false);
      signals, past := [], [];
    }

    /** Whatever the node keeps and however much it sends, its answer to the query, handled promptly, brings nothing
        again, and everything if the node still has it. */
    method BeginSync() returns (query: Query)
      ensures query == NextQuery(State().last)
      ensures forall node: Node, count: nat :: CatchesUp(State(), node, ReplyTo(node, query, count))
      ensures forall node: Node, count: nat :: Numbered(node) ==>
        Prompt(State().last, node, ReplyTo(node, query, count))
    {
      if lastJournalEntry.stamped {
        query := From(lastJournalEntry.id + 1);
      } else {
        query := Newest;
      }
      forall node: Node, count: nat ensures CatchesUp(State(), node, ReplyTo(node, query, count)) {
        FirstAnswer(State(), node, count);
      }
      forall node: Node, count: nat | Numbered(node)
        ensures Prompt(lastJournalEntry, node, ReplyTo(node, query, count))
      {
        PromptAnswer(lastJournalEntry, node, count);
      }
    }

    /** A failed request, a nonsensical response, and a reply without news change nothing. `written` is the ID that
        the node's next entry will have. */
    method ProcessJournalReply(reply: Option<seq<Entry>>, ghost written: nat)
      modifies this
      ensures State() == if reply.None? then old(State()) else Handled(old(State()), reply.value, written)
      ensures signals == if reply.None? || reply.value == [] then old(signals)
                         else old(signals) + [Answer(old(State()).last, reply.value)]
    {
      if reply.None? || reply.value == [] {
        return;
      }
      var entries := reply.value;
      ghost var signal := Answer(lastJournalEntry, entries);
      if lastJournalEntry.stamped && entries[0].id == lastJournalEntry.id + 1 {
        signals := signals + [NewEntries(entries)];
      } else {
        signals := signals + [RefreshAllTables];
      }
      lastJournalEntry := entries[|entries| - 1];
      past := past + [EventOf(signal, lastJournalEntry.id, written)];
    }
  }

  // ---------------------------------------------------------------- every interleaving

  /** `asked` and `replies` are unordered: requests overlap, and replies may overtake each other or be lost. */
  datatype Sync = Sync(node: Node, asked: multiset<Query>, replies: multiset<seq<Entry>>, client: Client)

  const START := Sync(Node(0, []), multiset{}, multiset{}, NEW_CLIENT)

  datatype Action =
    | Write(stamped: bool)
    | Trim(count: nat)
    | Tick
    | Serve(query: Query, count: nat)
    | Handle(entries: seq<Entry>)
    | Drop(entries: seq<Entry>)

  ghost predicate Enabled(s: Sync, a: Action) {
    match a
    case Write(_) => true
    case Trim(count) => count <= |s.node.entries|
    case Tick => true
    case Serve(query, _) => query in s.asked
    case Handle(entries) => entries in s.replies
    case Drop(entries) => entries in s.replies
  }

  function Do(s: Sync, a: Action): Sync
    requires a.Trim? ==> a.count <= |s.node.entries|
  {
    match a
    case Write(stamped) => s.(node := s.node.(entries := s.node.entries + [Entry(NextId(s.node), stamped)]))
    case Trim(count) => s.(node := Node(s.node.first + count, s.node.entries[count..]))
    case Tick => s.(asked := s.asked + multiset{NextQuery(s.client.last)})
    case Serve(query, count) =>
      s.(asked := s.asked - multiset{query}, replies := s.replies + multiset{ReplyTo(s.node, query, count)})
    case Handle(entries) =>
      s.(replies := s.replies - multiset{entries}, client := Handled(s.client, entries, NextId(s.node)))
    case Drop(entries) => s.(replies := s.replies - multiset{entries})
  }

  ghost function Reach(actions: seq<Action>): Sync {
    if actions == [] then START
    else
      var before, a := Reach(actions[..|actions| - 1]), actions[|actions| - 1];
      if Enabled(before, a) then Do(before, a) else before
  }

  ghost predicate EnabledRun(actions: seq<Action>) {
    actions == [] ||
    (EnabledRun(actions[..|actions| - 1]) && Enabled(Reach(actions[..|actions| - 1]), actions[|actions| - 1]))
  }

  // ---------------------------------------------------------------- what the tables were told

  /** The IDs delivered since the latest refresh, in the order of delivery. */
  function DeliveredSince(past: seq<Event>): seq<nat> {
    if past == [] then []
    else
      var before := DeliveredSince(past[..|past| - 1]);
      match past[|past| - 1]
      case Delivered(ids) => before + ids
      case Refreshed(_, _) => []
  }

  function Range(lo: nat, hi: nat): seq<nat> {
    if lo < hi then seq(hi - lo, k => lo + k) else []
  }

  /** The newest ID known at the latest refresh. */
  function Anchor(past: seq<Event>): Option<nat> {
    if past == [] then None
    else if past[|past| - 1].Refreshed? then Some(past[|past| - 1].newest)
    else Anchor(past[..|past| - 1])
  }

  /** Some refresh fired when the entry was in the journal already. */
  ghost predicate CoveredByRefresh(past: seq<Event>, id: nat) {
    exists k :: 0 <= k < |past| && past[k].Refreshed? && id < past[k].written
  }

  ghost predicate RepliesAreOld(s: Sync) {
    forall entries: seq<Entry> :: entries in s.replies ==> Served(entries, NextId(s.node))
  }

  /** After something was handled, there was a refresh, and all since then was delivered up to the newest entry. */
  ghost predicate Told(past: seq<Event>, newest: nat) {
    var anchor := Anchor(past);
    && anchor.Some? && anchor.value <= newest
    && CoveredByRefresh(past, anchor.value)
    && DeliveredSince(past) == Range(anchor.value + 1, newest + 1)
  }

  ghost predicate Inv(s: Sync) {
    && Numbered(s.node) && RepliesAreOld(s)
    && if s.client.past == [] then !s.client.last.stamped else Told(s.client.past, s.client.last.id)
  }

  lemma {:induction false} RangeJoins(lo: nat, mid: nat, hi: nat)
    requires lo <= mid <= hi
    ensures Range(lo, mid) + Range(mid, hi) == Range(lo, hi)
  {
  }

  lemma {:induction false} StillCovered(past: seq<Event>, e: Event, id: nat)
    requires CoveredByRefresh(past, id)
    ensures CoveredByRefresh(past + [e], id)
  {
    var k :| 0 <= k < |past| && past[k].Refreshed? && id < past[k].written;
    assert (past + [e])[k] == past[k];
  }

  lemma {:induction false} ToldOfDelivery(past: seq<Event>, newest: nat, hi: nat, ids: seq<nat>)
    requires Told(past, newest) && newest + 1 < hi && ids == Range(newest + 1, hi)
    ensures Told(past + [Delivered(ids)], hi - 1)
  {
    DeliveryStep(past, ids);
    StillCovered(past, Delivered(ids), Anchor(past).value);
    RangeJoins(Anchor(past).value + 1, newest + 1, hi);
  }

  lemma {:induction false} DeliveryStep(past: seq<Event>, ids: seq<nat>)
    ensures var r := past + [Delivered(ids)];
      Anchor(r) == Anchor(past) && DeliveredSince(r) == DeliveredSince(past) + ids
  {
    assert (past + [Delivered(ids)])[..|past|] == past;
  }

  lemma {:induction false} ToldOfRefresh(past: seq<Event>, newest: nat, written: nat)
    requires newest < written
    ensures Told(past + [Refreshed(newest, written)], newest)
  {
    var r := past + [Refreshed(newest, written)];
    assert r[..|past|] == past && r[|past|] == Refreshed(newest, written);
    assert CoveredByRefresh(r, newest);
  }

  lemma {:induction false} IdsAreRange(entries: seq<Entry>)
    requires entries != [] && Consecutive(entries)
    ensures var n := |entries| - 1;
      entries[n].id == entries[0].id + n && EntryIds(entries) == Range(entries[0].id, entries[n].id + 1)
  {
    var n := |entries| - 1;
    assert entries[n].id == entries[0].id + n;
  }

  lemma {:induction false} ToldOfReply(c: Client, entries: seq<Entry>, written: nat)
    requires entries != [] && Served(entries, written)
    requires if c.past == [] then !c.last.stamped else Told(c.past, c.last.id)
    ensures Told(Handled(c, entries, written).past, Handled(c, entries, written).last.id)
  {
    var newest := entries[|entries| - 1].id;
    IdsAreRange(entries);
    if Answer(c.last, entries).NewEntries? {
      ToldOfDelivery(c.past, c.last.id, newest + 1, EntryIds(entries));
    } else {
      assert newest < written;
      ToldOfRefresh(c.past, newest, written);
    }
  }

  lemma {:induction false} HandleKeepsInv(s: Sync, entries: seq<Entry>)
    requires Inv(s) && Enabled(s, Handle(entries))
    ensures Inv(Do(s, Handle(entries)))
  {
    if entries != [] {
      assert Served(entries, NextId(s.node));
      ToldOfReply(s.client, entries, NextId(s.node));
    }
  }

  lemma {:induction false} StepKeepsInv(s: Sync, a: Action)
    requires Inv(s) && Enabled(s, a)
    ensures Inv(Do(s, a))
  {
    match a
    case Handle(entries) => HandleKeepsInv(s, entries);
    case Write(_) =>
      forall entries: seq<Entry> | entries in s.replies ensures Served(entries, NextId(s.node) + 1) {
        assert Served(entries, NextId(s.node));
      }
    case Serve(query, count) => ReplyIsServed(s.node, query, count);
    case Trim(_) =>
    case Tick =>
    case Drop(_) =>
  }

  lemma {:induction false} RunKeepsInv(actions: seq<Action>)
    requires EnabledRun(actions)
    ensures Inv(Reach(actions))
  {
    if actions != [] {
      var n := |actions| - 1;
      RunKeepsInv(actions[..n]);
      StepKeepsInv(Reach(actions[..n]), actions[n]);
    }
  }

  lemma {:induction false} ToldCovers(past: seq<Event>, newest: nat, id: nat)
    requires Told(past, newest) && id <= newest
    ensures id in DeliveredSince(past) || CoveredByRefresh(past, id)
  {
    var anchor := Anchor(past).value;
    if id <= anchor {
      var k :| 0 <= k < |past| && past[k].Refreshed? && anchor < past[k].written;
      assert id < past[k].written;
    } else {
      assert Range(anchor + 1, newest + 1)[id - anchor - 1] == id;
    }
  }

  /** Over every interleaving of ticks, overlapping requests and lost or reordered replies: each entry up to the
      newest one known was delivered since the latest refresh, or was in the journal when some refresh fired. */
  lemma {:induction false} JournalIsCovered(actions: seq<Action>, id: nat)
    requires EnabledRun(actions) && Reach(actions).client.past != [] && id <= Reach(actions).client.last.id
    ensures id in DeliveredSince(Reach(actions).client.past) || CoveredByRefresh(Reach(actions).client.past, id)
  {
    RunKeepsInv(actions);
    ToldCovers(Reach(actions).client.past, Reach(actions).client.last.id, id);
  }

  /** At every moment, the IDs delivered since the latest refresh are one run, without gap or repeat, from just
      after the newest entry known at that refresh to the newest one known now. */
  lemma {:induction false} DeliveriesAreConsecutive(actions: seq<Action>)
    requires EnabledRun(actions) && Reach(actions).client.past != []
    ensures Consecutively(Reach(actions).client.past, Reach(actions).client.last.id)
  {
    RunKeepsInv(actions);
    ToldIsConsecutive(Reach(actions).client.past, Reach(actions).client.last.id);
  }

  ghost predicate Consecutively(past: seq<Event>, newest: nat) {
    Anchor(past).Some? && DeliveredSince(past) == Range(Anchor(past).value + 1, newest + 1)
  }

  lemma {:induction false} ToldIsConsecutive(past: seq<Event>, newest: nat)
    requires Told(past, newest)
    ensures Consecutively(past, newest)
  {
  }

  // ---------------------------------------------------------------- the first sync

  ghost predicate OnlyWrites(actions: seq<Action>) {
    forall k :: 0 <= k < |actions| ==> actions[k].Write?
  }

  lemma {:induction false} AfterWrites(writes: seq<Action>)
    requires OnlyWrites(writes)
    ensures var s := Reach(writes);
      s == START.(node := s.node) && s.node.first == 0 && |s.node.entries| == |writes|
  {
    if writes != [] {
      AfterWrites(writes[..|writes| - 1]);
    }
  }

  /** A new client whose first request is served and handled knows the newest entry, however many there are and however
      many rows the node sends at a time, and has told the tables nothing but to refresh. */
  lemma {:induction false} StartsAtNewest(writes: seq<Action>, query: Query, count: nat)
    requires OnlyWrites(writes) && writes != [] && query in Reach(writes + [Tick]).asked
    ensures var s := Reach(writes + [Tick]);
      |s.node.entries| == |writes| && ServedFirst(s, query, count)
  {
    AfterWrites(writes);
    assert (writes + [Tick])[..|writes|] == writes;
    TickedIsServed(Reach(writes), query, count);
  }

  /** Serving and handling the request leaves the client with the newest entry and one refresh. */
  ghost predicate ServedFirst(s: Sync, query: Query, count: nat) {
    s.node.entries != [] &&
    var served, newest := Do(s, Serve(query, count)), s.node.entries[|s.node.entries| - 1];
    && served.replies == multiset{[newest]}
    && Do(served, Handle([newest])).client == Client(newest, [Refreshed(newest.id, NextId(s.node))])
  }

  lemma {:induction false} TickedIsServed(s: Sync, query: Query, count: nat)
    requires s == START.(node := s.node) && s.node.entries != [] && query in Do(s, Tick).asked
    ensures ServedFirst(Do(s, Tick), query, count)
  {
  }
}
