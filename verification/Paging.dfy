/** Following the pages of a refresh over a backend that does not change. */
module Paging {
  import opened TableTypes
  import opened TableSpec
  import opened TableInvariants
  import opened Simulation
  import opened Coherence
  import opened CoherenceProgress

  datatype Part = Part(rows: seq<Row>, next: Option<nat>)

  /** The node answers a page with a run of rows, and names a later key if there are rows from that key on. */
  ghost predicate Serves(db: Backend, from: nat, part: Part) {
    && Answers(Page(from, 0), part.rows, part.next, db)
    && (forall k :: 0 <= k < |part.rows| ==> from <= part.rows[k].id)
    && (part.next.Some? ==> from < part.next.value && exists id :: id in db && part.next.value <= id)
  }

  /** Each part is asked for with the key the one before it named. */
  ghost predicate Follow(db: Backend, from: nat, parts: seq<Part>)
    decreases |parts|
  {
    parts == [] ||
    (Serves(db, from, parts[0]) &&
     if parts[0].next.Some? then Follow(db, parts[0].next.value, parts[1..]) else |parts| == 1)
  }

  /** The node has nothing more to send. */
  predicate Complete(parts: seq<Part>) {
    parts != [] && parts[|parts| - 1].next.None?
  }

  function Receive(t: Table, parts: seq<Part>, count: nat): Table
    decreases |parts|
  {
    if parts == [] then t
    else
      var rest :=
        if Continues(parts[0].rows, parts[0].next, count) then NextPage(parts[0].rows, parts[0].next, count).count
        else 0;
      Receive(ProcessRowsResponse(t, parts[0].rows, parts[0].next, count), parts[1..], rest)
  }

  function RowsFrom(db: Backend, from: nat): Backend {
    map id | id in db && from <= id :: db[id]
  }

  /** However the node cuts its rows into pages, a refresh ends: no more pages than keys. */
  lemma {:induction false} RefreshEnds(db: Backend, from: nat, parts: seq<Part>, last: nat)
    requires Follow(db, from, parts) && forall id :: id in db ==> id <= last
    ensures |parts| <= 1 || from + |parts| - 1 <= last
    decreases |parts|
  {
    if |parts| > 1 {
      RefreshEnds(db, parts[0].next.value, parts[1..], last);
    }
  }

  lemma {:induction false} PartCovers(db: Backend, from: nat, part: Part)
    requires Stored(db) && Serves(db, from, part)
    ensures FromBackend(part.rows)
    ensures RowCells(part.rows) + (if part.next.Some? then AllLoaded(RowsFrom(db, part.next.value)) else map[])
         == AllLoaded(RowsFrom(db, from))
  {
    RowCellsDomain(part.rows);
    forall k | 0 <= k < |part.rows| ensures part.rows[k].id < BASE_DRAFT_ID {
      assert part.rows[k].id in db;
    }
    forall id | id in IdsOf(part.rows) ensures id in db && from <= id &&
      RowCells(part.rows)[id] == Cell(db[id], Loaded) {
      var k :| 0 <= k < |part.rows| && part.rows[k].id == id;
    }
    PartAndRest(db, from, part, RowCells(part.rows));
  }

  lemma {:induction false} PartAndRest(db: Backend, from: nat, part: Part, got: map<nat, Cell>)
    requires Serves(db, from, part) && got.Keys == IdsOf(part.rows)
    requires forall id :: id in got ==> id in db && from <= id && got[id] == Cell(db[id], Loaded)
    ensures got + (if part.next.Some? then AllLoaded(RowsFrom(db, part.next.value)) else map[]) ==
      AllLoaded(RowsFrom(db, from))
  {
  }

  /** A full refresh overrides the base view with every row of the backend, Loaded. */
  lemma {:induction false} RefreshLoadsEverything(t: Table, db: Backend, from: nat, parts: seq<Part>)
    requires Inv(t) && Stored(db) && Follow(db, from, parts) && Complete(parts)
    ensures Inv(Receive(t, parts, 0))
    ensures BaseView(Receive(t, parts, 0)) == BaseView(t) + AllLoaded(RowsFrom(db, from))
    decreases |parts|
  {
    var part := parts[0];
    PartCovers(db, from, part);
    var t1 := ProcessRowsResponse(t, part.rows, part.next, 0);
    ReplyKeepsInv(t, part.rows, part.next, 0);
    ReplyBaseView(t, part.rows, part.next, 0);
    if part.next.Some? {
      var from1 := part.next.value;
      assert parts[1..][|parts[1..]| - 1] == parts[|parts| - 1];
      RefreshLoadsEverything(t1, db, from1, parts[1..]);
      Overrides(BaseView(t), RowCells(part.rows), AllLoaded(RowsFrom(db, from1)));
    } else {
      Overrides(BaseView(t), RowCells(part.rows), map[]);
      assert parts[1..] == [];
      assert Receive(t, parts, 0) == t1;
    }
  }

  lemma {:induction false} Overrides(b: map<nat, Cell>, c: map<nat, Cell>, d: map<nat, Cell>)
    ensures (b + c) + d == b + (c + d)
    ensures b + map[] == b && c + map[] == c
  {
  }

  /** It removes nothing: afterwards the base view is the backend's table exactly when it held no row before
      that the backend has dropped. */
  lemma {:induction false} RefreshKeepsDroppedRows(t: Table, db: Backend, parts: seq<Part>)
    requires Inv(t) && Stored(db) && Follow(db, 0, parts) && Complete(parts)
    ensures BaseView(Receive(t, parts, 0)) == AllLoaded(db) <==> BaseView(t).Keys <= db.Keys
  {
    RefreshLoadsEverything(t, db, 0, parts);
    assert RowsFrom(db, 0) == db;
    OverrideEquals(BaseView(t), db);
  }

  lemma {:induction false} OverrideEquals(b: map<nat, Cell>, db: Backend)
    ensures b + AllLoaded(db) == AllLoaded(db) <==> b.Keys <= db.Keys
  {
    assert (b + AllLoaded(db)).Keys == b.Keys + db.Keys;
    if b.Keys <= db.Keys {
      assert b + AllLoaded(db) == AllLoaded(db);
    }
  }

  /** How many rows a load still wants after these parts; none if it has stopped asking. */
  function Wanted(parts: seq<Part>, count: nat): Option<nat>
    decreases |parts|
  {
    if parts == [] then Some(count)
    else if Continues(parts[0].rows, parts[0].next, count) then
      Wanted(parts[1..], NextPage(parts[0].rows, parts[0].next, count).count)
    else None
  }

  function Received(parts: seq<Part>): nat
    decreases |parts|
  {
    if parts == [] then 0 else |parts[0].rows| + Received(parts[1..])
  }

  /** As long as a limited load asks for more, what it has received and what it still wants make up its limit;
      and it stops as soon as it has received as many rows as it wanted. */
  lemma {:induction false} LimitIsKept(parts: seq<Part>, count: nat)
    requires count > 0
    ensures Wanted(parts, count).Some? ==> Received(parts) + Wanted(parts, count).value == count
    ensures Received(parts) >= count ==> Wanted(parts, count).None?
    decreases |parts|
  {
    if parts != [] && Continues(parts[0].rows, parts[0].next, count) {
      LimitIsKept(parts[1..], NextPage(parts[0].rows, parts[0].next, count).count);
    }
    LimitedNeverUnlimited(parts, count);
  }

  /** While it continues, a limited load stays limited and an unlimited one unlimited: zero would mean no limit. */
  lemma {:induction false} LimitedNeverUnlimited(parts: seq<Part>, count: nat)
    ensures Wanted(parts, count).Some? ==> (Wanted(parts, count).value == 0 <==> count == 0)
    decreases |parts|
  {
    if parts != [] && Continues(parts[0].rows, parts[0].next, count) {
      LimitedNeverUnlimited(parts[1..], NextPage(parts[0].rows, parts[0].next, count).count);
    }
  }
}
