/** The values a table cache holds: rows, load states, field maps, signals and requests. */
module TableTypes {

  /** The lowest ID number used for draft rows. */
  const BASE_DRAFT_ID: nat := 1_000_000_000_000

  /** How long, in seconds, a load request may go unanswered before it may be sent again. */
  const MAX_LOADING_SECONDS: int := 7

  // The keys under which a polling group's fields travel in a field map.
  const ID_KEY := "id"
  const NAME_KEY := "name"
  const TAGS_KEY := "tags"
  // The key under which a locally added row remembers its draft ID.
  const DRAFT_ID_KEY := "DRAFT_ID"

  datatype Option<+T> = None | Some(value: T)

  datatype LoadState =
    | Loaded | Loading | Stale
    | DraftEdit | DraftAdd | DraftDelete
    | PendingEdit | PendingAdd | PendingDelete

  predicate IsDraft(s: LoadState) {
    s.DraftEdit? || s.DraftAdd? || s.DraftDelete?
  }

  predicate IsPending(s: LoadState) {
    s.PendingEdit? || s.PendingAdd? || s.PendingDelete?
  }

  /** States a row can have without any local edit. */
  predicate IsUnedited(s: LoadState) {
    s.Loaded? || s.Loading? || s.Stale?
  }

  predicate IsLocalAdd(s: LoadState) {
    s.DraftAdd? || s.PendingAdd?
  }

  /** States of a row that exists in the backend but is edited or deleted locally. */
  predicate IsOverlaid(s: LoadState) {
    !IsUnedited(s) && !IsLocalAdd(s)
  }

  /** States in which a remote modification refreshes the row instead of marking it stale. */
  predicate IsPendingOverlay(s: LoadState) {
    s.PendingEdit? || s.PendingDelete?
  }

  /** A polling group, the row type of the numeric-ID table. */
  datatype Row = Row(id: nat, name: string, tags: seq<string>)

  const DEFAULT_ROW := Row(0, "", [])

  /** What is left of a row whose fields have been moved out: numbers survive, containers are empty. */
  function Hollow(row: Row): Row {
    Row(row.id, "", [])
  }

  datatype Cell = Cell(row: Row, state: LoadState)

  /** A dynamically typed field value, with conversions that yield a default on a type mismatch. */
  datatype Value = Number(n: nat) | Text(s: string) | Texts(ss: seq<string>) {
    function AsNumber(): nat {
      if Number? then n else 0
    }

    function AsText(): string {
      if Text? then s else ""
    }

    function AsTexts(): seq<string> {
      if Texts? then ss else []
    }
  }

  type Fields = map<string, Value>

  function Overlay(changes: Fields, row: Row): Row {
    Row(if ID_KEY in changes then changes[ID_KEY].AsNumber() else row.id,
        if NAME_KEY in changes then changes[NAME_KEY].AsText() else row.name,
        if TAGS_KEY in changes then changes[TAGS_KEY].AsTexts() else row.tags)
  }

  function FieldsOf(row: Row): Fields {
    map[ID_KEY := Number(row.id), NAME_KEY := Text(row.name), TAGS_KEY := Texts(row.tags)]
  }

  /** Every row field named in the map has the value the row has; other keys are ignored. */
  predicate Matches(fields: Fields, row: Row) {
    && (ID_KEY in fields ==> fields[ID_KEY].AsNumber() == row.id)
    && (NAME_KEY in fields ==> fields[NAME_KEY].AsText() == row.name)
    && (TAGS_KEY in fields ==> fields[TAGS_KEY].AsTexts() == row.tags)
  }

  function DraftIdOf(fields: Fields): nat {
    if DRAFT_ID_KEY in fields then fields[DRAFT_ID_KEY].AsNumber() else 0
  }

  /** What a table reports about local edits: a backup was kept, or the edit ended one way or the other. */
  datatype Event =
    | Saved(id: nat)
    | Invalidated(id: nat)
    | Settled(id: nat, pending: Fields, settled: Option<Row>)

  /** A request to the node: one row (by lower bound, limit 1), or rows from a key on.
      The client stops following pages once `count` rows arrived; 0 means no limit. */
  datatype Request = LoadRow(id: nat) | Page(from: nat, count: nat)
}
