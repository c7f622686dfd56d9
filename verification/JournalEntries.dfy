/** Journal entries as a table sees them, and what a batch of them does to it. */
module JournalEntries {
  import opened TableTypes
  import opened TableSpec

  /** What an entry says about this table, if anything. */
  datatype EntryKind = Add | Delete | Modify | Elsewhere
  datatype JournalEntry = JournalEntry(kind: EntryKind, key: nat)

  function ApplyEntry(t: Table, entry: JournalEntry, now: int): Table {
    match entry.kind
    case Add => GetNew(t, entry.key, now)
    case Delete => DeleteRow(t, entry.key)
    case Modify => MarkStale(t, entry.key, now)
    case Elsewhere => t
  }

  function ApplyJournal(t: Table, entries: seq<JournalEntry>, now: int): Table {
    if entries == [] then t
    else ApplyEntry(ApplyJournal(t, entries[..|entries| - 1], now), entries[|entries| - 1], now)
  }

  /** The same for so many entries of a journal, from a position on. */
  function ApplyFrom(t: Table, journal: seq<JournalEntry>, from: nat, n: nat, now: int): Table
    requires from + n <= |journal|
  {
    if n == 0 then t else ApplyEntry(ApplyFrom(t, journal, from, n - 1, now), journal[from + n - 1], now)
  }

  lemma {:induction false} ApplyFromIs(t: Table, journal: seq<JournalEntry>, from: nat, n: nat, now: int)
    requires from + n <= |journal|
    ensures ApplyFrom(t, journal, from, n, now) == ApplyJournal(t, journal[from..from + n], now)
  {
    hide ApplyEntry;
    if n > 0 {
      ApplyFromIs(t, journal, from, n - 1, now);
      assert journal[from..from + n][..n - 1] == journal[from..from + n - 1];
    }
  }
}
