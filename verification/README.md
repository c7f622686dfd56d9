# Verification of the table cache, the journal protocol and their helpers

The client keeps a cache of each blockchain table it shows. Local edits, first drafts and then pending, lie on top of
rows that page replies and journal entries keep changing, and list models follow the result. This project models that
cache and the code around it, and proves what the code promises, or exactly when it keeps the promise.

* **The table cache.** `AbstractTables.AbstractTable` is the class with its two sorted parallel lists, the local adds,
  the pending flag, the loads under way, its backup manager and its list models. Each of its methods is proved equal to
  a function over maps (`TableSpec`); lookups, insertions and erasures happen in the lists, in place. Over runs of
  those functions: an invariant (`TableInvariants`), the simulation by a cache without editing (`Simulation`), the
  ledger of edits (`EditLedger`), what the models show and are told (`ModelTracking`), which rows are local adds
  (`DraftTail`), and what a reset restores (`ResetTheorems`). What a caller sees of the steps is stated in terms of the
  rows and requests alone: which edits end, how and with which values (`Settlements`), which requests are sent when
  (`Requests`), and what draft edits do and when they are refused (`DraftEffects`).
* **The journal protocol.** `JournalSync` follows the poller over every interleaving of ticks, overlapping requests and
  lost or overtaking replies. `Coherence`, `CoherenceSafety` and `CoherenceProgress` put a node, a link and an edited
  table together as steps, and prove that loaded rows are current, and that nothing is missing at rest.
* **Names and keys.** `EosioName` proves the conversions between account names and 64-bit keys to be inverse to each
  other and monotone, on top of `Bits`.
* **Action prediction.** `TableEditControllers.TableEditController` drives a real `AbstractTable` of groups and a table
  of members for each group; `ActionPrediction` compares what the user sees with what the contract does, `Rosters`
  tells from the starting tables and the actions alone whether a list of actions is predicted, and `MemberEdits` follows
  what the user does not see of the member rows: tags, records and edit marks.
* **Typing.** `Typing` takes tags out of a text, chooses the characters to type and puts the tags back.

The polling groups table, with numeric IDs, is the table that is modelled: a row is an ID, a name and a list of tags,
and an edit is a map of field names to values. Whatever time it is, what the random numbers are, what a callback
decides and what a reply contains are parameters. Signals, requests and what models are told are appended to logs. A result named `hung`
stands for a call that never returns; `defined` is false where the original leaves its list's bounds.

The base view of a table, `Simulation.BaseView`, is the table as if nothing had been edited: a row itself, or its
backup if it is edited or deleted locally, and no row that was added locally.

## Where the code differs from its documentation

The models do what the code does. These are the places where that is not what the interface documentation
(cpp/AbstractTableInterface.hpp:80-128) says:

* A refused change of a row's ID has already moved the row's fields out of the list (cpp/AbstractTable.hpp:544,
  552-555). `Simulation.DraftEditBaseView` says exactly when a draft edit damages the base view.
* Editing a locally added row never returns if a changed key is missing from the row's record
  (cpp/AbstractTable.hpp:571-575). `KeyLoop.LoopEnds` says exactly when the loop ends.
* Resetting a draft added row removes two backups, or leaves the list's bounds (cpp/AbstractTable.hpp:708-711 with
  827-830); resetting a row that was edited and then deleted keeps the edited value (715-718); a remote deletion of a
  row under a pending edit leaves its backup behind (822-831). `ResetTheorems.ResetRestores` combines these into the
  exact condition, `ResetLeavesOrder` says when the table is in order afterwards, and `ResetOfOneAdd`,
  `ResetKeepsRename` and `FailingInputs.PlaceholderLooksLoaded` show each of them.
* Resetting pending edits does not clear the flag (731-735). `ResetTheorems.ResetLocks` and `LockedForever` show that
  the table then refuses every edit for good, whatever happens, further resets included.
* A full refresh removes no row that the backend dropped (499-502). `Paging.RefreshKeepsDroppedRows` says exactly when
  the result is the backend's table.
* A remote change of a row under a pending edit or delete refreshes the row without marking it stale (841-845).
  `Simulation.SimulationRun` keeps account of the rows whose state is wrong until the refresh arrives, and
  `FailingInputs.OutdatedRowLooksLoaded` shows what a reset makes of such a row.

`FailingInputs` holds an input for each of these, and for the two kinds of action that are predicted wrongly.

## Model

| member | source | states |
|---|---|---|
| TableInvariants.RunKeepsInv | cpp/AbstractTable.hpp:504-977 | in every reachable state, resets included, either no row is pending and exactly the draft rows have backups, or no row is a draft and every pending row has one; backups hold Loaded, Loading, Stale or DraftAdd; rows at or above the draft bound are exactly the local adds, recorded in ID order |
| TableInvariants.StepKeepsInv | cpp/AbstractTable.hpp:504-977 | each draft edit, reset, reply and journal entry keeps that invariant |
| TableInvariants.EditKeepsInvIff | cpp/AbstractTable.hpp:563-577 | a draft edit keeps it if and only if it does not overwrite the draft ID in the record of a local add with another one |
| TableInvariants.ReplyMerge | cpp/AbstractTable.hpp:762-812 | a reply leaves the old rows, overridden by its own rows as Loaded, minus one draft row for each record that one of its new rows matched first |
| TableInvariants.AppendAgreesWithMerge | cpp/AbstractTable.hpp:767-776 | the append shortcut is taken only while no local add is outstanding, and then does what the general merge would |
| TableInvariants.MergeOne | cpp/AbstractTable.hpp:780-802 | merging one row writes it as Loaded and either settles the first matching local add, with its row and backup, or ends the edit that the row was under |
| DraftTail.DraftIdsAreTheTail | cpp/AbstractTable.hpp:588-629 | in every reachable state, resets included, the recorded draft IDs, in order, are the IDs of the last rows of the list, which are exactly the rows in an added state and those at or above the bound; the next draft ID is not taken |
| Simulation.SimulationRun | cpp/AbstractTable.hpp:504-977 | over every run of local edits, refused ones too, resets and remote events, the base view has the rows and states that a cache without editing has after the same remote events, except the values of rows that a refused edit emptied or a reset restored wrongly, and the states of rows whose stale mark was deferred or came from a leftover backup, each until the row is next reported or deleted, or, for a state, marked stale |
| Simulation.SimulationStep | cpp/AbstractTable.hpp:504-977 | each step, refused edits and resets too, changes the base view as it changes a cache without editing, local steps not at all, except for the rows the step is listed as spoiling |
| Simulation.OnlyOverlaidDiffer | cpp/AbstractTable.hpp:841-845 | in a run without reset and without an emptying edit, no value is wrong, and only rows still under a pending edit or delete can have another state |
| Simulation.ReplyBaseView | cpp/AbstractTable.hpp:738-812 | a reply overrides the base view with its rows as Loaded, whatever edits it settles or overwrites |
| Simulation.DraftEditBaseView | cpp/AbstractTable.hpp:527-586 | a draft edit leaves the base view alone if and only if it is not a refused change of ID of an unedited row with contents; otherwise that row is emptied |
| Simulation.OverlayPersists | cpp/AbstractTable.hpp:841-845 | a row under a pending edit or delete stays as it is until it is deleted or reported again |
| EditLedger.LedgerBalances | cpp/AbstractTable.hpp:504-977 | over every run, for each row, edits saved are edits reported settled or invalidated, plus resets that dropped one, plus one if a backup is held |
| EditLedger.StepBalances | cpp/AbstractTable.hpp:504-977 | every step but a reset changes backups and reports by the same amount, row by row |
| EditLedger.ReplyBalances | cpp/AbstractTable.hpp:884-977 | a reply reports each edit it ends exactly once |
| ModelTracking.ModelsTrackTable | cpp/AbstractTable.hpp:324-380 | over every run, resets included, each model shows only rows of the table, and every row it does not show is Loading or Stale |
| ModelTracking.ChangesAreTold | cpp/AbstractTable.hpp:324-380 | each step tells every model of each row whose value or load state it changes, except a new placeholder and the row that a refused change of ID empties |
| Settlements.NewRowTakesFirst | cpp/AbstractTable.hpp:884-929 | on a pending table a reply row that is new takes out a record if and only if some record's ID, name and tags, each where recorded, are the row's; it takes the first such record with its draft row and backup, and reports the submitted fields with the row |
| Settlements.SettledUnderItsId | cpp/AbstractTable.hpp:911-924 | if the backend gives a pending add the very ID it had as a draft, its row stays, Loaded and shown, while its record and backup go |
| Settlements.AddIsSettled | cpp/AbstractTable.hpp:588-929 | a group added with any name and tags and submitted is settled by a reply row with that name and those tags: no local add is left, and its fields are reported with the row |
| Settlements.AddIsNotSettled | cpp/AbstractTable.hpp:884-929 | a new row with another name or other tags leaves the record, the pending row and the backup, and nothing is reported |
| Settlements.ReplyAnnounces | cpp/AbstractTable.hpp:780-802 | a reply reports, row by row, one settled add for a new row that a record describes, one settled edit with the old and the new values for a pending edit, one lost edit for a draft edit or a draft or pending deletion, and nothing for unedited rows |
| Settlements.LaterRowsSettleNothing | cpp/AbstractTable.hpp:767-776 | a reply whose rows all come after the table's settles nothing and loses nothing, whatever is recorded |
| Settlements.EditIsAnnounced | cpp/AbstractTable.hpp:931-977 | a row of a reply is reported by the edit it was under when the reply arrived, whatever the rows before it settle |
| Settlements.AddIsOverwritten | cpp/AbstractTable.hpp:939-952 | whatever the table holds, a draft add whose ID the backend reports is lost with its first record and its backup, and the flag falls with the last backup |
| Settlements.DeletionAnnounces | cpp/AbstractTable.hpp:814-834 | a remote deletion reports a pending deletion as settled without a row, a draft as lost, and anything else not at all |
| Settlements.ChangeAnnounces | cpp/AbstractTable.hpp:836-856 | a remote change reports a draft as lost, and anything else not at all |
| Settlements.LostWhilePending | cpp/AbstractTable.hpp:931-977 | over every run: what a step reports as lost while edits are pending was a pending deletion |
| Requests.FirstModel | cpp/AbstractTable.hpp:406-413 | a new table with its first model has asked for everything once, and for nothing else |
| Requests.AttachedModel | cpp/AbstractTable.hpp:406-413 | for every table: only the first model asks for everything; each asks for exactly the stale rows without a load under way, and shows every row |
| Requests.WantedTwice | cpp/AbstractTable.hpp:382-395 | a row wanted again within seven seconds is not asked for again; later it is, and the time of the first request stays |
| Requests.WantedAfterAnswer | cpp/AbstractTable.hpp:481-497 | an answer lets the row be asked for again at once |
| Requests.ChangedRowIsWanted | cpp/AbstractTable.hpp:360-369 | a remote change asks for the row once, not at all while a load is under way, and once by each model when a load was lost |
| Requests.ChangedOverlayIsWanted | cpp/AbstractTable.hpp:841-845 | a remote change of a row under a pending edit or deletion asks for the row and does nothing else |
| Requests.PageIsFollowed | cpp/AbstractTable.hpp:751-757 | a page that names a next key is followed by a request from there for the rows still wanted, and for no limit if there was none |
| Requests.LoadIsFollowed | cpp/AbstractTable.hpp:481-497 | the answer to a row load ends the load and asks for more only if it brought no row |
| DraftEffects.EditIsShown | cpp/AbstractTable.hpp:527-586 | an accepted edit gives the row the named name and tags, leaves the rest of it and every other row alone, and makes it a draft edit unless it is a local add |
| DraftEffects.EditIsRecorded | cpp/AbstractTable.hpp:570-577 | the record of an edited local add takes the same values, and the other records stay |
| DraftEffects.AddIsShown | cpp/AbstractTable.hpp:588-629 | an added row has the name and tags it was given, or none, a new draft ID, a backup, and a record of its fields and ID |
| DraftEffects.DeletionIsShown | cpp/AbstractTable.hpp:631-665 | a deleted row keeps its value and has a backup; a deleted local add is gone with its record and backup |
| DraftEffects.SubmissionIs | cpp/AbstractTable.hpp:667-698 | submitting turns each kind of draft into the pending state of its own kind and touches nothing else; the table is pending if and only if there was an edit |
| DraftEffects.PendingRefuses | cpp/AbstractTable.hpp:527-640 | a table with pending edits refuses every draft operation without effect |
| DraftEffects.RefusalsAre | cpp/AbstractTable.hpp:527-640 | what a table without pending edits refuses without effect: edits and deletions of absent rows, edits of draft-deleted rows, adds that name an ID; other adds are accepted |
| DraftEffects.UnlocksWithLastEdit | cpp/AbstractTable.hpp:131-135 | over every run without reset: while the table is pending it holds an edit |
| DraftEffects.FieldsRoundTrip | cpp/TableSupport.hpp:38-98 | a row's fields put together give the row back, and describe no other row |
| ResetTheorems.ResetRestores | cpp/AbstractTable.hpp:700-736 | a reset gives the base view if and only if no row is draft added, no locally deleted row differs from its backup, and no unedited row has a leftover backup of another state; then no backup and no local add is left |
| ResetTheorems.ResetLeavesOrder | cpp/AbstractTable.hpp:700-736 | a reset is defined and leaves the table in order if and only if no row is draft added |
| ResetTheorems.ResetKeepsFlag | cpp/AbstractTable.hpp:731-735 | a reset never changes the flag: editing is enabled afterwards if and only if it was before |
| TableInvariants.ResetIs | cpp/AbstractTable.hpp:700-736 | without draft added rows a reset is defined, restores each row on its own by its backup, leaves no backup and no local add, takes the local adds out of the models and puts the restored rows in |
| ResetTheorems.ResetWithDraftAdd | cpp/AbstractTable.hpp:708-711 | with a draft added row a reset is undefined or does not give the base view |
| ResetTheorems.ResetOfOneAdd | cpp/AbstractTable.hpp:708-711 | resetting a single local add, made with any fields, leaves the backup list's bounds |
| ResetTheorems.ResetKeepsRename | cpp/AbstractTable.hpp:715-718 | a row renamed and then deleted comes back from a reset with the new name |
| ResetTheorems.DeletionLeavesBackup | cpp/AbstractTable.hpp:814-834 | a remote deletion leaves the row's backup if and only if the row was under a pending edit, unedited or absent |
| ResetTheorems.ResetLocks | cpp/AbstractTable.hpp:731-735 | resetting pending edits, whichever they are, is defined and leaves a table that holds no edit and refuses every edit |
| ResetTheorems.LockedForever | cpp/AbstractTable.hpp:527-530 | no run of edits, further resets and remote events unlocks such a table |
| FailingInputs.TaggingAnAddHangs | cpp/AbstractTable.hpp:570-577 | a group added with a name only and then given tags: the edit does not return |
| FailingInputs.TagsStayListed | cpp/AbstractTable.hpp:571-575 | after any number of passes the key is still on the list |
| FailingInputs.RefusedEditEmptiesRow | cpp/AbstractTable.hpp:544-555 | any loaded row with a name or tags loses them when it is given another ID, and no backup is kept |
| FailingInputs.DeletedUnderEdit | cpp/AbstractTable.hpp:822-831 | a row loaded, renamed, submitted and deleted by the backend leaves its backup behind |
| FailingInputs.PlaceholderLooksLoaded | cpp/AbstractTable.hpp:719-722 | when the backend then adds the ID again, a reset presents the empty placeholder as Loaded |
| FailingInputs.OutdatedRowLooksLoaded | cpp/AbstractTable.hpp:841-845 | a submitted row that the backend changes comes back from a reset with its old value as Loaded, where a cache without editing has it Stale |
| FailingInputs.DroppedRowStays | cpp/AbstractTable.hpp:499-502 | a full refresh from an empty backend leaves a loaded row where it was |
| FailingInputs.ReaddedVoterIsMissing | qml/TableEditController.qml:189-198 | a voter removed and then added again with any weight is not shown, though the contract has him |
| FailingInputs.CopiedVoterReturns | qml/TableEditController.qml:294-300 | copying a group brings a removed voter back in the copy, though the contract does not |
| KeyLoop.LoopEnds | cpp/AbstractTable.hpp:570-577 | some number of passes empties the list of keys if and only if the record has every changed key; then the record is the old one overridden by the changes |
| AbstractTables.AbstractTable.DraftEditRow | cpp/AbstractTable.hpp:527-586 | does not return exactly when the key loop does not end; otherwise the lists become the map-level edit of the old lists |
| AbstractTables.AbstractTable.UpdateRecord | cpp/AbstractTable.hpp:570-577 | the loop that copies an edit into the record of an added row: does not return if and only if a changed key is missing from the record |
| AbstractTables.AbstractTable.DraftAddRow | cpp/AbstractTable.hpp:588-629 | adds a row under the least draft ID past every row, records it and its backup, or refuses |
| AbstractTables.AbstractTable.NextIdIs | cpp/AbstractTable.hpp:604-605 | the ID computed from the last row is the next draft ID, past every row |
| AbstractTables.AbstractTable.DraftDeleteRow | cpp/AbstractTable.hpp:631-665 | forgets a local add, or backs the row up and marks it deleted, or refuses |
| AbstractTables.AbstractTable.MarkEditsPending | cpp/AbstractTable.hpp:667-698 | every row with a backup moves from its draft state to the pending one, and the flag is set if there is any backup |
| AbstractTables.AbstractTable.ResetEdits | cpp/AbstractTable.hpp:700-736 | restores by the backups in order while the callback deletes from the list being visited; undefined exactly when that leaves the list |
| AbstractTables.AbstractTable.RestoreOne | cpp/AbstractTable.hpp:702-726 | one visit of the reset, with the backup removed twice for a draft added row |
| AbstractTables.AbstractTable.ProcessRowsResponse | cpp/AbstractTable.hpp:738-812 | asks for the next page if there is more, and merges the rows; a failed or nonsensical reply changes nothing |
| AbstractTables.AbstractTable.UpdateThroughout | cpp/AbstractTable.hpp:777-807 | the in-place loop, which may erase a settled draft row while it runs, merges the rows one after the other and never loses its position |
| AbstractTables.AbstractTable.PlaceRow | cpp/AbstractTable.hpp:780-802 | overwrites or inserts one row and checks it against local adds and edits |
| AbstractTables.AbstractTable.RowReply | cpp/AbstractTable.hpp:481-497 | the answer to a row load ends the load and is merged |
| AbstractTables.AbstractTable.ProcessJournal | cpp/AbstractTable.hpp:504-525 | applies the entries of a batch in order |
| AbstractTables.AbstractTable.DeleteRow | cpp/AbstractTable.hpp:814-834 | removes the row from the list and the models, and ends the draft or pending deletion it was under |
| AbstractTables.AbstractTable.MarkStale | cpp/AbstractTable.hpp:836-856 | replaces a draft by its backup and marks the row stale, or only refreshes it under a pending edit |
| AbstractTables.AbstractTable.GetNew | cpp/AbstractTable.hpp:858-882 | asks for the row and puts a placeholder where it will be |
| AbstractTables.AbstractTable.CheckPendingInsertion | cpp/AbstractTable.hpp:884-929 | settles the first local add that the new row matches, if edits are pending; `Settlements.NewRowTakesFirst` says field by field which one that is |
| AbstractTables.AbstractTable.CheckOverwrittenEdit | cpp/AbstractTable.hpp:931-977 | reports how the edit under an overwritten row ended and drops its backup; `Settlements.ReplyAnnounces` says what is reported for each kind of edit |
| AbstractTables.AbstractTable.RowIsLoading | cpp/AbstractTable.hpp:382-395 | a load counts as under way for seven seconds; a repeated one keeps its old time |
| AbstractTables.AbstractTable.RefreshRow | cpp/AbstractTable.hpp:481-497 | asks for a row unless a load of it is under way |
| AbstractTables.AbstractTable.DeleteBackupRow | cpp/AbstractTable.hpp:131-135 | removes a backup, and clears the flag with the last one |
| AbstractTables.AbstractTable.FindRowIf | cpp/AbstractTable.hpp:415-429 | the first row in ID order that satisfies the predicate, with its load state, or none does |
| AbstractTables.AbstractTable.GetRow | cpp/AbstractTable.hpp:452-460 | the row with this ID and its state, if there is one |
| AbstractTables.AbstractTable.AllRows | cpp/AbstractTable.hpp:406-413 | attaches a model that shows every row and asks for the stale ones; the first one asks for everything, as `Requests.AttachedModel` spells out |
| Backups.BackupManager.Save | cpp/TableSupport.hpp:192-198 | the first backup saved for an ID stays |
| Backups.BackupManager.Remove | cpp/TableSupport.hpp:177-191 | takes the backup with this ID out and returns it |
| Backups.BackupManager.Get | cpp/TableSupport.hpp:171-176 | the backup with this ID, if there is one |
| Backups.BackupManager.ForEach | cpp/TableSupport.hpp:202-209 | for every callback that deletes at most the backup it visits, each original backup is visited once in ID order, and exactly those not deleted remain, sorted and parallel |
| SortedRows.Inserted | cpp/TableSupport.hpp:192-198 | inserting at the lower bound keeps parallel lists sorted, and sets one entry of the map they stand for |
| SortedRows.Appended | cpp/AbstractTable.hpp:772-776 | appending later rows keeps the lists sorted and overrides the map with them |
| SortedRows.ListsAreUnique | cpp/TableSupport.hpp:103-111 | sorted lists that stand for the same map are the same lists |
| TableModel.Model.UpdateRows | cpp/AbstractTable.hpp:324-358 | the model afterwards shows its old IDs and those of the rows, ascending and parallel to the virtual fields; a view that replays the signals holds the same list and was told of exactly the rows' IDs, as inserted or changed |
| TableModel.Model.DeleteRow | cpp/AbstractTable.hpp:371-380 | the model afterwards shows its old IDs without this one, and so does a view that replays the signals |
| CoherenceSafety.LoadedRowsAreCoherent | cpp/AbstractTable.hpp:382-395 | in every reachable state a row in state Loaded has a value the backend held after every journal entry about the row that was processed, even though refreshes of rows already loading are dropped |
| CoherenceSafety.CaughtUpMeansEqual | cpp/AbstractTable.hpp:481-525 | once the journal is processed to its end every Loaded row equals the backend's |
| CoherenceSafety.EntriesAreApplied | cpp/AbstractTable.hpp:504-525 | handling a journal reply in the protocol applies its entries to the table in order, and does nothing else |
| JournalEntries.ApplyFromIs | cpp/AbstractTable.hpp:504-525 | applying so many entries of the journal from a position is applying that batch as the table does |
| CoherenceProgress.QuiescentTableIsBackend | cpp/AbstractTable.hpp:738-882 | while no reply is lost: once every request is answered and the journal is processed, the base view is the backend's table, every row Loaded, whatever edits are in progress |
| CoherenceProgress.StepKeepsLive | cpp/AbstractTable.hpp:481-525 | each step keeps every row either fresh, or with a load, page or deletion on its way |
| JournalSync.BlockchainInterface.BeginSync | cpp/BlockchainInterface.cpp:172-188 | asks a query whose answer, handled promptly, brings no entry again, and is replayed rather than answered by a refresh if and only if the node still keeps the next entry, whatever the node keeps and however much it sends; before any entry is known the answer is exactly the node's newest entry, which is then known at once, with one refresh fired |
| JournalSync.BlockchainInterface.ProcessJournalReply | cpp/BlockchainInterface.cpp:218-250 | is the handling step of the runs below: replays a reply that continues the journal, refreshes every table otherwise, and remembers the newest entry; an empty or failed reply changes nothing |
| JournalSync.StartsAtNewest | cpp/BlockchainInterface.cpp:182-186 | the first tick of a new client, served by a node with entries and handled, leaves the client at the node's newest entry with one refresh of every table fired, however many entries the node would send |
| JournalSync.OverlappingAnswer | cpp/BlockchainInterface.cpp:239-248 | of two answers to the same query, each of which would be replayed, the one handled second causes a refresh |
| JournalSync.JournalIsCovered | cpp/BlockchainInterface.cpp:172-188 | over every interleaving of ticks, overlapping requests and lost or reordered replies, each entry up to the newest known was delivered since the latest refresh, or was in the journal when some refresh fired |
| JournalSync.DeliveriesAreConsecutive | cpp/BlockchainInterface.cpp:239-248 | the IDs delivered since the latest refresh are one run without gap or repeat, up to the newest known |
| Paging.RefreshLoadsEverything | cpp/AbstractTable.hpp:738-757 | over an unchanging backend, however it cuts its pages, a refresh overrides the base view with every row, Loaded |
| Paging.RefreshKeepsDroppedRows | cpp/AbstractTable.hpp:499-502 | the base view is then the backend's table if and only if it held no row the backend does not have |
| Paging.RefreshEnds | cpp/TableSupport.hpp:33-35 | a refresh has no more pages than there are keys |
| Paging.LimitedNeverUnlimited | cpp/AbstractTable.hpp:751-757 | over any number of continuations a limited load never becomes unlimited, nor an unlimited one limited |
| Paging.LimitIsKept | cpp/AbstractTable.hpp:751-757 | while a limited load asks for more, the rows received and the rows still wanted make up its limit; it stops once it has received as many as it wanted |
| EosioName.StringToUint64 | cpp/EosioName.hpp:15-31 | the loop computes the number with the name's twelve five-bit symbols and its four-bit one |
| EosioName.NameToString | cpp/EosioName.hpp:33-47 | the loops compute the characters of the key's symbols without the dots at the end |
| EosioName.DecodeThenEncode | cpp/EosioName.hpp:7-47 | encoding the name of a 64-bit key gives the key back |
| EosioName.EncodeThenDecode | cpp/EosioName.hpp:7-47 | decoding the key of a string gives the string back if and only if it has at most 13 legal characters, no dot at the end, and a 13th symbol below 16 |
| EosioName.AnyStringReadBack | cpp/EosioName.hpp:7-47 | any string is read back from its key as its first thirteen characters, dots in place of illegal ones, the letters k to z in the last place moved to the first sixteen characters, without the dots at the end |
| EosioName.SameKeyIff | cpp/EosioName.hpp:7-31 | two strings have the same key if and only if these characters are the same |
| EosioName.DecodedIsName | cpp/EosioName.hpp:33-47 | every key has such a name |
| EosioName.KeyOrderIsNameOrder | cpp/EosioName.hpp:33-47 | one 64-bit key is below another if and only if its name comes first as a string |
| EosioName.AscendingKeysAscendingNames | cpp/AbstractTable.hpp:763-806 | rows in ascending key order have ascending names, as merging by name needs |
| ActionPrediction.ActionsArePredicted | qml/TableEditController.qml:304-325 | after a list of predictable actions the visible groups and members are what the contract makes of them |
| ActionPrediction.NamesStayUnique | qml/TableEditController.qml:168-302 | over every list of actions, predictable or not, group names stay unique |
| ActionPrediction.ActionIsPredicted | qml/TableEditController.qml:168-302 | after one action the visible members of each group are what the contract makes of them if and only if the action neither adds a draft-deleted voter again nor copies a group with one |
| ActionPrediction.ReadyNeverHangs | qml/TableEditController.qml:120-145 | no action runs into the key loop that does not end |
| ActionPrediction.ReadyNeverHangsWithin | qml/TableEditController.qml:304-325 | on ready tables every list of actions is applied to its end |
| Rosters.SeenAsPerformed | qml/TableEditController.qml:304-325 | if no action adds a voter whom the backend had at the start and an earlier action removed, or copies his group, renames followed, the user sees after any list of actions what the contract makes of them |
| Rosters.PredictableFromStart | qml/TableEditController.qml:168-302 | whether every action of a list is predictable can be told, both ways, from the starting tables and the list alone |
| Rosters.RemovedAddIsGone | qml/TableEditController.qml:210-232 | removing a voter who was added locally leaves no row for him, and the other rows alone |
| Rosters.AddRemoveAdd | qml/TableEditController.qml:168-232 | a voter without a backend row may be added, removed and added again with any weights: he is shown with the last weight, as the contract has him |
| MemberEdits.BackendRowsStay | qml/TableEditController.qml:168-302 | over every list of actions, predictable or not, no member row of the backend leaves its table or loses its tags, one that is not marked edited or deleted is as it was, and no deletion is taken back |
| MemberEdits.EditIffNews | qml/TableEditController.qml:189-209 | a predictable action changes the tables if and only if the contract has something to do |
| MemberEdits.NoNewsNoEdit | qml/TableEditController.qml:189-209 | any action that the contract would do nothing for leaves every table as it is, edit marks included |
| MemberEdits.NewMemberIs | qml/TableEditController.qml:199-206 | a voter without a row gets one with the weight and no tags, recorded under account and weight |
| MemberEdits.EditedMemberIs | qml/TableEditController.qml:189-198 | a shown voter with another weight keeps the rest of his row, and is marked as edited unless he is a local add |
| MemberEdits.RemovedMemberIs | qml/TableEditController.qml:229-231 | a removed voter of the backend keeps his row, marked as deleted |
| MemberEdits.CopiedRowsAre | qml/TableEditController.qml:292-300 | the copy of a group is a new group with each row of the group as a local add, with the same weight and tags and a full record |
| MemberEdits.EditMemberHangsIff | cpp/AbstractTable.hpp:570-577 | another weight for a voter hangs if and only if he is a local add and no number of passes over his record empties the list of changed keys |
| TableEditControllers.TableEditController.ApplyActions | qml/TableEditController.qml:304-325 | drives the tables in place through the actions in order; does not return if and only if one of them, after those before it, does not |
| TableEditControllers.TableEditController.ProcessVoterAdd | qml/TableEditController.qml:168-209 | creates the group if needed, and adds the voter or edits his weight; does not return if and only if editing his record does not |
| TableEditControllers.TableEditController.ProcessVoterRemove | qml/TableEditController.qml:210-232 | deletes the voter from the group, if both are there; `Rosters.RemovedAddIsGone` says that a local add leaves no row |
| TableEditControllers.TableEditController.ProcessGroupRename | qml/TableEditController.qml:233-260 | renames the group if it is there and the name is free |
| TableEditControllers.TableEditController.ProcessGroupCopy | qml/TableEditController.qml:261-302 | creates the new group and adds every local member of the old one, if the name is free |
| Typing.TypingBuilds | qml/TypingAnimation.qml:68-100 | after every frame, for every choice of chunks, what is typed is the beginning of the text |
| Typing.TypingStaysOutside | qml/TypingAnimation.qml:78-98 | on a well-formed text no frame hangs or ends inside a tag, and every frame types something if the text does not end in a tag |
| Typing.TypingFinishes | qml/TypingAnimation.qml:68-111 | a well-formed text is typed to its end, in as many frames as it has characters at most, if and only if it does not end in a tag |
| Typing.CharactersArePrefix | qml/TypingAnimation.qml:72-98 | taking tags out, choosing characters and putting the tags back gives the next characters of the text |
| Typing.ExtractEnds | qml/TypingAnimation.qml:76-85 | taking the tags out ends on every well-formed text and leaves a well-formed one |
| Typing.FoundInWindow | qml/TypingAnimation.qml:87-92 | a pause found among the first characters is the first one of the text |
| Typing.SentenceIsTyped | qml/TypingAnimation.qml:87-107 | if the first sentence ends within the next characters, and no tag is among them, a frame types exactly up to its end, whatever is drawn, and the wait is longer by the factor |
| Typing.ChunkIsTyped | qml/TypingAnimation.qml:87-107 | if no sentence ends there, a frame types as many characters as were drawn, or all there are, and waits as long as was drawn |
| Typing.TypingAnimation.OnFrameInterval | qml/TypingAnimation.qml:68-111 | counts down the wait, types only once it is over, and goes on until there is something to wait for; the frames still to wait are the old ones, less one for each frame, plus the delays drawn; hangs exactly where a frame does |
| Typing.TypingAnimation.TypeOnce | qml/TypingAnimation.qml:72-107 | one typing frame, with the loops that take tags out and put them back, and the longer delay after a sentence |
| Typing.TypingAnimation.Start | qml/TypingAnimation.qml:39-53 | starts over with the new text, or completes at once if disabled |
| Typing.TypingAnimation.Complete | qml/TypingAnimation.qml:55-59 | everything is typed and nothing is left to wait for |

## Left out

- String-ID tables as classes. Member tables appear as values in `ActionPrediction`, with their draft operations only: their lists, backups, replies and journal entries are not modelled, nor that a draft add hit by a journal entry keeps its record (cpp/AbstractTable.hpp:846-852).
- TableInvariants.RunKeepsInv: backend IDs lie below the draft bound and replies ascend; runs contain no edit that hangs or forges a draft ID, and no reset of a table with a draft added row, which `ResetTheorems.ResetLeavesOrder` and `TableInvariants.EditKeepsInvIff` show to break the invariant. Draft IDs are unbounded numbers, so running past 64 bits is not captured.
- EditLedger.LedgerBalances: counts per row; a backup left behind by a remote deletion stays an open entry. The runs are those of `TableInvariants.RunKeepsInv`.
- Settlements.LostWhilePending: the runs are those of `TableInvariants.RunKeepsInv`.
- Settlements.AddIsSettled: no other local add was outstanding; `Settlements.NewRowTakesFirst` says what happens among several.
- DraftEffects.UnlocksWithLastEdit: runs without reset; `ResetTheorems.ResetLocks` shows that a reset of pending edits leaves the flag set without any edit.
- ResetTheorems.ResetRestores: with a draft added row nothing more is said about the table than that it is not the base view; the original's behaviour outside its list's bounds is unknown.
- AbstractTables.AbstractTable.ProcessRowsResponse: replies ascend, as the node sends them in key order and the append path relies on it; their IDs lie below the draft bound and the records hold draft IDs, as they do in every reachable state (`DraftTail.RecordsHoldDraftIds`). Otherwise the loop can erase a row at or before its own position, and the original's iterator is invalid.
- AbstractTables.AbstractTable.RowReply: the same conditions as for ProcessRowsResponse.
- AbstractTables.AbstractTable.UpdateThroughout: the same conditions as for ProcessRowsResponse.
- AbstractTables.AbstractTable.DraftEditRow: nothing is known of the table once a call hangs; conversions of field values that do not fit their type yield a default, and the full rules of the conversion library are not part of this model.
- CoherenceSafety.LoadedRowsAreCoherent: replies are handled in the order the node served the requests, each journal entry is written with its change, no gap in the journal follows the first load, and a reset comes only while no row is under a pending edit or delete. Without an ordered link a late reply can mark an outdated row Loaded; `FailingInputs.OutdatedRowLooksLoaded` shows what a reset of a pending edit can do.
- CoherenceProgress.QuiescentTableIsBackend: says nothing about whether requests are ever answered.
- JournalSync.JournalIsCovered: nothing is said before the first reply that is not empty.
- JournalSync.DeliveriesAreConsecutive: the backend numbers journal entries one after the other, and the node sends them in key order; the client checks the first ID of a reply only.
- Paging.RefreshLoadsEverything: the backend does not change while its pages are followed, and names a later key only if there are rows from that key on.
- ActionPrediction.ActionsArePredicted: member tables are values, not lists changed in place; no group is draft-deleted to begin with (the controller deletes rows of member tables only, qml/TableEditController.qml:230), local adds were made with the fields that actions edit, and a group without a known member table has no members.
- Rosters.SeenAsPerformed: the starting tables are as for ActionsArePredicted.
- TableEditControllers.TableEditController.AddAll: adds the rows in any order; the original goes by ID.
- Typing.TypingStaysOutside: the pause text is not empty and contains no bracket.
- Typing.SentenceIsTyped: no tag begins among the next characters; with tags there, `Typing.CharactersArePrefix` says that the next characters of the text are typed, but not how many.
- Typing.ChunkIsTyped: the same condition as for SentenceIsTyped.
- Typing.TypingAnimation.OnFrameInterval: if the random numbers given run out, the frame handler stops there.
- Backups.BackupManager.ForEach: a callback that does more than delete the backup it visits is outside the statement; the reset's callback does, and `AbstractTables.AbstractTable.RestoreOne` follows it visit by visit.
- The controller's list of edits, the rewriting of earlier edits' fields, settling edits, and its connections to tables (qml/TableEditController.qml:60-166, 327-461).
- Virtual fields' values, role numbers, reflection and typelists; a model's virtual fields are only kept parallel to its IDs.
- Hooks of table-specific operations and re-scoping of tables; the variant of a row refresh with a callback (cpp/AbstractTable.hpp:462-479).
- Network, JSON, timers and signal delivery; the head block properties and the connection status.
- Keys, packing, wallet and TLS sessions; the status machine of broadcast transactions; the user interface.
