# Entry editing session of KeePassX's EditEntryWidget

This project is a Dafny model of the entry editor of KeePassX (`EditEntryWidget`) with the Qt widgets taken out. What remains is the editing session, a small state machine with this state:

- **Mode.** Create, edit or history view.
- **Form buffers.** The main and notes fields, the password buffer, the repeat buffer and the repeat hint.
- **Working maps.** One for custom attributes and one for attachments.
- **Attribute cursors.** The attribute view's current row; the row the editor buffer belongs to (the source's `m_currentAttribute`); and the editor buffer itself.
- **History tab.** The rows, the pending deletions and the button states.
- **References.** The entry being edited and its database.

The operations load a session and edit the working state. `SaveEntry` commits and `Cancel` discards. Signals and the "different passwords" message box go into a ghost event log. The entry operations whose internals are not described here go into a ghost call log on the entry:

- pruning history;
- the begin/end update bracket;
- copying custom keys;
- the field writes.

Each operation gets its own contract in that form. The lemmas then prove properties of the whole commit:

- the order of the calls;
- the bracketing;
- the icon choice;
- the pruning arithmetic.

Files:

- `Entry.dfy` (module `EntryModel`): the entry, the database's custom-icon store, the value types, and history pruning.
- `EditRules.dfy` (module `EditRules`): the side-effect-free decisions:
  - the password-repeat classification;
  - the three-way icon choice;
  - writing the editor buffer back into the attribute map;
  - the call sequence of a commit.
- `AttributeNames.dfy` (module `AttributeNames`): the "New attribute", "New attribute 1", … search and why it terminates.
- `EditEntryWidget.dfy` (module `EditEntry`): the widget as a class whose methods update its fields. The tab state is grouped into the value types `MainTab`, `AdvancedTab` and `HistoryTab`.
- `Scenarios.dfy` (module `Scenarios`): complete sessions composed from the operations' contracts.

`Valid()` is the session invariant that every operation preserves:

- both attribute cursors point at keys of the working map;
- the repeat hint agrees with the password buffers;
- restore stays disabled;
- outside history view, the history rows plus the pending deletions are exactly the entry's history, as a multiset.

## Model

| member | source | states |
|---|---|---|
| EditEntry.EditEntryWidget.constructor | src/gui/entry/EditEntryWidget.cpp:39-79 | a new widget has no entry bound (as `m_entry(0)` at 41), empty working maps (created at 71 and 79), no attribute cursor, an empty history tab and no events; the null database and the false create and history flags are the model's choice, because the source leaves those members uninitialised |
| EditEntry.EditEntryWidget.LoadEntry | src/gui/entry/EditEntryWidget.cpp:144-211 | binds entry, database, create and history flags; disables show/restore/delete/delete-all before filling the forms; afterwards the session shows the entry (`Loaded`) and is `Valid`; in history view the history tab is left as it was |
| EditEntry.EditEntryWidget.SetForms | src/gui/entry/EditEntryWidget.cpp:213-249 | the form shows the entry's fields with the password in both buffers (so the hint is Match); the working maps are the entry's custom attributes and attachments; the icon tab holds the entry's UUID and number; outside history view the history tab lists the entry's items with no pending deletion and "delete all" enabled exactly when there are items; in history view the history tab is unchanged |
| EditEntry.EditEntryWidget.LoadAttributes | src/gui/entry/EditEntryWidget.cpp:230-236 | replacing the working attribute map resets the view; an empty map leaves no current row and an empty buffer, otherwise some row becomes current and the buffer shows its value |
| EditEntry.EditEntryWidget.UpdateCurrentAttribute | src/gui/entry/EditEntryWidget.cpp:417-455 | in history view the map and the editor's owner row are never written and the buffer shows the new row; otherwise an unchanged selection changes nothing, and a changed one writes the buffer back into the previous row with its protected flag kept and then shows the new row |
| EditEntry.EditEntryWidget.InsertAttribute | src/gui/entry/EditEntryWidget.cpp:376-393 | the new key is the first free candidate name; the map gains exactly that key with an empty, unprotected value, after the buffer was written back into the previous current row; the new key becomes current and the buffer is empty |
| AttributeNames.FreshAttributeName | src/gui/entry/EditEntryWidget.cpp:380-386 | the search loop terminates after at most as many attempts as there are keys; it returns the candidate of that attempt, which is not a key, and every earlier candidate is a key |
| AttributeNames.TriedCount | src/gui/entry/EditEntryWidget.cpp:380-386 | the first n candidate names are pairwise different, which is what bounds the loop |
| AttributeNames.CandidateNameInjective | src/gui/entry/EditEntryWidget.cpp:384 | different attempts produce different names ("New attribute" and "New attribute k" with k in decimal) |
| AttributeNames.ParseDecimalString | src/gui/entry/EditEntryWidget.cpp:384 | the decimal rendering of the suffix reads back as the same number |
| AttributeNames.DecimalStringInjective | src/gui/entry/EditEntryWidget.cpp:384 | different suffix numbers render differently |
| AttributeNames.CandidateName | src/gui/entry/EditEntryWidget.cpp:380-384 | every candidate starts with the base name "New attribute" |
| AttributeNames.DecimalString | src/gui/entry/EditEntryWidget.cpp:384 | the suffix is a non-empty string of decimal digits, at least two long from 10 on |
| AttributeNames.FirstFreeAfterTried | src/gui/entry/EditEntryWidget.cpp:380-386 | when the keys are exactly the first k candidates, the first free name is the k-th candidate |
| EditEntry.EditEntryWidget.RemoveCurrentAttribute | src/gui/entry/EditEntryWidget.cpp:406-415 | without a current row nothing changes; otherwise exactly that key leaves the working map, the view has no current row, the editor's owner row is dropped if it was that key, and the buffer and attachments are kept |
| EditEntry.EditEntryWidget.EditAttributeText | src/gui/entry/EditEntryWidget.cpp:267-271 | typing into the attribute editor changes only the buffer the commit later writes back |
| EditEntry.EditEntryWidget.EditForm | src/gui/entry/EditEntryWidget.cpp:92-93 | editing the form sets the buffers and recomputes the repeat hint from the two password buffers |
| EditEntry.EditEntryWidget.SelectIcon | src/gui/entry/EditEntryWidget.cpp:295 | the icon tab's selection is what the commit resolves |
| EditEntry.EditEntryWidget.InsertAttachment | src/gui/entry/EditEntryWidget.cpp:457-483 | the given bytes are stored under the file name, overwriting an existing attachment of that name; nothing else changes |
| EditEntry.EditEntryWidget.RemoveCurrentAttachment | src/gui/entry/EditEntryWidget.cpp:514-525 | without a current row nothing changes; otherwise exactly that key leaves the attachment map |
| EditEntry.EditEntryWidget.UpdateHistoryButtons | src/gui/entry/EditEntryWidget.cpp:128-142 | show and delete are enabled exactly when a history row is current; restore is always disabled; rows, deletions and "delete all" are unchanged |
| EditEntry.EditEntryWidget.ShowHistoryEntry | src/gui/entry/EditEntryWidget.cpp:527-533 | with a current row, emits exactly one activation signal carrying that row's history item (the signal of emitHistoryEntryActivated, lines 120-126); without one, emits nothing |
| EditEntry.EditEntryWidget.DeleteHistoryEntry | src/gui/entry/EditEntryWidget.cpp:535-547 | the current row moves from the rows to the end of the pending deletions; "delete all" stays enabled exactly when rows remain; `Valid` is preserved, so rows plus deletions still make up the entry's history |
| EditEntry.EditEntryWidget.DeleteAllHistoryEntries | src/gui/entry/EditEntryWidget.cpp:549-558 | every remaining row is appended to the pending deletions, no row remains, "delete all" is disabled, and `Valid` is preserved |
| EditEntry.EditEntryWidget.PasswordsEqual | src/gui/entry/EditEntryWidget.cpp:352-355 | the buffers are equal exactly when the repeat classification is Match |
| EditEntry.EditEntryWidget.SetPasswordCheckColors | src/gui/entry/EditEntryWidget.cpp:357-374 | the hint becomes the classification of the two buffers, which are left unchanged |
| EditRules.CheckPasswords | src/gui/entry/EditEntryWidget.cpp:357-374 | Match exactly when the buffers are equal; not Mismatch exactly when the repeat is a prefix of the password |
| EditRules.PartialMatchCompletes | src/gui/entry/EditEntryWidget.cpp:364-365 | "correct so far" holds exactly when the buffers differ and typing more characters can complete the repeat to the password |
| EditRules.EmptyRepeatIsPartial | src/gui/entry/EditEntryWidget.cpp:364-365 | an empty repeat buffer is "correct so far" for every non-empty password |
| EditEntry.EditEntryWidget.SaveEntry | src/gui/entry/EditEntryWidget.cpp:251-319 | history view: releases the session, leaves the entry and the history tab unchanged, signals editFinished(false); unequal buffers: nothing changes but one warning (the session stays open); otherwise the commit's effects as in Commit, with `recorded` the item the closing bracket records, if any |
| EditEntry.EditEntryWidget.Commit | src/gui/entry/EditEntryWidget.cpp:267-318 | the entry gets the form fields, the working attributes after the buffer was flushed into the current row, the working attachments and the resolved icon; its history is CommittedHistory: the history without the pending deletions, then (editing only) at most the one item the closing bracket records; its call log grows by exactly CommitCalls, whose update bracket opens on the pruned history; for a duplicate-free history the pruned part is the rows that were shown, one fewer per deletion; the session is released, the history tab cleared and editFinished(true) fires once |
| EditEntry.WriteEntry | src/gui/entry/EditEntryWidget.cpp:275-309 | the entry writes in source order: prune, begin update on the pruned history (editing only), the field writes, end update (editing only); the resulting fields, attributes, attachments and icon; the history is the pruned history plus, when editing, the item the closing bracket records, if any |
| EditEntry.WriteFields | src/gui/entry/EditEntryWidget.cpp:281-305 | the four write calls in order and the values they leave in the entry |
| EditEntry.EditEntryWidget.ReleaseSession | src/gui/entry/EditEntryWidget.cpp:312-318 | every exit: entry and database released, both working maps cleared with their cursors, the history tab cleared outside history view, and exactly one editFinished signal with the given outcome |
| EditEntry.EditEntryWidget.Cancel | src/gui/entry/EditEntryWidget.cpp:321-344 | history view: the entry is untouched; otherwise the only entry change is resetting the icon to the default one, exactly when its custom UUID is non-null and missing from the database (one SetIcon call), else no call at all; every other entry field is unchanged; always released with editFinished(false) |
| EditRules.ResolveIcon | src/gui/entry/EditEntryWidget.cpp:295-305 | a negative number gives the default icon; otherwise a null UUID gives the numbered icon, and a non-null one the custom icon; the result is always a usable icon |
| EditRules.IconStructOf | src/gui/entry/EditEntryWidget.cpp:238-241 | the icon tab is loaded with the entry's icon UUID and number; IconRoundTrip states that committing it unchanged gives back the icon |
| EditRules.IconRoundTrip | src/gui/entry/EditEntryWidget.cpp:237-240 | loading a usable icon into the icon tab and committing it unchanged gives the same icon back |
| EditRules.ResolveIconIdempotent | src/gui/entry/EditEntryWidget.cpp:295-305 | committing an icon, reloading it and committing again is a fixed point |
| EditRules.SelectedText | src/gui/entry/EditEntryWidget.cpp:424-447 | the editor shows the value of the selected attribute, or nothing without a selection; UpdateCurrentAttribute and Shows use it |
| EditRules.FlushInto | src/gui/entry/EditEntryWidget.cpp:267-271 | the flush keeps the key set and every protected flag, changes only the current row, and that row then holds the buffer |
| EditRules.FlushIdempotent | src/gui/entry/EditEntryWidget.cpp:267-271 | flushing twice with the same buffer is the same as flushing once |
| EditRules.CommitCalls | src/gui/entry/EditEntryWidget.cpp:275-309 | the entry calls of a commit: the prune comes first, then four writes, wrapped in begin/end update when editing (seven calls) and bare when creating (five); PruneBeforeBracket and BracketOnlyWhenEditing state the order |
| EditRules.CommittedHistory | src/gui/entry/EditEntryWidget.cpp:275-309 | the history after a commit starts with the pruned history, is at most one item longer, equals it in create mode or when the bracket records nothing, and otherwise ends with the recorded item |
| EntryModel.RecordedItems | src/gui/entry/EditEntryWidget.cpp:307-309 | closing an update bracket appends at most one history item, and none exactly when the entry records none |
| EditRules.PruneBeforeBracket | src/gui/entry/EditEntryWidget.cpp:275-281 | the first call of a commit prunes the deleted items, no later call prunes, and the update bracket opens on the pruned history |
| EditRules.BracketOnlyWhenEditing | src/gui/entry/EditEntryWidget.cpp:279-309 | begin/end update occur exactly when not creating; then begin is the second call, end the last, every write lies strictly between them, and there are exactly four writes |
| EntryModel.WithoutItems | src/gui/entry/EditEntryWidget.cpp:277 | pruning keeps exactly the history items not listed for deletion and never lengthens the history |
| EntryModel.WithoutItemsCount | src/gui/entry/EditEntryWidget.cpp:277 | an item listed for deletion has no copy left; any other item keeps all its copies |
| EntryModel.PrunedHistoryIsRemainingRows | src/gui/entry/EditEntryWidget.cpp:277 | for a duplicate-free history that the rows and the deletions make up, pruning leaves exactly the rows, and the history shrinks by the number of deletions |
| EntryModel.Database.ContainsCustomIcon | src/gui/entry/EditEntryWidget.cpp:332-333 | whether the database holds a custom icon of that UUID; Cancel resets the icon exactly when it does not |
| EntryModel.Icon.CustomUuid | src/gui/entry/EditEntryWidget.cpp:239 | an entry's icon UUID is non-null only for a custom icon |
| EntryModel.Entry.RemoveHistory | src/gui/entry/EditEntryWidget.cpp:277 | prunes the history and logs one prune call |
| EntryModel.Entry.BeginUpdate | src/gui/entry/EditEntryWidget.cpp:279-281 | logs the opening of the update bracket with the history it opens on |
| EntryModel.Entry.EndUpdate | src/gui/entry/EditEntryWidget.cpp:307-309 | logs the closing of the update bracket; the history gains at most the one item the entry records for the bracket (given as `recorded`, since Entry decides it) |
| EntryModel.Entry.SetAllFields | src/gui/entry/EditEntryWidget.cpp:283-290 | the scalar fields are the given ones; one write is logged |
| EntryModel.Entry.CopyCustomKeysFrom | src/gui/entry/EditEntryWidget.cpp:292 | the custom attributes are the given ones; one write is logged |
| EntryModel.Entry.SetAllAttachments | src/gui/entry/EditEntryWidget.cpp:293 | the attachments are the given ones; one write is logged |
| EntryModel.Entry.SetIconTo | src/gui/entry/EditEntryWidget.cpp:295-305 | the icon is the given one; one write is logged |
| Scenarios.AddEntryWithAttribute | src/gui/entry/EditEntryWidget.cpp:251-319 | creating an entry: a refused save, then a successful one. It writes the fields and the single attribute "New attribute", makes no history change, logs exactly the create-mode calls and signals a warning followed by editFinished(true) |
| Scenarios.RefusedSaveOfNewEntry | src/gui/entry/EditEntryWidget.cpp:262-265 | a save whose repeat buffer is only a prefix of the password leaves the new-entry session open and untouched, with one warning |
| Scenarios.DeleteAllThenSave | src/gui/entry/EditEntryWidget.cpp:549-558 | deleting all history rows and then committing prunes every item the entry held: what remains is at most the one item the closing bracket records, and nothing in create mode; the prune call carries every item |
| Scenarios.PrunedAll | src/gui/entry/EditEntryWidget.cpp:277 | pruning every item of a history leaves it empty |
| Scenarios.CancelWithDanglingIcon | src/gui/entry/EditEntryWidget.cpp:332-335 | cancelling with a custom icon that the database lacks resets the icon to the default one and makes one call |
| Scenarios.SaveInHistoryView | src/gui/entry/EditEntryWidget.cpp:253-260 | a save in history view leaves the entry's fields unchanged, makes no entry call and signals editFinished(false) |

## Left out

- **Attachment file I/O.** The file dialogs, checking that the file exists, and reading and writing files are left out. This covers `insertAttachment` and all of `saveCurrentAttachment`. `InsertAttachment` takes the file name and the bytes as inputs and models only the final map update. The error message boxes of `insertAttachment` are part of the I/O that is left out.
- **Presentation.** Left out: the headline label and group name, read-only and frame toggles, enabled states of the attribute editor and its buttons, stylesheets and colour constants, `togglePassword`, `editCurrentAttribute` (it only opens an inline editor), `setCurrentRow` and focus. The repeat field's colour is modelled as the `PasswordCheck` hint.
- **Signal/slot wiring in the constructor.** Connected slots are modelled as operations the environment calls. Where the source changes the attribute view's current row, the synchronous `currentChanged` notification is an explicit call to `UpdateCurrentAttribute`.
- **View indexes.** The current index of each list view is an input, an `Option` of a key or a row number. Follow-up notifications are the environment's job. For example, after `DeleteHistoryEntry` removes the current row, Qt's `currentChanged` runs `updateHistoryButtons`; in the model that is a separate call to `UpdateHistoryButtons`. Until that call, show and delete stay enabled.
- **Attribute view after a removal.** Qt may move the current row after a removal. The model sets "no current row" instead.
- **Order of attribute rows.** `LoadAttributes` makes some key current rather than "row 0", because the order of the rows is not modelled.
- **Expiry time.** The local/UTC conversions are not modelled; the expiry time is an opaque value.
- **Collaborators.** `Entry`, `EntryAttributes`, `EntryHistoryModel`, `EditWidgetIcons` and `Metadata` are not part of this model. Their operations are plain field writes plus entries in the ghost call log. Specifically:
  - what `beginUpdate`/`endUpdate` snapshot, and when `endUpdate` records one, is decided inside Entry. `SaveEntry`, `Commit`, `WriteEntry` and `Entry.EndUpdate` therefore take that item as the input `recorded`, an `Option`. The model promises only that closing the bracket appends at most that one item;
  - `copyCustomKeysFrom` is modelled as replacing the custom keys;
  - the history model is modelled as rows plus pending deletions.
- **`Entry::setIcon` and the default icon.** `Entry::setIcon(int)` is assumed to select the standard icon of that number, and `setIcon(uuid)` the custom icon. `Entry::DefaultIconNumber` is taken to be 0. `Entry::iconNumber()` is assumed to read as `DefaultIconNumber` for a custom icon (`Icon.Number`); `IconRoundTrip` depends on that.
- **Translation of the base name.** The source passes "New attribute" through `tr()`. The model fixes the untranslated English string.
- SaveEntry: the history item the closing update bracket records is the input `recorded`; the model does not say that one is recorded exactly when something inside the bracket changed, because Entry's change tracking is not part of this model.
- Commit: takes the same input `recorded`, with the same gap as SaveEntry.
- WriteEntry: takes the same input `recorded`, with the same gap as SaveEntry.
- DeleteAllThenSave: proves that the history afterwards holds at most the recorded item. Whether an item is recorded at all is left open, as for SaveEntry.
- **Field setters.** `Entry.SetAllFields` stands for the seven scalar setters at lines 283-290 and is logged as one call. So the "four writes" of `CommitCalls` and `BracketOnlyWhenEditing` count groups of writes, not the source's individual setter calls.
- **History restore.** It is not implemented in the source; the button is always disabled, and that is all the model says about it.
- **`Q_ASSERT(!m_history)` guards.** They are `requires !history` clauses.
- **The 32-bit `int i` of the name search.** Its overflow is not modelled. `FreshAttributeName` proves that the loop runs at most as many times as there are keys, so the counter stays small.
- **Tab state grouped into values.** The tab state is held in value-typed fields (`MainTab`, `AdvancedTab`, `HistoryTab`) that the methods reassign. The source keeps the same data in separate widgets and models.
- **Create mode.** `loadEntry` always receives an entry, also in create mode, because `saveEntry` and `cancel` dereference `m_entry` unconditionally. So the model always requires a non-null entry.
