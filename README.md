# qnotes note store and editors, modelled in Dafny

qnotes is an offline-first notes app for iOS. Notes live in memory, in a local
Core Data cache and in Firestore. This project models the logic behind them:

- **The note list** (`filteredNotes`). Pinned notes come first, then newest first, then a
  case-insensitive search filter.
- **The note store's mutations.** These are `addNote`, `updateNote`, `togglePin` and
  `deleteNote`, the loading paths and the Firestore completion handlers.
- **Offline bookkeeping.** This covers the `needsSync` flag on cache records and the
  `"userId:noteId"` tombstones in UserDefaults. It also covers the pending "delete all
  unpinned notes" flag and the reconciliation `syncPendingChanges` runs when connectivity
  returns.
- **The `Note` record.** This includes its defaults, id-only hashing, `CDNote.toNote()`
  and the row view's sync indicator and preview.
- **The editors.** The detail screen's edit/save/cancel state machine, its word count
  and its split of content into 1000-character chunks. The add/edit editor's save and
  paste rules, and the older editor kept in the detail view's file.
- **The settings screen's bulk deletion** of unpinned notes.

Modules, one per source file plus two shared ones:

- `Wrappers`: `Option`.
- `Text`: the Foundation string operations the app uses: trimming whitespace and
  newlines, `components(separatedBy:)`, lowercasing, `contains` and `hasPrefix`.
- `Components`: Components.swift.
- `NoteList`: the value-level logic of ContentView.swift. That is the comparator and
  sort, filters, `firstIndex`, and the tombstone encoding and decoding.
- `ContentView`: the class `NoteStore`. It holds the view's state (`notes`, `searchText`,
  `deletedNoteIds`) and the three stores: UserDefaults as `defaults`, Core Data as `cache`
  and Firestore as `remote`. The signed-in user and connectivity are inputs. Every Firestore
  call the view issues is recorded in the multiset `inFlight`. Its completion handler is a
  separate method taking the request and whether it succeeded.
- `SettingsView`: `deleteUnpinnedNotes` on the store it was handed.
- `NoteDetail`: Views/NoteDetailView.swift, that is `NoteDetailView` and the older `NoteEditView`.
- `NoteEdit`: Views/NoteEditView.swift.

## Model

| member | source | states |
|---|---|---|
| Text.TrimStart | ContentView.swift:398 | the result is a suffix of the input, what it drops is all whitespace, and it does not start with whitespace |
| Text.TrimEnd | ContentView.swift:398 | the result is a prefix of the input, what it drops is all whitespace, and it does not end with whitespace |
| Text.Trim | ContentView.swift:398 | `trimmingCharacters(in: .whitespacesAndNewlines)` never lengthens the text; `TrimSpec` and `TrimEdges` state exactly what it cuts |
| Text.TrimSpec | ContentView.swift:398 | `trimmingCharacters(in: .whitespacesAndNewlines)` returns a contiguous slice of the input with only whitespace on either side of it |
| Text.TrimEdges | ContentView.swift:398 | trimmed text is empty or starts and ends with a non-whitespace character |
| Text.TrimEmptyIffBlank | Views/NoteEditView.swift:141 | trimming yields the empty string exactly when the text is all whitespace |
| Text.TrimIdempotent | Views/NoteEditView.swift:145 | trimming twice is trimming once |
| Text.Components | Views/NoteDetailView.swift:236 | `components(separatedBy:)` gives one more piece than there are separators, no piece holds a separator, and the pieces joined are the text without its separators |
| Text.ComponentsRoundTrip | Views/NoteDetailView.swift:236 | the pieces with the text's whitespace characters put back between them, in order, rebuild the text, so the splits fall exactly at the whitespace |
| Text.FirstComponentEmpty | Views/NoteDetailView.swift:236 | the first piece is empty exactly when the text is empty or starts with whitespace |
| Text.WordCount | Views/NoteDetailView.swift:235-237 | `components(separatedBy:).filter { !$0.isEmpty }.count` equals the number of places where a word ends, an independent count |
| Text.NonEmptyPiecesAreWordEnds | Views/NoteDetailView.swift:235-237 | the number of non-empty pieces equals the number of positions where a word ends (a non-whitespace character not followed by another) |
| Text.WordEndsZeroIffBlank | Views/NoteDetailView.swift:235-237 | no word ends exactly when the text is all whitespace |
| Text.WordCountZeroIffBlank | Views/NoteDetailView.swift:235-237 | the word count is zero exactly for whitespace-only (or empty) text |
| Text.Lowercased | ContentView.swift:300 | `lowercased()` keeps the length, leaves no ASCII capital, turns each capital into its small letter and keeps every other character |
| Text.LowercasedIdempotent | ContentView.swift:300 | lowercasing twice is lowercasing once |
| Text.Contains | ContentView.swift:300 | Foundation's `contains` (`range(of:) != nil`): true only for a non-empty part that occurs in the text, so a contained part is never longer than the text and the empty part is contained in no text |
| Components.MakeNote | Components.swift:42-49 | the memberwise initialiser: the given id, content, timestamp, owner, pin and sync state, and `needsSync` true |
| Components.FreshNoteDefaults | Components.swift:40-49 | a note built with the struct's defaults is unpinned, `notSynced` and `needsSync` |
| Components.HashDependsOnlyOnId | Components.swift:40-53 | equal notes, and more generally notes with the same id, feed the hasher the same fields |
| Components.ToNote | Components.swift:56-65 | missing id and timestamp take the fresh UUID and `Date()`; missing content and userId become `""`; `isPinned` and the sync state are copied; `needsSync` takes the struct default `true` |
| Components.DeletedNoteIds | Components.swift:25-28 | a missing key or a value that is not a string array reads as the empty set; otherwise the set holds exactly the stored array's elements |
| Components.ArrayOf | Components.swift:31 | `Array(ids)` holds every element of the set exactly once and nothing else |
| Components.SetDeletedNoteIds | Components.swift:30-32 | reading back what was written yields the same set, and every other key keeps its value |
| Components.BoolForKey | ContentView.swift:548 | `bool(forKey:)` reads true only for a key that is present (and holds a boolean true) |
| Components.BoolForKeyAfterSet | Views/SettingsView.swift:209 | after `set(_:forKey:)` of a boolean the key reads back that boolean and every other key reads as before |
| Components.DeletedNoteIdsIgnoresOtherKeys | Views/SettingsView.swift:210 | writing any other UserDefaults key leaves the tombstone set as it reads |
| Components.SyncStatusSymbol | Components.swift:110-116 | the cloud symbol shows exactly for a synced note |
| Components.SyncStatusColor | Components.swift:118-124 | green exactly for a synced note, pink exactly for one not yet synced |
| Components.IndicatorsDistinct | Components.swift:110-124 | the symbol and colour mappings are total, and distinct sync states get distinct symbols and distinct colours |
| Components.RowPreview | Components.swift:75 | the row text is at most 100 characters, a contiguous part of the content's first 100 characters with only whitespace before and after it in those characters, and neither starts nor ends with whitespace |
| NoteList.Before | ContentView.swift:291-296 | the comparator puts a pinned note before every unpinned one and never an unpinned note before a pinned one |
| NoteList.BeforeIsStrict | ContentView.swift:291-296 | the comparator is asymmetric, and the pairs it leaves unordered are exactly ties in pin state and timestamp |
| NoteList.OrderedMeaning | ContentView.swift:291-296 | in a list ordered by the comparator every pinned note precedes every unpinned one, and notes with the same pin state run newest first |
| NoteList.Insert | ContentView.swift:291-296 | inserting into an ordered list keeps it ordered and adds exactly that note |
| NoteList.SortNotes | ContentView.swift:291-296 | `sorted` by the comparator yields an ordered permutation of its input |
| NoteList.Filter | ContentView.swift:300 | `filter` returns no more notes than it is given, each one it keeps |
| NoteList.FilterAppend | ContentView.swift:711 | filtering two lists joined is joining their filtered parts, so `filter` keeps the relative order of whatever it is given |
| NoteList.FilterCount | ContentView.swift:300 | `filter` keeps every copy of a kept note and no copy of a dropped one |
| NoteList.FilterKeepsOrder | ContentView.swift:300 | `filter` on an ordered list leaves it ordered |
| NoteList.SearchIgnoresCase | ContentView.swift:300 | the search match is the same with the query or the content lowercased first |
| NoteList.Filtered | ContentView.swift:290-302 | `filteredNotes` is always in comparator order |
| NoteList.FilteredNotesSpec | ContentView.swift:290-302 | the visible list is ordered; with an empty search it is a permutation of `notes`; otherwise it holds exactly the notes whose lowercased content contains the lowercased search, with their multiplicities |
| NoteList.PinnedOnly | ContentView.swift:711 | `filter { $0.isPinned }` returns only pinned notes, no more than it is given |
| NoteList.PinnedOnlySpec | ContentView.swift:711 | keeps each pinned note with its multiplicity and drops every unpinned one; for any list, in any order, cutting it anywhere gives the pinned notes before the cut followed by those after it, and a single note stays exactly when pinned, so the relative order is the list's own |
| NoteList.IndexOfId | ContentView.swift:452 | `firstIndex(where:)` by id: none means no note has the id; otherwise that note has it and no earlier one does |
| NoteList.IndexOfIdAt | ContentView.swift:452 | the first index holding the id is the one `firstIndex(where:)` returns |
| NoteList.RemoveFirstWithId | ContentView.swift:481-483 | the list is unchanged when no note has the id; otherwise exactly the note `firstIndex` finds is taken out (multiset minus that note), and putting it back at its index restores the list, so the other notes keep their order |
| NoteList.ReplaceKeepsIndex | ContentView.swift:452-454 | after `notes[index] = updatedNote` with the same id, `firstIndex` still finds that id at the same index and every other id where it was before |
| NoteList.TombstoneKey | ContentView.swift:504 | the tombstone `"userId:noteId"` carries the user's prefix and is one character longer than the two ids together |
| NoteList.TombstoneNoteId | ContentView.swift:542 | `dropFirst(userId.count + 1)` gives a suffix of the entry, all of it after the prefix when the entry has the prefix |
| NoteList.TombstoneRoundTrip | ContentView.swift:540-542 | the tombstone written at line 504 carries the user's prefix, and stripping `userId.count + 1` characters recovers the note id |
| NoteList.TombstoneDecodeEncodes | ContentView.swift:540-542 | an entry with the user's prefix is exactly the encoding of the id it decodes to |
| NoteList.PendingDeletionsExact | ContentView.swift:540-542 | for a user the decoded ids are exactly the note ids of that user's tombstones |
| NoteList.TombstoneOwner | ContentView.swift:540 | when user ids hold no `:`, the prefix test selects a tombstone exactly when it belongs to the user |
| NoteList.TombstoneAmbiguousWithColon | ContentView.swift:540-542 | without that proviso the tombstone of user `a:b` for note `c` is also read as user `a`'s tombstone for note `b:c` |
| ContentView.CompleteDocs | ContentView.swift:333-336 | the documents passing the `guard`: a document is kept exactly when it has all three fields, and all of them are kept when none is missing a field (order and multiplicity: the three rows below) |
| ContentView.CompleteDocsAppend | ContentView.swift:333-336 | the complete documents of two parts of a snapshot are those of the first part followed by those of the second |
| ContentView.CompleteDocsSpec | ContentView.swift:333-336 | snapshot order: for every cut, the complete documents before it come first; a single document is kept exactly when it is complete; together these fix the result |
| ContentView.CompleteDocsCount | ContentView.swift:333-336 | each complete document is kept as many times as the snapshot holds it, each incomplete one not at all |
| ContentView.ParseDocuments | ContentView.swift:331-339 | the `compactMap` is the filter of the complete documents followed by the map to notes: the j-th note has the j-th complete document's id, content, timestamp and pin, is owned by the user and fresh; incomplete documents are skipped |
| ContentView.PendingPushesExact | ContentView.swift:526-534 | a push is pending for a note exactly when the user's cached record of it is marked `needsSync`, and it carries that record's content, timestamp and pin |
| ContentView.PendingDeletesExact | ContentView.swift:540-545 | a remote delete is pending for a note exactly when the user's tombstone for it is in the set |
| ContentView.DeletesForStep | ContentView.swift:541-544 | distinct tombstones of one user give distinct delete requests, so no delete is issued twice |
| ContentView.ApplyFetched | ContentView.swift:346-379 | the upsert of fetched notes never loses a record |
| ContentView.ApplyFetchedUntouched | ContentView.swift:346-379 | the upsert of fetched notes leaves every record that no fetched note addresses (other owners', other ids) as it was |
| ContentView.ApplyFetchedKeys | ContentView.swift:349-368 | the upsert adds the user's record of each fetched note and no other record |
| ContentView.ApplyFetchedLast | ContentView.swift:355-367 | the user's record of a fetched note holds the last fetched version of it |
| ContentView.ApplyFetchedClean | ContentView.swift:359-367 | after the upsert no fetched note's record is marked `needsSync` |
| ContentView.NoteStore.constructor | ContentView.swift:84-93 | the list and search start empty, and the tombstone set is loaded from UserDefaults |
| ContentView.NoteStore.FilteredNotes | ContentView.swift:290-302 | the view's list is ordered (pinned first, newest first) and holds exactly the matching notes with their multiplicities |
| ContentView.NoteStore.SyncNoteToFirebase | ContentView.swift:423-430 | with a signed-in user the document write for the note is issued; without one nothing is |
| ContentView.NoteStore.OnPushCompleted | ContentView.swift:430-447 | on success the document holds the pushed fields and the user's record of the note is no longer `needsSync`; on failure nothing changes |
| ContentView.NoteStore.DeleteNoteFromFirebase | ContentView.swift:509-512 | with a signed-in user the document delete is issued |
| ContentView.NoteStore.OnDeleteCompleted | ContentView.swift:512-520 | on success the document is gone and its tombstone is removed in memory and in UserDefaults; on failure the tombstone set is unchanged |
| ContentView.NoteStore.DeleteUnpinnedNotesFromFirebase | ContentView.swift:553-559 | with a signed-in user the query for the user's unpinned documents is issued |
| ContentView.NoteStore.OnUnpinnedQueryCompleted | ContentView.swift:559-569 | on success the user's unpinned documents are deleted; on success or failure the pending flag reads false afterwards |
| ContentView.NoteStore.OnFetchCompleted | ContentView.swift:320-343 | on success the snapshot replaces the list (no merge) and is upserted into the cache; on failure nothing changes |
| ContentView.NoteStore.AddNote | ContentView.swift:395-421 | no user: nothing changes; otherwise the trimmed note, owned by the user, is cached with `needsSync`, appended to the list only if the save succeeded, and pushed when online |
| ContentView.NoteStore.UpdateNote | ContentView.swift:451-477 | the first note with the id is replaced and no other (no change without one); one cached record with that id is rewritten and marked `needsSync`; a push is issued when online |
| ContentView.NoteStore.TogglePin | ContentView.swift:572-579 | exactly the first note with the id has its pin flipped, all its other fields kept, and goes through `updateNote`; nothing happens without one |
| ContentView.NoteStore.DeleteNote | ContentView.swift:479-507 | no user: nothing changes; otherwise the note leaves the list and the cache; online a remote delete is issued and no tombstone added; offline the tombstone `"userId:noteId"` is added and persisted |
| ContentView.NoteStore.ForgetNote | ContentView.swift:481-496 | the first note with the id leaves the list and the user's record with that id leaves the cache; nothing else changes |
| ContentView.NoteStore.AddTombstone | ContentView.swift:502-505 | offline, the tombstone `"userId:noteId"` joins the set, UserDefaults reads back the new set, and other keys keep their values |
| ContentView.NoteStore.CheckForUnpinnedNotesDeletion | ContentView.swift:708-713 | while a bulk deletion is pending the list keeps only its pinned notes |
| ContentView.NoteStore.SyncPendingChanges | ContentView.swift:523-551 | offline or without a user nothing is issued; otherwise exactly one push per `needsSync` record of the user, one delete per tombstone of the user, and the bulk deletion if its flag is set |
| ContentView.NoteStore.PushRecords | ContentView.swift:529-534 | the first loop issues exactly one push per record it is given, each built with `toNote()` |
| ContentView.NoteStore.DeleteTombstones | ContentView.swift:540-545 | the second loop issues exactly one delete per tombstone it is given, for the id the tombstone decodes to |
| ContentView.NoteStore.ConnectivityChanged | ContentView.swift:107-111 | the store syncs only on a change from offline to online |
| ContentView.NoteStore.FetchNotes | ContentView.swift:309-315 | online, a Firestore fetch is issued and the list is left for its completion; offline, the list is loaded from the cache, and without a user it is left unchanged |
| ContentView.NoteStore.FetchNotesFromCoreData | ContentView.swift:381-393 | the list becomes each of the user's cached records exactly once, converted with `toNote()`, newest first; without a user it is unchanged |
| ContentView.LoadUserRecords | ContentView.swift:383-389 | the fetch sorted by timestamp descending and mapped with `toNote()`: each of the user's records exactly once, newest first |
| ContentView.NoteStore.SyncNotesToCoreData | ContentView.swift:346-379 | with a user, each fetched note is upserted into the user's records in order, not marked `needsSync` |
| SettingsView.WithoutUnpinned | Views/SettingsView.swift:191-197 | a record survives exactly when it is pinned or belongs to another user, and survivors keep their values |
| SettingsView.DeleteUnpinnedNotes | Views/SettingsView.swift:187-217 | no user: nothing changes; otherwise the user's unpinned records leave the cache even if the save fails; only after a successful save does the list keep just its pinned notes, the remote query (online) or the pending flag (offline) follow, and the screen is dismissed |
| SettingsView.DeleteUnpinnedNotesFromFirebase | Views/SettingsView.swift:219-233 | the query for the user's unpinned documents is issued; its completion is `NoteStore.OnUnpinnedQueryCompleted`, which clears the flag whether or not the query failed |
| NoteDetail.ChunkCount | Views/NoteDetailView.swift:158 | the number of strides is the fewest chunks of 1000 covering the content: together they reach its length and one fewer would not |
| NoteDetail.ContentChunks | Views/NoteDetailView.swift:157-161 | there are ceil(n/1000) chunks; every chunk but the last has 1000 characters and the last has 1 to 1000 |
| NoteDetail.ChunksUnfold | Views/NoteDetailView.swift:158-161 | the chunks are the first `min(1000, n)` characters followed by the chunks of the rest |
| NoteDetail.ChunksJoin | Views/NoteDetailView.swift:154-162 | concatenating the chunks in order gives back the content exactly |
| NoteDetail.ChunksEmptyIffContentEmpty | Views/NoteDetailView.swift:158 | empty content gives no chunks and any other content gives at least one |
| NoteDetail.NoteDetailView.constructor | Views/NoteDetailView.swift:20-24 | the editor starts with the note's content, not editing, not saving, loading |
| NoteDetail.NoteDetailView.WordCount | Views/NoteDetailView.swift:235-237 | the count is zero exactly for blank text and equals the number of word ends |
| NoteDetail.NoteDetailView.LoadNoteContent | Views/NoteDetailView.swift:154-172 | the chunks are those of the note's content and concatenate back to it; the editor holds that content; loading is over |
| NoteDetail.NoteDetailView.SaveNote | Views/NoteDetailView.swift:207-218 | ignored while a save is under way; otherwise `onSave` gets the note with the edited text and a new timestamp exactly when the text differs, and the note is left unchanged when it does not |
| NoteDetail.NoteDetailView.SaveFinished | Views/NoteDetailView.swift:220-226 | editing and saving end and the content is reloaded from the note |
| NoteDetail.NoteDetailView.EditTapped | Views/NoteDetailView.swift:174-187 | disabled while editing and saving; in editing mode it saves as `saveNote` does; otherwise it only enters editing mode |
| NoteDetail.NoteDetailView.CancelEdit | Views/NoteDetailView.swift:253-258 | editing ends and the editor text is restored to the note's content |
| NoteDetail.NoteDetailView.CancelTapped | Views/NoteDetailView.swift:239-251 | with unsaved changes the alert is raised and the edits kept; without them the edit is cancelled |
| NoteDetail.NoteDetailView.Disappeared | Views/NoteDetailView.swift:91-95 | leaving the screen while editing raises the alert |
| NoteDetail.NoteDetailView.AlertSave | Views/NoteDetailView.swift:122-125 | the alert's Save saves as `saveNote` does and navigates back |
| NoteDetail.NoteDetailView.AlertDiscard | Views/NoteDetailView.swift:126-128 | the alert's Discard navigates back and saves nothing |
| NoteDetail.NewNote | Views/NoteDetailView.swift:387 | the saved note has a fresh id, the time of saving, the user's uid or `""`, the trimmed text (itself already trimmed), and the struct's defaults |
| NoteDetail.NoteEditView.constructor | Views/NoteDetailView.swift:285-290 | the editor starts with the given content and has saved nothing |
| NoteDetail.NoteEditView.WordCount | Views/NoteDetailView.swift:408-410 | the count is zero exactly for blank text and equals the number of word ends |
| NoteDetail.NoteEditView.Paste | Views/NoteDetailView.swift:363-368 | the clipboard text, if any, is appended, so the old text is a prefix of the new |
| NoteDetail.NoteEditView.SaveTapped | Views/NoteDetailView.swift:385-406 | empty text: nothing (the button is disabled); otherwise `onSave` gets a new note with the trimmed text and the editor is dismissed |
| NoteEdit.EditedNote | Views/NoteEditView.swift:144-154 | an edit save hands back the existing note itself when the trimmed text equals its content, otherwise a copy with the trimmed text and a new timestamp; the id, pin and owner are always kept |
| NoteEdit.EditedNoteStable | Views/NoteEditView.swift:145-154 | saving the same text again hands back the same note, timestamp included |
| NoteEdit.BlankTextSavesEmptyNote | Views/NoteEditView.swift:140-165 | the button is disabled only for empty text, so whitespace-only text is saved as a note with empty content |
| NoteEdit.NoteEditView.constructor | Views/NoteEditView.swift:22-28 | the editor starts with the given mode, content and existing note |
| NoteEdit.NoteEditView.WordCount | Views/NoteEditView.swift:168-170 | the count is zero exactly for blank text and equals the number of word ends |
| NoteEdit.NoteEditView.Paste | Views/NoteEditView.swift:122-126 | the clipboard text, if any, is appended, so the old text is a prefix of the new |
| NoteEdit.NoteEditView.SaveTapped | Views/NoteEditView.swift:138-166 | empty text or a hidden editor: nothing; add mode: a new note with the trimmed text goes to `onSave` and becomes the current note (the screen then shows its detail view); edit mode: `EditedNote` of the current note goes to `onSave`, and nothing happens without a current note |

## Left out

- Firestore, Core Data and UserDefaults are maps in the model. Their SDK calls, threading and notification observers are not modelled.
  - Core Data fetches are assumed to succeed. The `catch` branches taken when a fetch throws are not modelled: in `syncNotesToCoreData` (ContentView.swift:354/369, the note is skipped), `fetchNotesFromCoreData` (388/390, the list is unchanged), the push completion (439/444, `needsSync` stays set), `updateNote` (461/469) and `deleteNote` (490/495, the record is left as it was), `syncPendingChanges` (530/535, no pushes are issued while the tombstone deletes and the bulk delete still go out) and `deleteUnpinnedNotes` (Views/SettingsView.swift:195/214, nothing is deleted and the screen stays).
  - A Core Data save that throws is modelled where the code branches on it (the `saveOk` inputs).
  - Core Data keeps pending inserts and deletions after a failed save, so the cache change stands.
- NoteStore.OnFetchCompleted: a failed fetch and a nil snapshot both leave everything unchanged, so they are one case. The separate `fetchNotesFromFirebase(completion:)` used by pull-to-refresh and its `refreshNotes` caller are not part of this model.
- NoteStore.OnUnpinnedQueryCompleted: the remote deletes the query starts are applied at once. Their own completions are ignored by the app and not modelled.
- NoteStore.AddNote: the cache is keyed by id and owner, so adding a note whose id is already cached overwrites the record instead of inserting a second one.
- NoteStore.UpdateNote: the record rewritten is some cached record with the id (the fetch has no sort order), so which owner's record it is stays unspecified.
- The record's derived `syncStateEnum` is not part of this model; it is a parameter (`stateOf`, or the `syncState` argument of `ToNote`). No code shown moves a note between sync states.
- NoteList.SortNotes: Swift's sort is not guaranteed to be stable. The model fixes one order among notes with the same pin state and timestamp, and its contract states only ordering and permutation.
- NoteStore.FetchNotesFromCoreData: Core Data's sort descriptor is modelled as a loop that repeatedly takes the newest remaining record. Ties are broken arbitrarily, as in the source.
- Orderings the model takes from the code:
  - The comparator orders pinned notes newest first, so A (pinned, ts 1), B (unpinned, ts 5) and C (pinned, ts 3) sort as [C, A, B].
  - `fetchNotesFromCoreData` sorts by timestamp alone. The pinned-first order comes only from `filteredNotes`.
  - Swift's `sorted` is not guaranteed to be stable, so no order among ties is promised.
- Text: characters are Unicode scalar values, not Swift `Character`s, so grapheme clustering (in counts, offsets and chunk boundaries) is not modelled. Whitespace is the `.whitespacesAndNewlines` set listed in `Text.IsWhitespace`. Lowercasing maps ASCII letters only; full Unicode case mapping is not modelled.
- Components.BoolForKey: `bool(forKey:)` is true only for a stored boolean true. Its conversion of numbers and strings is not modelled.
- The detail view's dispatch to a background queue and back is collapsed into one step of `LoadNoteContent`. The reload triggered by `onChange(of: note)` after a save gives the same state as `SaveFinished`'s reload and is not modelled separately.
- NoteDetail.NoteEditView: the older editor's save ignores its mode (the mode only picks the title), so the model has no mode.
- Sign-in and sign-out, profile image loading, the delete confirmation alert, the clipboard-to-new-note flow, the copy button, dates as text, animations and layout are UI or vendor plumbing and are not modelled.
- Time (`Date()`) and fresh UUIDs are parameters (`now`, `freshId`).
- `Note.timestamp` is a `Date` (a floating-point count of seconds) in the source and an `int` in the model. Only its order and equality matter to the logic modelled, so sub-second precision and floating-point rounding are not modelled.
