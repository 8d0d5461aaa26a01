# WriteNow notes: a Dafny model of the note store and its controller

WriteNow is a note-taking widget that runs in the browser. `js/main.js` holds its logic in three classes:

- `NotesAPI` stores an ordered list of notes as JSON under one local-storage key. It creates, edits and deletes those notes.
- `NotesView` renders the notes.
- `App` holds the loaded list and the active note. Its add, edit, delete and clear handlers call `NotesAPI` and then reload the list. Its select handler only picks a note from the loaded list.

This project models `NotesAPI` and `App`.

- `notes.dfy`, module `Notes`. It defines the `Note` record and the `Draft` that `saveNote` receives. It also holds the pure parts of the logic, each followed by lemmas:
  - looking a note up by id (`find`);
  - removing the notes with a given id (`filter`);
  - the list `saveNote` writes back (`Saved`);
  - the choice of active note after a reload (`NextActive`).
- `store.dfy`, module `NotesApi`. The class `NotesStore` has one field, `entry: Option<seq<Note>>`. It stands for the local-storage entry: `None` means the key is absent. The class has `GetAllNotes`, `SaveNote`, `DeleteNote` and `DeleteAllNotes`. The mutating methods say what the entry holds afterwards.
- `app.dfy`, module `Controller`. The class `App` has the fields `notes` and `activeNote` and a constant reference to the store. It has `_refreshNotes`, `_setNotes`, `_setActiveNote` and the five handlers. `Synced()` says that `notes` equals the stored list, and that while that list is non-empty the active note, if any, is in it. The constructor and every handler that reloads establish it. `OnNoteSelect`, and an `OnNoteEdit` that throws, keep it when it held before.

The two external inputs become parameters:

- the random id from `Math.floor(Math.random() * 1000000)` is `freshId`, with `0 <= freshId < 1000000`;
- the clock reading from `new Date()` is the integer `now`.

Ids are integers throughout. The source compares them with loose `==` because the view passes `dataset` strings.

Points where the code behaves in ways a reader might not expect:

- Ids are not guaranteed unique. A fresh id is never checked against the ids in use. Uniqueness is proved only on condition that the fresh id is unused (`SaveUnique`, `NotesStore.SaveNote`, `App.OnNoteAdd`). `SaveCollisionShadows` shows what a collision does: the new note is hidden behind the older note with the same id.
- When the active note's id is gone after a reload, `find` returns `undefined` and no note is active (main.js:158). The code never falls back to the last note. See `NextActiveFollowsId`, `DeleteActiveLeavesNone` and `DeleteMiddleScenario`: with notes 1, 2, 3 and note 2 active, deleting note 2 leaves no note active.
- The code does not touch `activeNote` when the reloaded list is empty (main.js:156), so after `onNotesClear` the old active note remains. If that note is then edited, a new note is created under the fresh id. When the fresh id differs from the old note's id, the next reload leaves no note active (`EditVanishedNote`); when it happens to equal it, the new note becomes active.
- Malformed stored data makes `JSON.parse` throw. The model has no stored text at all, so it claims nothing about that case.
- `onNoteEdit` with no active note throws a `TypeError` when it reads `this.activeNote.id`, before anything changes. `App.OnNoteEdit` reports this case through its result `thrown` and changes nothing.

## Model

| member | source | states |
|---|---|---|
| `Notes.FindIndex` | js/main.js:12 | The result is the index of the first note whose id matches, with no match before it. It is none exactly when no note carries the id. |
| `Notes.Find` | js/main.js:12 | The note found is in the list and carries the id. It is none exactly when the id is not in use. |
| `Notes.FindFirst` | js/main.js:12 | `find` returns the first note whose id matches. |
| `Notes.FindUnique` | js/main.js:179 | When ids are unique, looking up a note's id returns that note. |
| `Notes.Without` | js/main.js:29 | No note left by `filter` carries the deleted id, and the list does not grow. |
| `Notes.WithoutOccurrences` | js/main.js:29 | Every copy of a note with the id is removed. Every other note keeps its number of occurrences. |
| `Notes.WithoutConcat` | js/main.js:29 | Filtering a concatenation is concatenating the filtered parts. So the kept notes stay in their relative order. |
| `Notes.WithoutSingle` | js/main.js:29 | A single note is kept exactly when its id differs from the deleted id. |
| `Notes.WithoutAbsent` | js/main.js:27-31 | Deleting an id that no note carries leaves the list unchanged. |
| `Notes.WithoutIdempotent` | js/main.js:27-31 | Deleting the same id twice gives the same list as deleting it once. |
| `Notes.WithoutIds` | js/main.js:29 | The ids left after a delete are the previous ids minus the deleted one. |
| `Notes.WithoutUnique` | js/main.js:27-31 | A delete keeps ids unique. |
| `Notes.MatchIndex` | js/main.js:11-12 | The first stored note matching the draft's id, and none exactly for a draft without an id or with an id no note carries. |
| `Notes.Saved` | js/main.js:11-23 | The list saveNote writes back. It has the same length when the draft's id is stored and one more note otherwise. Every stored note keeps its id and `created`. Some note carries the draft's title and body. |
| `Notes.SaveExisting` | js/main.js:12-17 | When a note matches the draft's id, only the first match changes, and only in its title, body and `updated := now`. Its id, its `created`, the length, the order and every other note are unchanged. |
| `Notes.SaveNew` | js/main.js:18-23 | When no note matches, exactly one note is appended at the end. It carries `freshId`, the draft's title and body, and `created == updated == now`. The earlier notes are unchanged. |
| `Notes.SaveUnique` | js/main.js:18-23 | If ids were unique and the fresh id is unused, ids stay unique after a save. |
| `Notes.SaveTimestamped` | js/main.js:17 | If the clock is not earlier than any note's creation, no note ends up updated before it was created. |
| `Notes.SaveThenFind` | js/main.js:10-24 | After a save, looking up the saved note's id finds the draft's title and body, updated at `now`. This holds when the saved note is the first with that id: an edit, or a creation with an unused fresh id. |
| `Notes.SaveCollisionShadows` | js/main.js:19 | A creation whose fresh id is already in use breaks uniqueness. Looking up that id still finds the older note. |
| `Notes.NextActive` | js/main.js:156-161 | After a reload of a non-empty list, the active note is one of the reloaded notes, or none. |
| `Notes.NextActiveFollowsId` | js/main.js:157-158 | With a previous active note, the new active note is the first note with the same id. It is none exactly when that id is gone. It never falls back to the last note. |
| `Notes.DeleteActiveLeavesNone` | js/main.js:200-202 | Deleting the active note while other notes remain leaves no active note. |
| `Notes.DeleteOtherKeepsActive` | js/main.js:200-202 | With unique ids, deleting another note keeps the active note. |
| `Notes.EditVanishedNote` | js/main.js:191-198 | Editing an active note whose id is no longer stored appends a new note with the fresh id. When the fresh id differs from the old note's id, the reload then leaves no active note. |
| `Notes.DeleteMiddleScenario` | js/main.js:200-202 | Ids 1, 2, 3 with note 2 active: deleting note 2 leaves notes 1 and 3 and no active note. |
| `NotesApi.NotesStore.GetAllNotes` | js/main.js:6-9 | Returns the stored list, or the empty list when the key is absent. |
| `NotesApi.NotesStore.SaveNote` | js/main.js:10-25 | The entry becomes the list `Saved` gives: an in-place edit of the first match, or an append. If the fresh id is unused, ids stay unique. |
| `NotesApi.NotesStore.DeleteNote` | js/main.js:27-31 | The entry becomes the old list without the id, and no stored note carries it. An absent id leaves the list unchanged. |
| `NotesApi.NotesStore.DeleteAllNotes` | js/main.js:32-34 | The key is absent afterwards, so `getAllNotes` reads the empty list. |
| `Controller.App.constructor` | js/main.js:145-150 | Starts with no active note and refreshes. The loaded list is the stored one, and its last note, if any, is active. |
| `Controller.App.RefreshNotes` | js/main.js:152-163 | `notes` becomes the stored list. An empty list keeps the previous active note. With no previous active note, the last note becomes active. Otherwise the active note is looked up by id. `Synced()` holds afterwards. |
| `Controller.App.SetNotes` | js/main.js:165-169 | Replaces the loaded list and nothing else. |
| `Controller.App.SetActiveNote` | js/main.js:171-174 | Replaces the active note and nothing else. |
| `Controller.App.OnNoteSelect` | js/main.js:178-181 | The first loaded note with the id becomes active, or none if there is no such note. The store and `notes` are unchanged. |
| `Controller.App.OnNoteAdd` | js/main.js:182-190 | A blank note with `freshId` and `now` is appended, the count grows by one, and the new note is active. If the fresh id was unused, ids stay unique. |
| `Controller.App.OnNoteEdit` | js/main.js:191-199 | It throws exactly when no note is active, and then nothing changes. Otherwise the store becomes the save of the new text under the active id. If that id is stored, the count is unchanged and the active note keeps its id with the new title, body and `updated == now`. |
| `Controller.App.OnNoteDelete` | js/main.js:200-203 | The store loses every note with the id, and the reloaded list has none. If the deleted note was active and others remain, no note is active. |
| `Controller.App.OnNotesClear` | js/main.js:204-207 | The key is absent and the list is empty. The active note is left as it was. |

## Left out

- `NotesView` (js/main.js:38-141): DOM templating, event listeners, `confirm` dialogs and visibility toggling. This includes the 60-character body truncation in the list markup, and the calls to the view from `_setNotes` and `_setActiveNote`.
- The `TypeError` that `updateActiveNote` raises when handed `undefined` (js/main.js:127). This is view behaviour. `SetActiveNote` is only the field assignment.
- `JSON.parse`, `JSON.stringify` and `localStorage` itself. The stored text is modelled by the list it encodes. So malformed stored data is out of scope, and so is an empty-string entry, which the source reads as `[]`.
- `NotesApi.NotesStore.DeleteAllNotes`: `localStorage.clear()` removes every key of the page's origin. The model has only the notes key, so it says nothing about other keys.
- `Notes.SaveNew`: `created` and `updated` come from two separate `new Date()` calls (js/main.js:20-21), which can differ by a clock tick. The model reads the clock once, as `now`, for both, so it states `created == updated` where the source only gives `created <= updated` up to clock order.
- `Math.random` and floating point: the resulting id is the parameter `freshId`.
- `new Date().toISOString()` and locale formatting: a timestamp is the integer `now`. ISO-8601 strings and their ordering are not modelled.
- Loose `==` between a `dataset` string and a numeric id: ids are integers on both sides.
- The global bootstrap (js/main.js:212-213).
