/** App: the controller that holds the loaded note list and the active note, forwards each user
    intent to the store and then reloads everything from it. Rendering calls into the view are
    not part of this model. */
module Controller {
  import opened Notes
  import opened NotesApi

  class App {
    /** The note store every handler writes through (NotesAPI is a single static store). */
    const store: NotesStore
    /** The list as last loaded from the store. */
    var notes: seq<Note>
    /** The active note; None stands for both null and undefined. */
    var activeNote: Option<Note>

    /** The state every handler leaves behind: the list is what the store holds, and while it is
        non-empty the active note, if any, is one of its notes. */
    predicate Synced()
      reads this, store
    {
      notes == store.Contents() && (notes != [] && activeNote.Some? ==> activeNote.value in notes)
    }

    /** The constructor starts with no notes and no active note and refreshes: the last stored
        note becomes active. */
    constructor (s: NotesStore)
      ensures store == s && notes == s.Contents()
      ensures activeNote == if notes == [] then None else Some(notes[|notes| - 1])
      ensures Synced()
    {
      store := s;
      notes := [];
      activeNote := None;
      new;
      RefreshNotes();
    }

    /** _refreshNotes: reloads the list and re-derives the active note from it. */
    method RefreshNotes()
      modifies this
      ensures notes == store.Contents()
      ensures activeNote == NextActive(notes, old(activeNote))
      ensures notes == [] ==> activeNote == old(activeNote)
      ensures notes != [] && old(activeNote).None? ==> activeNote == Some(notes[|notes| - 1])
      ensures Synced()
    {
      var loaded := store.GetAllNotes();
      SetNotes(loaded);
      if |loaded| > 0 {
        if activeNote.Some? {
          SetActiveNote(Find(loaded, activeNote.value.id));
        } else {
          SetActiveNote(Some(loaded[|loaded| - 1]));
        }
      }
    }

    /** _setNotes: replaces the loaded list. */
    method SetNotes(loaded: seq<Note>)
      modifies this`notes
      ensures notes == loaded
    {
      notes := loaded;
    }

    /** _setActiveNote: replaces the active note. */
    method SetActiveNote(note: Option<Note>)
      modifies this`activeNote
      ensures activeNote == note
    {
      activeNote := note;
    }

    /** onNoteSelect: the first loaded note with the id becomes active, or none when there is no such
        note; neither the store nor the loaded list changes. */
    method OnNoteSelect(id: int)
      modifies this`activeNote
      ensures activeNote == Find(notes, id)
      ensures activeNote.Some? <==> id in Ids(notes)
      ensures activeNote.Some? ==> activeNote.value in notes && activeNote.value.id == id
      ensures old(Synced()) ==> Synced()
    {
      var selected := Find(notes, id);
      SetActiveNote(selected);
    }

    /** onNoteAdd: a blank note with the fresh id is appended and, after the reload, is active. */
    method OnNoteAdd(freshId: int, now: int)
      requires 0 <= freshId < IdBound
      modifies this, store
      ensures store.Contents() == old(store.Contents()) + [Note(freshId, "", "", now, now)]
      ensures notes == store.Contents() && |notes| == |old(store.Contents())| + 1
      ensures activeNote == Some(notes[|notes| - 1])
      ensures UniqueIds(old(store.Contents())) && freshId !in Ids(old(store.Contents())) ==>
        UniqueIds(notes)
      ensures Synced()
    {
      var newNote := Draft(None, "", "");
      activeNote := None;
      store.SaveNote(newNote, freshId, now);
      RefreshNotes();
    }

    /** onNoteEdit: saves the new title and body under the active note's id and reloads. Reading
        the id of a missing active note throws a TypeError before anything happens; `thrown`
        reports that case, in which nothing changes. */
    method OnNoteEdit(newTitle: string, newBody: string, freshId: int, now: int)
      returns (thrown: bool)
      requires 0 <= freshId < IdBound
      modifies this, store
      ensures thrown <==> old(activeNote).None?
      ensures thrown ==>
        store.entry == old(store.entry) && notes == old(notes) && activeNote == old(activeNote)
      ensures !thrown ==>
        var draft := Draft(Some(old(activeNote).value.id), newTitle, newBody);
        store.Contents() == Saved(old(store.Contents()), draft, freshId, now)
      ensures !thrown ==> notes == store.Contents() && activeNote == NextActive(notes, old(activeNote))
      ensures !thrown && old(activeNote).value.id in Ids(old(store.Contents())) ==>
        |notes| == |old(store.Contents())| && activeNote.Some? &&
        activeNote.value.id == old(activeNote).value.id &&
        activeNote.value.title == newTitle && activeNote.value.body == newBody &&
        activeNote.value.updated == now
      ensures old(Synced()) ==> Synced()
    {
      if activeNote.None? {
        return true;
      }
      var editedNote := Draft(Some(activeNote.value.id), newTitle, newBody);
      ghost var before := store.Contents();
      store.SaveNote(editedNote, freshId, now);
      RefreshNotes();
      if editedNote.id.value in Ids(before) {
        SaveExisting(before, editedNote, freshId, now, FindIndex(before, editedNote.id.value).value);
        SaveThenFind(before, editedNote, freshId, now);
      }
      thrown := false;
    }

    /** onNoteDelete: every note with the id is removed and the list reloaded; when the deleted note
        was active and other notes remain, no note is active afterwards. */
    method OnNoteDelete(id: int)
      modifies this, store
      ensures store.Contents() == Without(old(store.Contents()), id)
      ensures notes == store.Contents() && id !in Ids(notes)
      ensures activeNote == NextActive(notes, old(activeNote))
      ensures old(activeNote).Some? && old(activeNote).value.id == id && notes != [] ==>
        activeNote.None?
      ensures Synced()
    {
      store.DeleteNote(id);
      RefreshNotes();
    }

    /** onNotesClear: the store is cleared and the list reloaded as empty; the active note is left
        as it was, so it may name a note that no longer exists. */
    method OnNotesClear()
      modifies this, store
      ensures store.entry.None? && notes == []
      ensures activeNote == old(activeNote)
      ensures Synced()
    {
      store.DeleteAllNotes();
      RefreshNotes();
    }
  }
}
