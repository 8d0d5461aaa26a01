/** NotesAPI: the note store behind one key of the browser's local storage. The stored JSON text is
    modelled by the list it encodes; an absent key is None. */
module NotesApi {
  import opened Notes

  class NotesStore {
    /** The entry under the application's storage key, when there is one. */
    var entry: Option<seq<Note>>

    /** The list getAllNotes decodes: an absent key reads as the empty list. */
    function Contents(): seq<Note>
      reads this
    {
      match entry
      case None => []
      case Some(notes) => notes
    }

    constructor (initial: Option<seq<Note>>)
      ensures entry == initial
    {
      entry := initial;
    }

    /** getAllNotes: the stored list, in storage order, or the empty list when nothing is stored. */
    method GetAllNotes() returns (notes: seq<Note>)
      ensures notes == Contents()
      ensures entry.None? ==> notes == []
    {
      match entry
      case None =>
        notes := [];
      case Some(stored) =>
        notes := stored;
    }

    /** saveNote: updates the first note with the draft's id in place, or appends a new note with
        the fresh id; the whole list is written back. */
    method SaveNote(draft: Draft, freshId: int, now: int)
      requires 0 <= freshId < IdBound
      modifies this
      ensures entry == Some(Saved(old(Contents()), draft, freshId, now))
      ensures UniqueIds(old(Contents())) && freshId !in Ids(old(Contents())) ==> UniqueIds(Contents())
    {
      var notes := GetAllNotes();
      var existing := if draft.id.Some? then FindIndex(notes, draft.id.value) else None;
      if existing.Some? {
        var i := existing.value;
        notes := notes[i := notes[i].(title := draft.title, body := draft.body, updated := now)];
      } else {
        notes := notes + [Note(freshId, draft.title, draft.body, now, now)];
      }
      if UniqueIds(old(Contents())) && freshId !in Ids(old(Contents())) {
        SaveUnique(old(Contents()), draft, freshId, now);
      }
      entry := Some(notes);
    }

    /** deleteNote: writes back the list without the notes carrying `id` (an empty list when the key
        was absent). */
    method DeleteNote(id: int)
      modifies this
      ensures entry == Some(Without(old(Contents()), id))
      ensures id !in Ids(Contents())
      ensures id !in Ids(old(Contents())) ==> Contents() == old(Contents())
    {
      var notes := GetAllNotes();
      if id !in Ids(notes) {
        WithoutAbsent(notes, id);
      }
      entry := Some(Without(notes, id));
    }

    /** deleteAllNotes: local storage is cleared, so the key is absent afterwards. */
    method DeleteAllNotes()
      modifies this
      ensures entry.None? && Contents() == []
    {
      entry := None;
    }
  }
}
