/**
 * The `App` component's state and its handlers: the list of notes and the
 * id of the selected note, changed only through the handlers below. Each
 * React state setter is modelled as an immediate field assignment.
 */
module NotesApp {
  import opened Wrappers
  import opened NoteStore

  /**
   * The callback `updateNote` hands to `setNotes`: walk the old notes in
   * order, `unshift` the one with `currentId` (with its body replaced by
   * `text`) and `push` every other one.
   */
  method Reorder(oldNotes: seq<Note>, currentId: string, text: string)
    returns (newNotes: seq<Note>)
    ensures newNotes == Updated(oldNotes, currentId, text)
  {
    newNotes := [];
    for i := 0 to |oldNotes|
      invariant newNotes == Edited(oldNotes[..i], currentId, text) + Without(oldNotes[..i], currentId)
    {
      var oldNote := oldNotes[i];
      assert Init(oldNotes[..i + 1]) == oldNotes[..i];
      assert Last(oldNotes[..i + 1]) == oldNote;
      if oldNote.id == currentId {
        newNotes := [oldNote.(body := text)] + newNotes;
      } else {
        newNotes := newNotes + [oldNote];
      }
    }
    assert oldNotes[..|oldNotes|] == oldNotes;
  }

  class App {
    var notes: seq<Note>
    var currentNoteId: string

    /**
     * Start-up: `stored` is what was parsed from local storage, `None` when
     * nothing was stored; the first note, if any, is selected.
     */
    constructor (stored: Option<seq<Note>>)
      ensures notes == stored.GetOr([])
      ensures stored.None? ==> notes == []
      ensures currentNoteId == if notes == [] then "" else notes[0].id
    {
      notes := stored.GetOr([]);
      currentNoteId := InitialNoteId(stored.GetOr([]));
    }

    /** The note the sidebar highlights and the editor shows. */
    function CurrentNote(): (r: Option<Note>)
      reads this
      ensures r.None? <==> notes == []
      ensures r.Some? ==> r.value in notes
      ensures HasId(notes, currentNoteId) ==> r.Some? && r.value.id == currentNoteId
    {
      FindCurrentNote(notes, currentNoteId)
    }

    /**
     * A new note with the placeholder body goes to the front and becomes
     * the selection; `newId` stands for what `nanoid()` generates, which
     * no note already has.
     */
    method CreateNewNote(newId: string)
      requires !HasId(notes, newId)
      modifies this
      ensures notes == [Note(newId, Placeholder)] + old(notes)
      ensures currentNoteId == newId
      ensures CurrentNote() == Some(Note(newId, Placeholder))
      ensures UniqueIds(old(notes)) ==> UniqueIds(notes)
    {
      var newNote := Note(newId, Placeholder);
      if UniqueIds(notes) {
        UniqueCons(newNote, notes);
      }
      notes := [newNote] + notes;
      currentNoteId := newNote.id;
    }

    /**
     * The editor's change handler: the selected note gets body `text` and
     * moves to the front; the selection itself does not change.
     */
    method UpdateNote(text: string)
      modifies this
      ensures notes == Updated(old(notes), currentNoteId, text)
      ensures currentNoteId == old(currentNoteId)
      ensures |notes| == |old(notes)|
      ensures Without(notes, currentNoteId) == Without(old(notes), currentNoteId)
      ensures !HasId(old(notes), currentNoteId) ==> notes == old(notes)
      ensures UniqueIds(old(notes)) ==> UniqueIds(notes)
      ensures UniqueIds(old(notes)) && HasId(old(notes), currentNoteId) ==>
                notes[0] == Note(currentNoteId, text) && CurrentNote() == Some(notes[0])
    {
      ghost var before := notes;
      notes := Reorder(notes, currentNoteId, text);
      UpdateKeepsIds(before, currentNoteId, text);
      UpdateKeepsOthers(before, currentNoteId, text);
      if UniqueIds(before) {
        UpdateKeepsUnique(before, currentNoteId, text);
        if HasId(before, currentNoteId) {
          var k :| 0 <= k < |before| && before[k].id == currentNoteId;
          UpdateMovesToFront(before, k, text);
        }
      }
      if !HasId(before, currentNoteId) {
        UpdateAbsentIsIdentity(before, currentNoteId, text);
      }
    }

    /** The sidebar's delete button: drop every note with `noteId`. */
    method DeleteNote(noteId: string)
      modifies this
      ensures notes == Without(old(notes), noteId)
      ensures !HasId(notes, noteId)
      ensures currentNoteId == old(currentNoteId)
      ensures UniqueIds(old(notes)) ==> UniqueIds(notes)
    {
      WithoutRemovesId(notes, noteId);
      if UniqueIds(notes) {
        WithoutKeepsUnique(notes, noteId);
      }
      notes := Without(notes, noteId);
    }

    /** The setter the sidebar calls when a note is clicked. */
    method SelectNote(id: string)
      modifies this
      ensures currentNoteId == id && notes == old(notes)
    {
      currentNoteId := id;
    }
  }

  /**
   * A session: two notes created, the selected one edited, then deleted;
   * the selection falls back to the remaining note.
   */
  method Session(a: string, b: string)
    requires a != b
  {
    var app := new App(None);
    assert app.notes == [] && app.currentNoteId == "";
    app.CreateNewNote(a);
    app.CreateNewNote(b);
    assert app.notes == [Note(b, Placeholder), Note(a, Placeholder)];
    assert app.CurrentNote() == Some(Note(b, Placeholder));
    app.UpdateNote("hello");
    assert app.notes == [Note(b, "hello"), Note(a, Placeholder)];
    app.DeleteNote(b);
    assert app.notes == [Note(a, Placeholder)];
    assert app.currentNoteId == b;
    assert app.CurrentNote() == Some(Note(a, Placeholder));
  }
}
