# Notes app: the note collection of the `App` component

The notes app keeps an ordered list of markdown notes, each an `{id, body}`
record, and the id of the currently selected note. Its only component, `App`
in `src/App.js`, changes that state through four handlers: create a note
(prepended and selected), update the selected note's body (it moves to the
front and the others keep their order), delete a note by id, and select a
note. A selection rule picks the note to show: the first note with the
selected id, else the first note, else nothing. At start-up the notes come
from local storage and the first one is selected.

This project models that logic in Dafny:

- `wrappers.dfy`: module `Wrappers`, an `Option` type.
- `note_store.dfy`: module `NoteStore`, the `Note` record, the placeholder
  body, and the pure list transformations as functions. The delete filter is
  `Without`. The update loop's result is `Updated`, which is `Edited`
  followed by `Without`. `Edited` holds the matching notes with the new body,
  the last one met first. The selection rule is `FindCurrentNote`. Lemmas
  state what these functions guarantee.
- `app.dfy`: module `NotesApp`. The class `App` holds the fields `notes` and
  `currentNoteId`, and its methods are the handlers. Each React state setter
  is an immediate field assignment. The `for` loop of `updateNote` is the
  method `Reorder`. It works on a local sequence with `unshift` and `push`,
  and is proved against `Updated`. `Session` is a client that walks a
  create, create, edit, delete session. Its asserts follow from the methods'
  contracts alone.

Unique ids are not a class invariant, because the source never checks the
ids it loads from storage. Instead, every handler proves that unique ids
before the call means unique ids after it. The update lemmas that need
unique ids say so in their `requires`. `nanoid()` is a caller-supplied id
that no note has yet. The create handler states this freshness as its
precondition.

`JSON.parse` at `src/App.js:14` has no `try`, so malformed stored data
throws. The model starts from already parsed data (`None` when nothing is
stored) and leaves malformed JSON out.

The model also shows how the handlers behave once the selected note is
deleted. Deleting does not change `currentNoteId`, so the id it holds no
longer names a note. The editor still shows a note, because the selection
falls back to the first note. But every edit then matches no note and is
dropped (`DeletedSelectionDropsEdits`). The model keeps this behaviour as
the code has it.

## Model

| member | source | states |
|---|---|---|
| `NotesApp.App.constructor` | src/App.js:10-18 | no stored entry gives an empty list; otherwise the stored notes are kept; the selection is the first note's id, or `""` for an empty list |
| `NoteStore.InitialNoteId` | src/App.js:16-18 | `(notes[0] && notes[0].id) \|\| ""` is `""` for an empty list and the first note's id otherwise, whatever that id is, including `""` |
| `NoteStore.InitialSelectionShowsFirst` | src/App.js:16-18 | the initial selection shows the first loaded note, or nothing when no notes were loaded |
| `NotesApp.App.CreateNewNote` | src/App.js:20-27 | given a fresh id, the list becomes `[Note(id, placeholder)] + old list`; the new id is selected; the selection shows the new note; unique ids stay unique |
| `NoteStore.UniqueCons` | src/App.js:25 | putting a note with a fresh id in front of a list with unique ids keeps the ids unique |
| `NoteStore.Edited` | src/App.js:42-43 | the notes the loop `unshift`s: its own contract is only a length bound; `EditedMembers`, `EditedAppend`, `EditedAbsent` and `EditedUniqueAt` characterise it |
| `NoteStore.Updated` | src/App.js:36-50 | the list the update loop returns, the unshifted matches followed by the pushed notes; its contract says the length is that of the input; the update lemmas below characterise it |
| `NoteStore.SplitLength` | src/App.js:39-47 | each old note is either unshifted or pushed, so the two parts' lengths add up to the input's length |
| `NotesApp.Reorder` | src/App.js:36-50 | the loop that `unshift`s the matching note and `push`es the others builds exactly `Updated(old, currentId, text)`, for any ids |
| `NotesApp.App.UpdateNote` | src/App.js:29-51 | the list becomes `Updated(old, currentNoteId, text)`; the selection is unchanged; the length is kept; the other notes keep their order and bodies; an absent id changes nothing; unique ids stay unique; with unique ids and the id present, index 0 holds `Note(currentNoteId, text)` and the selection shows it |
| `NoteStore.UpdateMovesToFront` | src/App.js:36-50 | with unique ids and the current note at index k, the result is `[Note(id, text)] + notes[..k] + notes[k+1..]`: the edited note comes first, then the old list without it, in its old order |
| `NoteStore.UpdateAbsentIsIdentity` | src/App.js:39-49 | when no note has the current id, the result equals the input element by element |
| `NoteStore.SplitKeepsIds` | src/App.js:39-47 | every old note goes to exactly one of the two parts (the unshifted matches or the pushed others), so the two parts' ids together are the old ids as a multiset |
| `NoteStore.UpdateKeepsIds` | src/App.js:39-47 | update keeps the multiset of ids and the length, for any ids |
| `NoteStore.UpdateKeepsOthers` | src/App.js:44-45 | the notes whose id is not the current one are the same notes, in the same order, before and after update |
| `NoteStore.UpdateKeepsUnique` | src/App.js:36-50 | update keeps unique ids unique |
| `NoteStore.UpdateReversesDuplicates` | src/App.js:39-47 | in any list where exactly two notes `a` and `b` (in that order) have the current id, both get the new body and come first in reverse order (`b`, then `a`); every other note keeps its order |
| `NoteStore.EditedMembers` | src/App.js:42-43 | every unshifted note has the current id and the new body `text` |
| `NoteStore.EditedAppend` | src/App.js:39-47 | the matches of a later part of the list are unshifted in front of the matches of an earlier part |
| `NoteStore.EditedAbsent` | src/App.js:42-43 | nothing is unshifted when no note has the current id |
| `NoteStore.EditedUniqueAt` | src/App.js:39-47 | with unique ids, exactly the note at the matching index is unshifted, with the new body |
| `NotesApp.App.DeleteNote` | src/App.js:60-66 | the list becomes the old list filtered by `id != noteId`; no note with `noteId` remains; the selection is unchanged; unique ids stay unique |
| `NoteStore.Without` | src/App.js:64 | the filter of `deleteNote`: its own contract is only a length bound; `WithoutMembers`, `WithoutAppend`, `WithoutAbsent`, `WithoutUniqueAt` and `DeleteRemovesAtMostOne` characterise it |
| `NoteStore.WithoutMembers` | src/App.js:64 | a note survives the filter exactly when it was in the list and its id is not `noteId` |
| `NoteStore.WithoutRemovesId` | src/App.js:64 | no note with the deleted id remains |
| `NoteStore.WithoutAppend` | src/App.js:64 | filtering a concatenation is the concatenation of the filtered parts, so the survivors keep their relative order |
| `NoteStore.WithoutAbsent` | src/App.js:63-65 | deleting an id no note has leaves the list unchanged |
| `NoteStore.WithoutUniqueAt` | src/App.js:63-65 | with unique ids, deleting the id of the note at index k gives `notes[..k] + notes[k+1..]` |
| `NoteStore.DeleteRemovesAtMostOne` | src/App.js:63-65 | with unique ids, the length drops by one if the id was present and is unchanged otherwise, and the id is gone |
| `NoteStore.WithoutKeepsUnique` | src/App.js:63-65 | delete keeps unique ids unique |
| `NoteStore.FirstIndexOf` | src/App.js:54-56 | `find` stops at the first note with the id: that index holds the id and no earlier index does; there is no index exactly when no note has the id |
| `NoteStore.FindCurrentNote` | src/App.js:53-57 | the result is the first note with the selected id; when no note has that id it is the first note; when the list is empty it is nothing |
| `NotesApp.App.CurrentNote` | src/App.js:53-57 | `findCurrentNote()` on the component's state: nothing exactly when there are no notes; otherwise a note of the list; the note with the selected id whenever one exists |
| `NoteStore.DeletedSelectionDropsEdits` | src/App.js:39-64 | after the note with the selected id is deleted and some note remains, the selection shows the first survivor, but an update with that id leaves the list unchanged |
| `NotesApp.App.SelectNote` | src/App.js:77 | the setter passed to the sidebar selects the given id and leaves the notes unchanged |

## Left out

- Rendering (`src/App.js:73-89`) is presentation only and is left out. This covers the JSX, the `Split` widget and the `Sidebar` and `Editor` components. Those components are not part of this model.
- The editor is only rendered when an id is selected and the list is non-empty (`src/App.js:78`). `UpdateNote` does not require that, and its contract covers every call.
- Local storage is I/O and is left out. This covers the read at line 14, the write of `JSON.stringify(notes)` on every change at lines 69-71, and JSON itself. The model starts from an already parsed `Option<seq<Note>>`. JSON that does not parse, or a stored value that is not a list of notes, is not modelled.
- `nanoid()` randomness is left out. The caller supplies the new id, and freshness is a precondition.
- `event.stopPropagation()` is left out, and so are React's batching and closure semantics for setters. Every setter is an immediate assignment. `updateNote` reads the `currentNoteId` of the current state.
- The commented-out former `updateNote` (lines 30-33) is not code and is not modelled.
- The filter's loose `!=` and the `===` comparisons agree on string ids. Ids that are not strings are not modelled.
