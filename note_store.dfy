/**
 * The note collection of the notes app as values: a note record, the
 * placeholder body of a new note, and the pure transformations the `App`
 * component applies to its ordered list of notes (prepend, filter out an id,
 * move the edited note to the front, find the current note), with the
 * properties they have.
 */
module NoteStore {
  import opened Wrappers

  /** A markdown note: an identifier and its markdown source. */
  datatype Note = Note(id: string, body: string)

  /** The body every freshly created note starts with. */
  const Placeholder: string := "# Type your markdown note's title here if you're a dingus"

  function Last(notes: seq<Note>): (n: Note)
    requires notes != []
  {
    notes[|notes| - 1]
  }

  function Init(notes: seq<Note>): (r: seq<Note>)
    requires notes != []
  {
    notes[..|notes| - 1]
  }

  /** Some note of `notes` has identifier `id`. */
  predicate HasId(notes: seq<Note>, id: string) {
    exists i | 0 <= i < |notes| :: notes[i].id == id
  }

  /** No two notes share an identifier (the collection invariant). */
  predicate UniqueIds(notes: seq<Note>) {
    forall i, j | 0 <= i < j < |notes| :: notes[i].id != notes[j].id
  }

  /** The identifiers of `notes`, in order. */
  function Ids(notes: seq<Note>): (ids: seq<string>)
    ensures |ids| == |notes|
    ensures forall i | 0 <= i < |notes| :: ids[i] == notes[i].id
  {
    if notes == [] then [] else Ids(Init(notes)) + [Last(notes).id]
  }

  // ---------------------------------------------------------------------
  // Delete: keep every note whose id differs from the deleted one
  // ---------------------------------------------------------------------

  /** `notes` with every note whose identifier is `id` removed. */
  function Without(notes: seq<Note>, id: string): (r: seq<Note>)
    ensures |r| <= |notes|
  {
    if notes == [] then []
    else
      Without(Init(notes), id) + (if Last(notes).id == id then [] else [Last(notes)])
  }

  // ---------------------------------------------------------------------
  // Update: the loop of `updateNote`
  // ---------------------------------------------------------------------

  /**
   * The notes whose identifier is `cur`, each with its body replaced by
   * `text`, the one met last first (each is `unshift`ed in turn).
   */
  function Edited(notes: seq<Note>, cur: string, text: string): (r: seq<Note>)
    ensures |r| <= |notes|
  {
    if notes == [] then []
    else
      (if Last(notes).id == cur then [Last(notes).(body := text)] else [])
      + Edited(Init(notes), cur, text)
  }

  /**
   * The list `updateNote` builds: the edited notes at the front, then every
   * other note in its old order.
   */
  function Updated(notes: seq<Note>, cur: string, text: string): (r: seq<Note>)
    ensures |r| == |notes|
  {
    SplitLength(notes, cur, text);
    Edited(notes, cur, text) + Without(notes, cur)
  }

  // ---------------------------------------------------------------------
  // Selection: the first note with the selected id, else the first note
  // ---------------------------------------------------------------------

  /** The index of the first note with identifier `id`, if any. */
  function FirstIndexOf(notes: seq<Note>, id: string): (r: Option<nat>)
    ensures r.Some? ==> r.value < |notes| && notes[r.value].id == id
    ensures r.Some? ==> forall j | 0 <= j < r.value :: notes[j].id != id
    ensures r.None? <==> !HasId(notes, id)
  {
    if notes == [] then None
    else if notes[0].id == id then Some(0)
    else
      match FirstIndexOf(notes[1..], id)
      case None => None
      case Some(i) => Some(i + 1)
  }

  /**
   * The note the editor shows: the first note with identifier `currentId`,
   * else the first note, else none when there are no notes.
   */
  function FindCurrentNote(notes: seq<Note>, currentId: string): (r: Option<Note>)
    ensures r.None? <==> notes == []
    ensures forall i | 0 <= i < |notes| && notes[i].id == currentId
              && (forall j | 0 <= j < i :: notes[j].id != currentId) :: r == Some(notes[i])
    ensures !HasId(notes, currentId) && notes != [] ==> r == Some(notes[0])
  {
    match FirstIndexOf(notes, currentId)
    case Some(i) => Some(notes[i])
    case None => if notes == [] then None else Some(notes[0])
  }

  // ---------------------------------------------------------------------
  // Initial state
  // ---------------------------------------------------------------------

  /**
   * The first note's id when there is a first note and its id is a
   * non-empty string, else the empty string (JavaScript truthiness).
   */
  function InitialNoteId(notes: seq<Note>): (r: string)
    ensures notes == [] ==> r == ""
    ensures notes != [] ==> r == notes[0].id
  {
    if notes != [] && notes[0].id != "" then notes[0].id else ""
  }

  /** The initial selection always shows the first loaded note. */
  lemma InitialSelectionShowsFirst(notes: seq<Note>)
    ensures FindCurrentNote(notes, InitialNoteId(notes))
            == if notes == [] then None else Some(notes[0])
  {
    if notes != [] {
      assert notes[0].id == InitialNoteId(notes);
    }
  }

  // ---------------------------------------------------------------------
  // Lemmas about identifiers
  // ---------------------------------------------------------------------

  lemma IdsAppend(a: seq<Note>, b: seq<Note>)
    ensures Ids(a + b) == Ids(a) + Ids(b)
  {
    assert forall i | 0 <= i < |a + b| :: Ids(a + b)[i] == (Ids(a) + Ids(b))[i];
  }

  /** Prepending a note whose id is fresh keeps the ids unique. */
  lemma UniqueCons(n: Note, notes: seq<Note>)
    requires UniqueIds(notes) && !HasId(notes, n.id)
    ensures UniqueIds([n] + notes)
  {
    var r := [n] + notes;
    forall i, j | 0 <= i < j < |r| ensures r[i].id != r[j].id {
      assert r[j] == notes[j - 1];
      if i > 0 {
        assert r[i] == notes[i - 1];
      }
    }
  }

  /** Appending a note whose id is fresh keeps the ids unique. */
  lemma UniqueSnoc(notes: seq<Note>, n: Note)
    requires UniqueIds(notes) && !HasId(notes, n.id)
    ensures UniqueIds(notes + [n])
  {
    var r := notes + [n];
    forall i, j | 0 <= i < j < |r| ensures r[i].id != r[j].id {
      assert r[i] == notes[i];
      if j < |notes| {
        assert r[j] == notes[j];
      }
    }
  }

  // ---------------------------------------------------------------------
  // Lemmas about Without (delete)
  // ---------------------------------------------------------------------

  /** A note survives the filter exactly when it was there and has another id. */
  lemma {:induction false} WithoutMembers(notes: seq<Note>, id: string)
    ensures forall n :: n in Without(notes, id) <==> n in notes && n.id != id
  {
    if notes != [] {
      assert notes == Init(notes) + [Last(notes)];
      WithoutMembers(Init(notes), id);
    }
  }

  /** No note with the filtered id remains. */
  lemma {:induction false} WithoutRemovesId(notes: seq<Note>, id: string)
    ensures !HasId(Without(notes, id), id)
  {
    WithoutMembers(notes, id);
    var r := Without(notes, id);
    assert forall i | 0 <= i < |r| :: r[i] in r;
  }

  /** Filtering distributes over concatenation: survivors keep their order. */
  lemma {:induction false} WithoutAppend(a: seq<Note>, b: seq<Note>, id: string)
    ensures Without(a + b, id) == Without(a, id) + Without(b, id)
  {
    if b == [] {
      assert a + b == a;
    } else {
      assert Init(a + b) == a + Init(b);
      assert Last(a + b) == Last(b);
      WithoutAppend(a, Init(b), id);
    }
  }

  /** Filtering out an absent id changes nothing. */
  lemma {:induction false} WithoutAbsent(notes: seq<Note>, id: string)
    requires !HasId(notes, id)
    ensures Without(notes, id) == notes
  {
    if notes != [] {
      assert Last(notes).id != id;
      WithoutAbsent(Init(notes), id);
    }
  }

  /** A note of `notes` other than the one at `k` has another id. */
  lemma UniqueAround(notes: seq<Note>, k: nat)
    requires UniqueIds(notes) && k < |notes|
    ensures !HasId(notes[..k], notes[k].id) && !HasId(notes[k + 1..], notes[k].id)
  {
    var pre, post := notes[..k], notes[k + 1..];
    forall i | 0 <= i < |pre| ensures pre[i].id != notes[k].id {
      assert pre[i] == notes[i];
    }
    forall i | 0 <= i < |post| ensures post[i].id != notes[k].id {
      assert post[i] == notes[k + 1 + i];
    }
  }

  lemma WithoutSingle(x: Note, id: string)
    ensures Without([x], id) == if x.id == id then [] else [x]
  {
    assert Init([x]) == [];
  }

  lemma WithoutAround(pre: seq<Note>, x: Note, post: seq<Note>)
    requires !HasId(pre, x.id) && !HasId(post, x.id)
    ensures Without(pre + [x] + post, x.id) == pre + post
  {
    var id := x.id;
    var a := pre + [x];
    WithoutAbsent(pre, id);
    WithoutAbsent(post, id);
    WithoutSingle(x, id);
    WithoutAppend(pre, [x], id);
    assert Without(a, id) == pre;
    WithoutAppend(a, post, id);
  }

  /**
   * With unique ids, deleting the id of the note at index `k` removes exactly
   * that note and leaves the others in order.
   */
  lemma WithoutUniqueAt(notes: seq<Note>, k: nat)
    requires UniqueIds(notes) && k < |notes|
    ensures Without(notes, notes[k].id) == notes[..k] + notes[k + 1..]
  {
    UniqueAround(notes, k);
    assert notes == notes[..k] + [notes[k]] + notes[k + 1..];
    WithoutAround(notes[..k], notes[k], notes[k + 1..]);
  }

  /**
   * Delete, with unique ids: the note with `id` is gone, and the length drops
   * by one exactly when it was there.
   */
  lemma {:induction false} DeleteRemovesAtMostOne(notes: seq<Note>, id: string)
    requires UniqueIds(notes)
    ensures !HasId(Without(notes, id), id)
    ensures |Without(notes, id)| == if HasId(notes, id) then |notes| - 1 else |notes|
  {
    if HasId(notes, id) {
      var k :| 0 <= k < |notes| && notes[k].id == id;
      WithoutUniqueAt(notes, k);
    } else {
      WithoutAbsent(notes, id);
    }
    var r := Without(notes, id);
    assert forall i | 0 <= i < |r| :: r[i] in r;
  }

  /** Deleting keeps the ids unique. */
  lemma {:induction false} WithoutKeepsUnique(notes: seq<Note>, id: string)
    requires UniqueIds(notes)
    ensures UniqueIds(Without(notes, id))
  {
    if notes != [] {
      var p, x := Init(notes), Last(notes);
      assert UniqueIds(p);
      WithoutKeepsUnique(p, id);
      if x.id != id {
        var w := Without(p, id);
        assert !HasId(p, x.id) by {
          forall i | 0 <= i < |p| ensures p[i].id != x.id {
            assert p[i] == notes[i];
          }
        }
        WithoutSubset(p, id, x.id);
        UniqueSnoc(w, x);
      }
    }
  }

  /** An id absent before the filter stays absent after it. */
  lemma WithoutSubset(notes: seq<Note>, id: string, other: string)
    requires !HasId(notes, other)
    ensures !HasId(Without(notes, id), other)
  {
    WithoutMembers(notes, id);
    var w := Without(notes, id);
    forall i | 0 <= i < |w| ensures w[i].id != other {
      assert w[i] in w;
    }
  }

  /** Filtering out the id every note has leaves nothing. */
  lemma {:induction false} WithoutAllMatching(notes: seq<Note>, id: string)
    requires forall i | 0 <= i < |notes| :: notes[i].id == id
    ensures Without(notes, id) == []
  {
    if notes != [] {
      WithoutAllMatching(Init(notes), id);
    }
  }

  // ---------------------------------------------------------------------
  // Lemmas about Edited and Updated (update)
  // ---------------------------------------------------------------------

  /** Every edited note has the current id and the new body. */
  lemma {:induction false} EditedMembers(notes: seq<Note>, cur: string, text: string)
    ensures forall i | 0 <= i < |Edited(notes, cur, text)| ::
              Edited(notes, cur, text)[i] == Note(cur, text)
  {
    if notes != [] {
      EditedMembers(Init(notes), cur, text);
    }
  }

  /** Later matches are unshifted in front of earlier ones. */
  lemma {:induction false} EditedAppend(a: seq<Note>, b: seq<Note>, cur: string, text: string)
    ensures Edited(a + b, cur, text) == Edited(b, cur, text) + Edited(a, cur, text)
  {
    if b == [] {
      assert a + b == a;
    } else {
      assert Init(a + b) == a + Init(b);
      assert Last(a + b) == Last(b);
      EditedAppend(a, Init(b), cur, text);
    }
  }

  lemma {:induction false} EditedAbsent(notes: seq<Note>, cur: string, text: string)
    requires !HasId(notes, cur)
    ensures Edited(notes, cur, text) == []
  {
    if notes != [] {
      assert Last(notes).id != cur;
      EditedAbsent(Init(notes), cur, text);
    }
  }

  lemma EditedSingle(x: Note, cur: string, text: string)
    ensures Edited([x], cur, text) == if x.id == cur then [x.(body := text)] else []
  {
    assert Init([x]) == [];
  }

  lemma EditedAround(pre: seq<Note>, x: Note, post: seq<Note>, text: string)
    requires !HasId(pre, x.id) && !HasId(post, x.id)
    ensures Edited(pre + [x] + post, x.id, text) == [x.(body := text)]
  {
    var cur := x.id;
    var a := pre + [x];
    EditedAbsent(pre, cur, text);
    EditedAbsent(post, cur, text);
    EditedSingle(x, cur, text);
    EditedAppend(pre, [x], cur, text);
    assert Edited(a, cur, text) == [x.(body := text)];
    EditedAppend(a, post, cur, text);
  }

  /** With unique ids, exactly the note at index `k` is edited. */
  lemma EditedUniqueAt(notes: seq<Note>, k: nat, text: string)
    requires UniqueIds(notes) && k < |notes|
    ensures Edited(notes, notes[k].id, text) == [notes[k].(body := text)]
  {
    UniqueAround(notes, k);
    assert notes == notes[..k] + [notes[k]] + notes[k + 1..];
    EditedAround(notes[..k], notes[k], notes[k + 1..], text);
  }

  /**
   * Update, with unique ids and the current note at index `k`: the edited
   * note is at the front with the new body, followed by the old list with
   * that note removed, in its old order.
   */
  lemma UpdateMovesToFront(notes: seq<Note>, k: nat, text: string)
    requires UniqueIds(notes) && k < |notes|
    ensures Updated(notes, notes[k].id, text)
            == [Note(notes[k].id, text)] + notes[..k] + notes[k + 1..]
  {
    EditedUniqueAt(notes, k, text);
    WithoutUniqueAt(notes, k);
  }

  /** Update with an id no note has returns the list unchanged. */
  lemma UpdateAbsentIsIdentity(notes: seq<Note>, cur: string, text: string)
    requires !HasId(notes, cur)
    ensures Updated(notes, cur, text) == notes
  {
    EditedAbsent(notes, cur, text);
    WithoutAbsent(notes, cur);
  }

  /** Each old note is either unshifted or pushed, never both or neither. */
  lemma {:induction false} SplitLength(notes: seq<Note>, cur: string, text: string)
    ensures |Edited(notes, cur, text)| + |Without(notes, cur)| == |notes|
  {
    if notes != [] {
      SplitLength(Init(notes), cur, text);
    }
  }

  lemma IdsSingle(x: Note)
    ensures Ids([x]) == [x.id]
  {
    assert Init([x]) == [];
  }

  /** Each old note lands in exactly one of the two parts of the result. */
  lemma {:induction false} SplitKeepsIds(notes: seq<Note>, cur: string, text: string)
    ensures multiset(Ids(Edited(notes, cur, text))) + multiset(Ids(Without(notes, cur)))
            == multiset(Ids(notes))
  {
    if notes != [] {
      var p, x := Init(notes), Last(notes);
      SplitKeepsIds(p, cur, text);
      assert Ids(notes) == Ids(p) + [x.id];
      if x.id == cur {
        var x' := x.(body := text);
        assert Edited(notes, cur, text) == [x'] + Edited(p, cur, text);
        assert Without(notes, cur) == Without(p, cur);
        IdsAppend([x'], Edited(p, cur, text));
        IdsSingle(x');
      } else {
        assert Edited(notes, cur, text) == Edited(p, cur, text);
        assert Without(notes, cur) == Without(p, cur) + [x];
        IdsAppend(Without(p, cur), [x]);
        IdsSingle(x);
      }
    }
  }

  /**
   * Every old note is pushed or unshifted exactly once: the multiset of ids,
   * and so the length, is preserved, whatever the ids are.
   */
  lemma UpdateKeepsIds(notes: seq<Note>, cur: string, text: string)
    ensures multiset(Ids(Updated(notes, cur, text))) == multiset(Ids(notes))
    ensures |Updated(notes, cur, text)| == |notes|
  {
    SplitKeepsIds(notes, cur, text);
    IdsAppend(Edited(notes, cur, text), Without(notes, cur));
    assert |multiset(Ids(Updated(notes, cur, text)))| == |Updated(notes, cur, text)|;
    assert |multiset(Ids(notes))| == |notes|;
  }

  /** Notes with another id keep their bodies and their relative order. */
  lemma UpdateKeepsOthers(notes: seq<Note>, cur: string, text: string)
    ensures Without(Updated(notes, cur, text), cur) == Without(notes, cur)
  {
    var e, w := Edited(notes, cur, text), Without(notes, cur);
    WithoutAppend(e, w, cur);
    EditedMembers(notes, cur, text);
    WithoutAllMatching(e, cur);
    WithoutRemovesId(notes, cur);
    WithoutAbsent(w, cur);
  }

  /** Update keeps the ids unique. */
  lemma UpdateKeepsUnique(notes: seq<Note>, cur: string, text: string)
    requires UniqueIds(notes)
    ensures UniqueIds(Updated(notes, cur, text))
  {
    if HasId(notes, cur) {
      var k :| 0 <= k < |notes| && notes[k].id == cur;
      EditedUniqueAt(notes, k, text);
      WithoutKeepsUnique(notes, cur);
      WithoutRemovesId(notes, cur);
      UniqueCons(notes[k].(body := text), Without(notes, cur));
    } else {
      UpdateAbsentIsIdentity(notes, cur, text);
    }
  }

  /**
   * With two notes sharing the current id, both get the new body and reach
   * the front in reverse order; every other note keeps its order.
   */
  lemma UpdateReversesDuplicates(pre: seq<Note>, a: Note, mid: seq<Note>, b: Note,
                                 post: seq<Note>, text: string)
    requires a.id == b.id
    requires !HasId(pre, a.id) && !HasId(mid, a.id) && !HasId(post, a.id)
    ensures Updated(pre + [a] + mid + [b] + post, a.id, text)
            == [b.(body := text), a.(body := text)] + pre + mid + post
  {
    EditedTwo(pre, a, mid, b, post, text);
    WithoutTwo(pre, a, mid, b, post);
  }

  lemma EditedTwo(pre: seq<Note>, a: Note, mid: seq<Note>, b: Note, post: seq<Note>, text: string)
    requires a.id == b.id
    requires !HasId(pre, a.id) && !HasId(mid, a.id) && !HasId(post, a.id)
    ensures Edited(pre + [a] + mid + [b] + post, a.id, text) == [b.(body := text), a.(body := text)]
  {
    var cur := a.id;
    var s1 := pre + [a];
    var s2 := s1 + mid;
    var s3 := s2 + [b];
    EditedAbsent(pre, cur, text);
    EditedAbsent(mid, cur, text);
    EditedAbsent(post, cur, text);
    EditedSingle(a, cur, text);
    EditedSingle(b, cur, text);
    EditedAppend(pre, [a], cur, text);
    assert Edited(s1, cur, text) == [a.(body := text)];
    EditedAppend(s1, mid, cur, text);
    assert Edited(s2, cur, text) == [a.(body := text)];
    EditedAppend(s2, [b], cur, text);
    assert Edited(s3, cur, text) == [b.(body := text), a.(body := text)];
    EditedAppend(s3, post, cur, text);
  }

  lemma WithoutTwo(pre: seq<Note>, a: Note, mid: seq<Note>, b: Note, post: seq<Note>)
    requires a.id == b.id
    requires !HasId(pre, a.id) && !HasId(mid, a.id) && !HasId(post, a.id)
    ensures Without(pre + [a] + mid + [b] + post, a.id) == pre + mid + post
  {
    var cur := a.id;
    var s1 := pre + [a];
    var s2 := s1 + mid;
    var s3 := s2 + [b];
    WithoutAbsent(pre, cur);
    WithoutAbsent(mid, cur);
    WithoutAbsent(post, cur);
    WithoutSingle(a, cur);
    WithoutSingle(b, cur);
    WithoutAppend(pre, [a], cur);
    assert Without(s1, cur) == pre;
    WithoutAppend(s1, mid, cur);
    assert Without(s2, cur) == pre + mid;
    WithoutAppend(s2, [b], cur);
    assert Without(s3, cur) == pre + mid;
    WithoutAppend(s3, post, cur);
  }

  /**
   * Once the selected note is deleted, the selection still shows a note
   * (the first survivor), yet an edit matches no note and changes nothing.
   */
  lemma DeletedSelectionDropsEdits(notes: seq<Note>, cur: string, text: string)
    requires exists i | 0 <= i < |notes| :: notes[i].id != cur
    ensures Without(notes, cur) != []
    ensures FindCurrentNote(Without(notes, cur), cur) == Some(Without(notes, cur)[0])
    ensures Updated(Without(notes, cur), cur, text) == Without(notes, cur)
  {
    var i :| 0 <= i < |notes| && notes[i].id != cur;
    WithoutMembers(notes, cur);
    assert notes[i] in Without(notes, cur);
    WithoutRemovesId(notes, cur);
    UpdateAbsentIsIdentity(Without(notes, cur), cur, text);
  }
}
