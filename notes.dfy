/** Note records and the pure parts of the WriteNow note logic: looking a note up by id
    (`Array.prototype.find` with loose `==` on ids, which are modelled as integers),
    filtering a note out (`Array.prototype.filter`), the list that `saveNote` writes back,
    and the choice of the active note after a reload. */
module Notes {

  datatype Option<T> = None | Some(value: T)

  /** A stored note. The timestamps are clock readings taken as integers. */
  datatype Note = Note(id: int, title: string, body: string, created: int, updated: int)

  /** The object handed to saveNote: it carries an id only when an existing note is edited. */
  datatype Draft = Draft(id: Option<int>, title: string, body: string)

  /** Fresh ids are Math.floor(Math.random() * 1000000), so they lie in [0, IdBound). */
  const IdBound: int := 1000000

  function Ids(notes: seq<Note>): set<int>
  {
    set k | 0 <= k < |notes| :: notes[k].id
  }

  predicate UniqueIds(notes: seq<Note>)
  {
    forall i, j :: 0 <= i < j < |notes| ==> notes[i].id != notes[j].id
  }

  /** Every note was last updated no earlier than it was created. */
  predicate Timestamped(notes: seq<Note>)
  {
    forall k :: 0 <= k < |notes| ==> notes[k].created <= notes[k].updated
  }

  /** How often `n` occurs in `notes`. */
  function Occurrences(notes: seq<Note>, n: Note): nat
  {
    multiset(notes)[n]
  }

  lemma IdsCons(n: Note, rest: seq<Note>)
    ensures Ids([n] + rest) == {n.id} + Ids(rest)
  {
    var s := [n] + rest;
    forall x | x in Ids(s) ensures x in {n.id} + Ids(rest) {
      var k :| 0 <= k < |s| && s[k].id == x;
      if k > 0 { assert rest[k - 1].id == x; }
    }
    forall x | x in Ids(rest) ensures x in Ids(s) {
      var k :| 0 <= k < |rest| && rest[k].id == x;
      assert s[k + 1].id == x;
    }
    assert s[0].id == n.id;
  }

  /** Index of the first note whose id equals `id`, as `notes.find(note => note.id == id)` sees it. */
  function FindIndex(notes: seq<Note>, id: int): (r: Option<nat>)
    ensures r.Some? ==> r.value < |notes| && notes[r.value].id == id
    ensures r.Some? ==> forall k :: 0 <= k < r.value ==> notes[k].id != id
    ensures r.None? <==> id !in Ids(notes)
  {
    if notes == [] then None
    else
      assert notes == [notes[0]] + notes[1..];
      IdsCons(notes[0], notes[1..]);
      if notes[0].id == id then Some(0)
      else match FindIndex(notes[1..], id)
        case None => None
        case Some(k) => Some(k + 1)
  }

  /** `notes.find(note => note.id == id)`: the first note with that id, or undefined. */
  function Find(notes: seq<Note>, id: int): (r: Option<Note>)
    ensures r.Some? ==> r.value in notes && r.value.id == id
    ensures r.None? <==> id !in Ids(notes)
  {
    match FindIndex(notes, id)
    case None => None
    case Some(k) => Some(notes[k])
  }

  /** Find yields exactly the first note carrying the id. */
  lemma FindFirst(notes: seq<Note>, id: int, k: nat)
    requires k < |notes| && notes[k].id == id
    requires forall j :: 0 <= j < k ==> notes[j].id != id
    ensures Find(notes, id) == Some(notes[k])
  {
    assert id in Ids(notes);
  }

  /** With unique ids, the note found is the only one carrying it. */
  lemma FindUnique(notes: seq<Note>, k: nat)
    requires UniqueIds(notes) && k < |notes|
    ensures Find(notes, notes[k].id) == Some(notes[k])
  {
    FindFirst(notes, notes[k].id, k);
  }

  /** `notes.filter(note => note.id != id)`. */
  function Without(notes: seq<Note>, id: int): (r: seq<Note>)
    ensures forall k :: 0 <= k < |r| ==> r[k].id != id
    ensures |r| <= |notes|
  {
    if notes == [] then []
    else (if notes[0].id == id then [] else [notes[0]]) + Without(notes[1..], id)
  }

  /** A delete drops every copy of the notes carrying the id and keeps every other note as often
      as it occurred before. */
  lemma {:induction false} WithoutOccurrences(notes: seq<Note>, id: int, n: Note)
    ensures Occurrences(Without(notes, id), n) == if n.id == id then 0 else Occurrences(notes, n)
  {
    var r := Without(notes, id);
    if notes != [] {
      assert notes == [notes[0]] + notes[1..];
      WithoutOccurrences(notes[1..], id, n);
      var head := if notes[0].id == id then [] else [notes[0]];
      assert multiset(r) == multiset(head) + multiset(Without(notes[1..], id));
      assert multiset(notes) == multiset([notes[0]]) + multiset(notes[1..]);
    }
  }

  /** Filtering distributes over concatenation: the kept notes keep their relative order. */
  lemma {:induction false} WithoutConcat(a: seq<Note>, b: seq<Note>, id: int)
    ensures Without(a + b, id) == Without(a, id) + Without(b, id)
  {
    if a == [] {
      assert a + b == b;
    } else {
      assert (a + b)[1..] == a[1..] + b;
      assert (a + b)[0] == a[0];
      WithoutConcat(a[1..], b, id);
    }
  }

  /** A single note is kept exactly when its id differs. */
  lemma WithoutSingle(n: Note, id: int)
    ensures Without([n], id) == if n.id == id then [] else [n]
  {
    assert [n][1..] == [];
  }

  /** Deleting an id that no note carries leaves the list as it is. */
  lemma {:induction false} WithoutAbsent(notes: seq<Note>, id: int)
    requires id !in Ids(notes)
    ensures Without(notes, id) == notes
  {
    if notes != [] {
      assert notes == [notes[0]] + notes[1..];
      IdsCons(notes[0], notes[1..]);
      WithoutAbsent(notes[1..], id);
    }
  }

  /** Deleting twice is deleting once. */
  lemma WithoutIdempotent(notes: seq<Note>, id: int)
    ensures Without(Without(notes, id), id) == Without(notes, id)
  {
    WithoutAbsent(Without(notes, id), id);
  }

  /** Every id left after a delete was there before. */
  lemma {:induction false} WithoutIds(notes: seq<Note>, id: int)
    ensures Ids(Without(notes, id)) == Ids(notes) - {id}
  {
    if notes != [] {
      assert notes == [notes[0]] + notes[1..];
      IdsCons(notes[0], notes[1..]);
      WithoutIds(notes[1..], id);
      if notes[0].id != id {
        assert Without(notes, id) == [notes[0]] + Without(notes[1..], id);
        IdsCons(notes[0], Without(notes[1..], id));
      } else {
        assert Without(notes, id) == Without(notes[1..], id);
      }
    }
  }

  lemma UniqueCons(n: Note, rest: seq<Note>)
    ensures UniqueIds([n] + rest) <==> n.id !in Ids(rest) && UniqueIds(rest)
  {
    var s := [n] + rest;
    if UniqueIds(s) {
      forall i, j | 0 <= i < j < |rest| ensures rest[i].id != rest[j].id {
        assert s[i + 1] == rest[i] && s[j + 1] == rest[j];
      }
      forall k | 0 <= k < |rest| ensures rest[k].id != n.id {
        assert s[0] == n && s[k + 1] == rest[k];
      }
    }
    if n.id !in Ids(rest) && UniqueIds(rest) {
      forall i, j | 0 <= i < j < |s| ensures s[i].id != s[j].id {
        if i == 0 {
          assert s[j] == rest[j - 1];
        } else {
          assert s[i] == rest[i - 1] && s[j] == rest[j - 1];
        }
      }
    }
  }

  /** Deleting keeps ids unique. */
  lemma {:induction false} WithoutUnique(notes: seq<Note>, id: int)
    requires UniqueIds(notes)
    ensures UniqueIds(Without(notes, id))
  {
    if notes != [] {
      assert notes == [notes[0]] + notes[1..];
      UniqueCons(notes[0], notes[1..]);
      WithoutUnique(notes[1..], id);
      if notes[0].id != id {
        WithoutIds(notes[1..], id);
        UniqueCons(notes[0], Without(notes[1..], id));
      }
    }
  }

  /** The stored note a draft updates: the first with the draft's id, or none for a draft
      without an id. */
  function MatchIndex(notes: seq<Note>, draft: Draft): (r: Option<nat>)
    ensures r.Some? ==> draft.id.Some? && r.value < |notes| && notes[r.value].id == draft.id.value
    ensures r.Some? ==> forall k :: 0 <= k < r.value ==> notes[k].id != draft.id.value
    ensures r.None? <==> draft.id.None? || draft.id.value !in Ids(notes)
  {
    if draft.id.Some? then FindIndex(notes, draft.id.value) else None
  }

  /** The list that saveNote writes back: the first matching note with the draft's title and body
      and `updated := now`, or, failing a match, the list with a new note appended. */
  function Saved(notes: seq<Note>, draft: Draft, freshId: int, now: int): (r: seq<Note>)
    ensures |r| == if draft.id.Some? && draft.id.value in Ids(notes) then |notes| else |notes| + 1
    ensures forall k :: 0 <= k < |notes| ==> r[k].id == notes[k].id && r[k].created == notes[k].created
    ensures exists k :: 0 <= k < |r| && r[k].title == draft.title && r[k].body == draft.body
  {
    match MatchIndex(notes, draft)
    case Some(i) =>
      var r := notes[i := notes[i].(title := draft.title, body := draft.body, updated := now)];
      assert r[i].title == draft.title && r[i].body == draft.body;
      r
    case None =>
      var r := notes + [Note(freshId, draft.title, draft.body, now, now)];
      assert r[|notes|].title == draft.title && r[|notes|].body == draft.body;
      r
  }

  /** Saving over an existing id: only the first note with that id changes, in its title, body and
      `updated`; its id and `created`, the length, the order and every other note stay. */
  lemma SaveExisting(notes: seq<Note>, draft: Draft, freshId: int, now: int, i: nat)
    requires draft.id.Some? && i < |notes| && notes[i].id == draft.id.value
    requires forall j :: 0 <= j < i ==> notes[j].id != draft.id.value
    ensures var r := Saved(notes, draft, freshId, now);
      |r| == |notes| &&
      r[i] == Note(notes[i].id, draft.title, draft.body, notes[i].created, now) &&
      forall k :: 0 <= k < |notes| && k != i ==> r[k] == notes[k]
  {
    assert draft.id.value in Ids(notes);
  }

  /** Saving a draft no note matches appends one note carrying the fresh id, the draft's text and
      `created == updated == now`, and leaves every earlier note where it was. */
  lemma SaveNew(notes: seq<Note>, draft: Draft, freshId: int, now: int)
    requires draft.id.None? || draft.id.value !in Ids(notes)
    ensures var r := Saved(notes, draft, freshId, now);
      |r| == |notes| + 1 && r[..|notes|] == notes &&
      r[|notes|] == Note(freshId, draft.title, draft.body, now, now)
  {
    var r := Saved(notes, draft, freshId, now);
    assert r == notes + [Note(freshId, draft.title, draft.body, now, now)];
    assert r[..|notes|] == notes;
  }

  /** Ids stay unique across a save when the fresh id is not in use already. */
  lemma SaveUnique(notes: seq<Note>, draft: Draft, freshId: int, now: int)
    requires UniqueIds(notes) && freshId !in Ids(notes)
    ensures UniqueIds(Saved(notes, draft, freshId, now))
  {
    var r := Saved(notes, draft, freshId, now);
    if MatchIndex(notes, draft).None? {
      forall i, j | 0 <= i < j < |r| ensures r[i].id != r[j].id {
        if j == |notes| {
          assert r[i].id in Ids(notes) by { assert r[i] == notes[i]; }
        } else {
          assert r[i] == notes[i] && r[j] == notes[j];
        }
      }
    }
  }

  /** A save never brings a note's `updated` before its `created` when the clock reads no earlier
      than any creation time. */
  lemma SaveTimestamped(notes: seq<Note>, draft: Draft, freshId: int, now: int)
    requires Timestamped(notes)
    requires forall k :: 0 <= k < |notes| ==> notes[k].created <= now
    ensures Timestamped(Saved(notes, draft, freshId, now))
  {
  }

  /** Round trip: after a save, looking up the saved id finds the draft's title and body, provided
      the saved note is the first with its id (an edit, or a creation whose fresh id is unused). */
  lemma SaveThenFind(notes: seq<Note>, draft: Draft, freshId: int, now: int)
    requires MatchIndex(notes, draft).None? ==> freshId !in Ids(notes)
    ensures var id := if MatchIndex(notes, draft).Some? then draft.id.value else freshId;
      var f := Find(Saved(notes, draft, freshId, now), id);
      f.Some? && f.value.id == id && f.value.title == draft.title && f.value.body == draft.body &&
      f.value.updated == now
  {
    var r := Saved(notes, draft, freshId, now);
    match MatchIndex(notes, draft)
    case Some(i) =>
      SaveExisting(notes, draft, freshId, now, i);
      FindFirst(r, draft.id.value, i);
    case None =>
      forall j | 0 <= j < |notes| ensures r[j].id != freshId {
        assert r[j] == notes[j];
      }
      FindFirst(r, freshId, |notes|);
  }

  /** Ids are not checked for collisions: a created note whose fresh id is already in use is
      shadowed, and looking that id up finds the older note instead. */
  lemma SaveCollisionShadows(notes: seq<Note>, title: string, body: string, freshId: int, now: int)
    requires freshId in Ids(notes)
    ensures var r := Saved(notes, Draft(None, title, body), freshId, now);
      |r| == |notes| + 1 && !UniqueIds(r) && Find(r, freshId) == Find(notes, freshId)
  {
    var r := Saved(notes, Draft(None, title, body), freshId, now);
    var k :| 0 <= k < |notes| && notes[k].id == freshId;
    assert r[k] == notes[k] && r[|notes|].id == freshId;
    var i := FindIndex(notes, freshId).value;
    forall j | 0 <= j < i ensures r[j].id != freshId {
      assert r[j] == notes[j];
    }
    FindFirst(r, freshId, i);
  }

  /** The note `_refreshNotes` makes active, given the reloaded list and the previous active note:
      an empty list keeps the previous one, otherwise a previous note is looked up by id (and
      becomes none when its id is gone), and with no previous note the last note is taken. */
  function NextActive(loaded: seq<Note>, prior: Option<Note>): (r: Option<Note>)
    ensures loaded != [] && r.Some? ==> r.value in loaded
  {
    if |loaded| > 0 then
      if prior.Some? then Find(loaded, prior.value.id)
      else Some(loaded[|loaded| - 1])
    else prior
  }

  /** With a previous active note, the active note after a reload is the first note with its id,
      and none when no note carries that id any more; it never falls back to the last note. */
  lemma NextActiveFollowsId(loaded: seq<Note>, prior: Note)
    requires loaded != []
    ensures var r := NextActive(loaded, Some(prior));
      (prior.id in Ids(loaded) <==> r.Some?) &&
      (r.Some? ==> r.value.id == prior.id) &&
      forall k :: (0 <= k < |loaded| && loaded[k].id == prior.id &&
        forall j :: 0 <= j < k ==> loaded[j].id != prior.id) ==> r == Some(loaded[k])
  {
    forall k | 0 <= k < |loaded| && loaded[k].id == prior.id &&
        (forall j :: 0 <= j < k ==> loaded[j].id != prior.id)
      ensures NextActive(loaded, Some(prior)) == Some(loaded[k])
    {
      FindFirst(loaded, prior.id, k);
    }
  }

  /** Deleting the active note leaves no active note when other notes remain. */
  lemma DeleteActiveLeavesNone(notes: seq<Note>, active: Note)
    requires Without(notes, active.id) != []
    ensures NextActive(Without(notes, active.id), Some(active)) == None
  {
  }

  /** Deleting a note other than the active one keeps the active note, when ids are unique. */
  lemma {:induction false} DeleteOtherKeepsActive(notes: seq<Note>, k: nat, id: int)
    requires UniqueIds(notes) && k < |notes| && notes[k].id != id
    ensures NextActive(Without(notes, id), Some(notes[k])) == Some(notes[k])
  {
    var r := Without(notes, id);
    assert notes == notes[..k] + [notes[k]] + notes[k + 1..];
    WithoutConcat(notes[..k] + [notes[k]], notes[k + 1..], id);
    WithoutConcat(notes[..k], [notes[k]], id);
    WithoutSingle(notes[k], id);
    var pre := Without(notes[..k], id);
    assert r == pre + [notes[k]] + Without(notes[k + 1..], id);
    assert notes[k].id !in Ids(notes[..k]) by {
      forall j | 0 <= j < k ensures notes[..k][j].id != notes[k].id {
        assert notes[..k][j] == notes[j];
      }
    }
    WithoutIds(notes[..k], id);
    forall j | 0 <= j < |pre| ensures r[j].id != notes[k].id {
      assert r[j] == pre[j];
      assert pre[j].id in Ids(pre);
    }
    assert r[|pre|] == notes[k];
    FindFirst(r, notes[k].id, |pre|);
  }

  /** Editing an active note whose id is no longer stored (as after a clear) creates a new note
      with the fresh id instead, and the reload then leaves no active note. */
  lemma EditVanishedNote(notes: seq<Note>, stale: Note, title: string, body: string,
                         freshId: int, now: int)
    requires stale.id !in Ids(notes) && freshId != stale.id
    ensures var r := Saved(notes, Draft(Some(stale.id), title, body), freshId, now);
      r == notes + [Note(freshId, title, body, now, now)] && NextActive(r, Some(stale)) == None
  {
    var r := Saved(notes, Draft(Some(stale.id), title, body), freshId, now);
    forall k | 0 <= k < |r| ensures r[k].id != stale.id {
      if k < |notes| { assert r[k] == notes[k]; }
    }
  }

  /** Three notes with ids 1, 2, 3 and note 2 active: deleting note 2 leaves ids 1 and 3 and no
      active note. */
  lemma DeleteMiddleScenario(n1: Note, n2: Note, n3: Note)
    requires n1.id == 1 && n2.id == 2 && n3.id == 3
    ensures Without([n1, n2, n3], 2) == [n1, n3]
    ensures NextActive(Without([n1, n2, n3], 2), Some(n2)) == None
  {
    assert [n1, n2, n3] == [n1] + [n2] + [n3];
    WithoutConcat([n1] + [n2], [n3], 2);
    WithoutConcat([n1], [n2], 2);
    WithoutSingle(n1, 2);
    WithoutSingle(n2, 2);
    WithoutSingle(n3, 2);
  }
}
