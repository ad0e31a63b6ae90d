/**
 * The in-memory note store behind the `/api/notes` routes: the module-level `notes`
 * collection, the id generator, and the store logic of the lookup, create and delete
 * handlers.
 */
module Notes {
  import opened Wrappers
  import opened JsValues

  /** A reading of the wall clock, as `new Date()` takes it when a note is created. */
  type Instant = int

  /** A stored note. The seeded notes carry no `date`. */
  datatype Note = Note(id: int, content: JsValue, important: JsValue, date: Option<Instant>)

  /** The two fields of a POST body that the create handler reads. */
  datatype Body = Body(content: JsValue, important: JsValue)

  /** What a handler answers instead of a note: 400 "content missing", or 404. */
  datatype Error = ContentMissing | NotFound

  /** The three notes the store starts with. */
  function InitialNotes(): (s: seq<Note>)
    ensures |s| == 3
    ensures forall i :: 0 <= i < |s| ==> s[i].id == i + 1
  {
    [ Note(1, Str("HTML is easy"), Bool(true), None),
      Note(2, Str("Browser can execute only JavaScript"), Bool(false), None),
      Note(3, Str("GET and POST are the most important methods of HTTP protocol"), Bool(true), None) ]
  }

  /** Some note of `s` has id `id`. */
  predicate HasId(s: seq<Note>, id: int) {
    exists i :: 0 <= i < |s| && s[i].id == id
  }

  /** The store invariant: every id is positive and no two notes share an id. */
  predicate ValidIds(s: seq<Note>) {
    && (forall i :: 0 <= i < |s| ==> s[i].id > 0)
    && (forall i, j :: 0 <= i < j < |s| ==> s[i].id != s[j].id)
  }

  /** The ids of the notes, in the notes' order. */
  function Ids(s: seq<Note>): (r: seq<int>)
    ensures |r| == |s|
    ensures forall i :: 0 <= i < |s| ==> r[i] == s[i].id
  {
    if s == [] then [] else [s[0].id] + Ids(s[1..])
  }

  /** The largest of a non-empty list of numbers: an element of `xs` that no element exceeds. */
  function MaxOf(xs: seq<int>): (r: int)
    requires |xs| > 0
    ensures r in xs
    ensures forall i :: 0 <= i < |xs| ==> xs[i] <= r
  {
    if |xs| == 1 then xs[0]
    else
      var m := MaxOf(xs[1..]);
      if xs[0] >= m then xs[0] else m
  }

  /**
   * The id given to the next note: one more than the largest id present, or 1 when the
   * store is empty.
   */
  function GeneratedId(s: seq<Note>): (r: int)
    ensures s == [] ==> r == 1
    ensures forall i :: 0 <= i < |s| ==> s[i].id < r
    ensures s != [] ==> HasId(s, r - 1)
  {
    var maxId := if |s| > 0 then MaxOf(Ids(s)) else 0;
    maxId + 1
  }

  /** Lookup by id: the first note, in list order, whose id equals `id`, if there is one. */
  function Find(s: seq<Note>, id: int): (r: Option<Note>)
    ensures r.None? <==> !HasId(s, id)
    ensures r.Some? ==>
      exists i :: 0 <= i < |s| && s[i] == r.value && r.value.id == id &&
        forall j :: 0 <= j < i ==> s[j].id != id
  {
    if s == [] then None
    else if s[0].id == id then Some(s[0])
    else
      var r := Find(s[1..], id);
      assert HasId(s[1..], id) ==> HasId(s, id);
      assert HasId(s, id) ==> HasId(s[1..], id) by {
        if HasId(s, id) {
          var k :| 0 <= k < |s| && s[k].id == id;
          assert s[1..][k - 1].id == id;
        }
      }
      if r.Some? then
        var i :| 0 <= i < |s[1..]| && s[1..][i] == r.value && r.value.id == id &&
          forall j :: 0 <= j < i ==> s[1..][j].id != id;
        assert s[i + 1] == r.value && forall j :: 0 <= j < i + 1 ==> s[j].id != id;
        r
      else r
  }

  /** Deletion by id: the notes whose id differs from `id`, in their original order. */
  function Remove(s: seq<Note>, id: int): (r: seq<Note>)
    ensures |r| <= |s|
    ensures forall n :: n in r <==> n in s && n.id != id
  {
    if s == [] then []
    else (if s[0].id != id then [s[0]] else []) + Remove(s[1..], id)
  }

  /**
   * The note the create handler builds: the body's content as given, the body's
   * `important` when it is truthy and `false` otherwise, the clock reading as `date`,
   * and the generated id.
   */
  function NewNote(s: seq<Note>, body: Body, now: Instant): (n: Note)
    ensures n.id == GeneratedId(s) && !HasId(s, n.id)
    ensures n.content == body.content && n.date == Some(now)
    ensures Truthy(n.important) <==> Truthy(body.important)
    ensures Truthy(body.important) ==> n.important == body.important
    ensures !Truthy(body.important) ==> n.important == Bool(false)
    ensures body.important == Undefined || body.important == Bool(false) ==> n.important == Bool(false)
    ensures body.important == Bool(true) ==> n.important == Bool(true)
  {
    Note(GeneratedId(s), body.content, Or(body.important, Bool(false)), Some(now))
  }

  /** The seeded notes satisfy the store invariant and the next id after them is 4. */
  lemma InitialNotesValid()
    ensures ValidIds(InitialNotes())
    ensures GeneratedId(InitialNotes()) == 4
  {
  }

  /** A created note has a positive id that no stored note has, so appending it keeps the invariant. */
  lemma CreatePreservesValid(s: seq<Note>, body: Body, now: Instant)
    requires ValidIds(s)
    ensures ValidIds(s + [NewNote(s, body, now)])
  {
  }

  /** Putting a note with a positive, unused id in front keeps the invariant. */
  lemma PrependPreservesValid(n: Note, s: seq<Note>)
    requires ValidIds(s) && n.id > 0 && !HasId(s, n.id)
    ensures ValidIds([n] + s)
  {
  }

  /** Filtering keeps the invariant: a kept note's id was unique before and still is. */
  lemma {:induction false} RemovePreservesValid(s: seq<Note>, id: int)
    requires ValidIds(s)
    ensures ValidIds(Remove(s, id))
  {
    if s != [] {
      var tail := s[1..];
      var rest := Remove(tail, id);
      assert ValidIds(tail) by {
        forall i, j | 0 <= i < j < |tail| ensures tail[i].id != tail[j].id {
          assert tail[i] == s[i + 1] && tail[j] == s[j + 1];
        }
      }
      RemovePreservesValid(tail, id);
      if s[0].id != id {
        forall k | 0 <= k < |rest| ensures rest[k].id != s[0].id {
          assert rest[k] in tail;
          var m :| 0 <= m < |tail| && tail[m] == rest[k];
          assert s[m + 1] == rest[k];
        }
        PrependPreservesValid(s[0], rest);
      }
    }
  }

  /** Filtering distributes over concatenation, so the kept notes stay in their original order. */
  lemma {:induction false} RemoveConcat(a: seq<Note>, b: seq<Note>, id: int)
    ensures Remove(a + b, id) == Remove(a, id) + Remove(b, id)
  {
    if a == [] {
      assert a + b == b;
    } else {
      assert (a + b)[0] == a[0];
      assert (a + b)[1..] == a[1..] + b;
      RemoveConcat(a[1..], b, id);
    }
  }

  /** Filtering a one-note list keeps the note exactly when its id differs. */
  lemma RemoveSingle(n: Note, id: int)
    ensures Remove([n], id) == if n.id != id then [n] else []
  {
  }

  /** Deleting an id that no note has leaves the notes as they were. */
  lemma {:induction false} RemoveAbsent(s: seq<Note>, id: int)
    requires !HasId(s, id)
    ensures Remove(s, id) == s
  {
    if s != [] {
      forall k | 0 <= k < |s[1..]| ensures s[1..][k].id != id {
        assert s[1..][k] == s[k + 1];
      }
      RemoveAbsent(s[1..], id);
      assert s[0].id != id;
      assert [s[0]] + s[1..] == s;
    }
  }

  /** Deleting twice is deleting once. */
  lemma RemoveIdempotent(s: seq<Note>, id: int)
    ensures Remove(Remove(s, id), id) == Remove(s, id)
  {
    var r := Remove(s, id);
    forall k | 0 <= k < |r| ensures r[k].id != id {
      assert r[k] in r;
    }
    RemoveAbsent(r, id);
  }

  /** In a valid store, deleting an id that is present removes exactly one note. */
  lemma {:induction false} RemoveExactlyOne(s: seq<Note>, id: int)
    requires ValidIds(s) && HasId(s, id)
    ensures |Remove(s, id)| == |s| - 1
  {
    var tail := s[1..];
    assert ValidIds(tail) by {
      forall i, j | 0 <= i < j < |tail| ensures tail[i].id != tail[j].id {
        assert tail[i] == s[i + 1] && tail[j] == s[j + 1];
      }
    }
    if s[0].id == id {
      forall k | 0 <= k < |tail| ensures tail[k].id != id {
        assert tail[k] == s[k + 1];
      }
      RemoveAbsent(tail, id);
    } else {
      var k :| 0 <= k < |s| && s[k].id == id;
      assert tail[k - 1].id == id;
      RemoveExactlyOne(tail, id);
    }
  }

  /** After a delete, looking the id up finds nothing. */
  lemma FindAfterRemove(s: seq<Note>, id: int)
    ensures Find(Remove(s, id), id) == None
  {
  }

  /** After a create, looking up the returned id finds exactly the created note. */
  lemma FindAfterCreate(s: seq<Note>, body: Body, now: Instant)
    ensures var n := NewNote(s, body, now); Find(s + [n], n.id) == Some(n)
  {
    var n := NewNote(s, body, now);
    var t := s + [n];
    assert t[|s|] == n;
    var r := Find(t, n.id);
    forall k | 0 <= k < |s| ensures t[k].id != n.id {
      assert t[k] == s[k];
    }
  }

  /** Deleting the largest id leaves only notes whose ids lie strictly between 0 and it. */
  lemma RemoveMaxLeavesSmaller(s: seq<Note>, m: int)
    requires ValidIds(s)
    requires forall i :: 0 <= i < |s| ==> s[i].id <= m
    ensures forall i :: 0 <= i < |Remove(s, m)| ==> 0 < Remove(s, m)[i].id < m
  {
  }

  /** A note of `s` with an id other than `id` survives deleting `id`. */
  lemma KeptByRemove(s: seq<Note>, k: int, id: int)
    requires 0 <= k < |s| && s[k].id != id
    ensures HasId(Remove(s, id), s[k].id)
  {
  }

  /**
   * Ids are not a persistent counter: once the note with the largest id is deleted, the
   * next created note gets an id no larger than the deleted one, and gets that very id
   * exactly when it was 1 or the id just below it is still present.
   */
  lemma ReuseAfterDeletingMax(s: seq<Note>)
    requires ValidIds(s) && s != []
    ensures var m := GeneratedId(s) - 1;
      var next := GeneratedId(Remove(s, m));
      && next <= m
      && (next == m <==> m == 1 || HasId(s, m - 1))
  {
    var m := GeneratedId(s) - 1;
    var rest := Remove(s, m);
    var next := GeneratedId(rest);
    RemoveMaxLeavesSmaller(s, m);
    if rest == [] {
      assert s[0].id <= m;
      forall k | 0 <= k < |s| ensures s[k].id != m - 1 {
        assert s[k] !in rest;
      }
    } else {
      assert HasId(rest, next - 1);
      var k :| 0 <= k < |rest| && rest[k].id == next - 1;
      assert next <= m;
      if next == m {
        assert rest[k] in s;
        var j :| 0 <= j < |s| && s[j] == rest[k];
        assert HasId(s, m - 1);
      }
      if HasId(s, m - 1) {
        var j :| 0 <= j < |s| && s[j].id == m - 1;
        KeptByRemove(s, j, m);
      }
    }
  }

  /** The note collection and the handlers that query and change it. */
  class NoteStore {
    /** The notes in insertion order; GET /api/notes answers with exactly this list. */
    var notes: seq<Note>

    ghost predicate Valid()
      reads this
    {
      ValidIds(notes)
    }

    /** The store as the module loads: the three seeded notes. */
    constructor ()
      ensures Valid() && notes == InitialNotes()
    {
      notes := InitialNotes();
      InitialNotesValid();
    }

    /** GET /api/notes/:id: the first note with that id, or 404. */
    method Get(id: int) returns (r: Result<Note, Error>)
      ensures r.Err? <==> !HasId(notes, id)
      ensures r.Err? ==> r.error == NotFound
      ensures r.Ok? ==>
        exists i :: 0 <= i < |notes| && notes[i] == r.value && r.value.id == id &&
          forall j :: 0 <= j < i ==> notes[j].id != id
    {
      var note := Find(notes, id);
      if note.Some? {
        r := Ok(note.value);
      } else {
        r := Err(NotFound);
      }
    }

    /**
     * POST /api/notes: a body whose content is falsy is refused with "content missing"
     * and nothing changes; otherwise the built note is appended and returned.
     */
    method Create(body: Body, now: Instant) returns (r: Result<Note, Error>)
      requires Valid()
      modifies this
      ensures Valid()
      ensures !Truthy(body.content) ==> r == Err(ContentMissing) && notes == old(notes)
      ensures Truthy(body.content) ==>
        && r == Ok(NewNote(old(notes), body, now))
        && notes == old(notes) + [r.value]
    {
      if !Truthy(body.content) {
        return Err(ContentMissing);
      }
      var note := NewNote(notes, body, now);
      CreatePreservesValid(notes, body, now);
      notes := notes + [note];
      r := Ok(note);
    }

    /** DELETE /api/notes/:id: drops every note with that id; an unknown id is no error. */
    method Delete(id: int)
      requires Valid()
      modifies this
      ensures Valid()
      ensures notes == Remove(old(notes), id)
    {
      RemovePreservesValid(notes, id);
      notes := Remove(notes, id);
    }
  }

  /**
   * A client session on a fresh store: creating an important note yields id 4 with
   * `important` true, reading it back finds it, and after deleting it reading gives 404.
   */
  method CreateReadDelete() returns (created: Result<Note, Error>, read: Result<Note, Error>, afterDelete: Result<Note, Error>)
    ensures created.Ok? && created.value.id == 4 && created.value.important == Bool(true)
    ensures read == created
    ensures afterDelete == Err(NotFound)
  {
    var store := new NoteStore();
    InitialNotesValid();
    created := store.Create(Body(Str("new"), Bool(true)), 0);
    FindAfterCreate(InitialNotes(), Body(Str("new"), Bool(true)), 0);
    read := store.Get(created.value.id);
    store.Delete(4);
    afterDelete := store.Get(4);
  }

  /**
   * A client session showing id reuse: deleting note 3 from the seeded store and then
   * creating a note gives the new note id 3 again.
   */
  method DeleteTopThenCreate() returns (created: Result<Note, Error>)
    ensures created.Ok? && created.value.id == 3
  {
    var store := new NoteStore();
    InitialNotesValid();
    store.Delete(3);
    ghost var left := store.notes;
    assert GeneratedId(left) == 3 by {
      ReuseAfterDeletingMax(InitialNotes());
      assert InitialNotes()[1].id == 2;
    }
    var body := Body(Str("again"), Undefined);
    assert Truthy(body.content) by {
      assert |body.content.s| == 5;
    }
    created := store.Create(body, 0);
    assert created.value.id == GeneratedId(left);
  }
}
