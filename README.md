# Notes API store, modelled in Dafny

The service keeps its notes in a module-level list (`notes`) and exposes them through
four `/api/notes` routes. This project models that store:

- `Note` records (`id`, `content`, `important`, `date`) seeded with the three notes ids 1, 2, 3;
- the id generator: one more than the largest id present, 1 for an empty store;
- lookup by id (the first note with that id, or 404);
- create: a falsy `content` is refused with "content missing" and nothing changes;
  otherwise the new note takes the body's `content`, `important` as `body.important || false`,
  the current time as `date` and the generated id, and is appended at the end;
- delete by id: every note with that id is filtered out, other notes keep their order,
  and an unknown id is not an error.

Files:

- `wrappers.dfy` — `Option` and `Result`.
- `js_values.dfy` — the JSON values a request body field can hold, JavaScript truthiness
  and the `||` operator. The create handler's checks are written against these, so
  `content` of `0`, `false`, `null` or `""` is refused just as a missing one is, and a
  truthy non-boolean `important` is stored as given.
- `notes.dfy` — the `Notes` module: the pure functions (`GeneratedId`, `Find`, `Remove`,
  `NewNote`), the lemmas about them, the `NoteStore` class whose `notes: seq<Note>` field
  the create and delete handlers reassign, with `Valid()` (ids positive and pairwise
  distinct) as its invariant, and two client sessions that use only the class's contracts.

Ids are not a persistent counter: create computes max+1 each time (index.js:28-29), so
the largest id comes back once its note is deleted. `ReuseAfterDeletingMax` states exactly
when that happens, and `DeleteTopThenCreate` shows it on the seeded notes.

## Model

| member | source | states |
|---|---|---|
| `JsValues.Truthy` | index.js:75 | undefined, null, false, 0 and the empty string are falsy; every other body value, empty arrays and objects included, is truthy |
| `JsValues.Or` | index.js:81 | the or-operator `a or b` yields one of its operands, the left one when it is truthy, and is truthy exactly when either operand is |
| `Notes.InitialNotes` | index.js:8-24 | the store starts with three notes whose ids are 1, 2, 3 in that order |
| `Notes.Ids` | index.js:28 | `notes.map(n => n.id)` has one entry per note, the id of the note at the same position |
| `Notes.MaxOf` | index.js:28 | `Math.max` over a non-empty list is an element of the list that no element exceeds |
| `Notes.GeneratedId` | index.js:27-30 | the generated id is 1 on an empty store, exceeds every stored id, and on a non-empty store is one more than an id that is present |
| `Notes.Find` | index.js:63 | lookup finds nothing exactly when no note has the id; otherwise it returns a note with that id that no earlier note's id matches (the first match) |
| `Notes.Remove` | index.js:93 | filtering never lengthens the list, and a note survives exactly when it was present and its id differs from the deleted one |
| `Notes.NewNote` | index.js:79-84 | the built note has the generated id, which no stored note has; the body's content; the clock reading as date; `important` is the body's own value when that is truthy and `false` otherwise (so false when absent, null, 0, empty or false; true when true), and truthy exactly when the body's is |
| `Notes.InitialNotesValid` | index.js:8-30 | the seeded notes have positive distinct ids and the first generated id after them is 4 |
| `Notes.CreatePreservesValid` | index.js:79-86 | appending the built note keeps ids positive and pairwise distinct |
| `Notes.RemovePreservesValid` | index.js:93 | filtering keeps ids positive and pairwise distinct |
| `Notes.RemoveConcat` | index.js:93 | filtering a concatenation is the concatenation of the filtered parts, so kept notes keep their relative order |
| `Notes.RemoveSingle` | index.js:93 | filtering a single note keeps it exactly when its id differs |
| `Notes.RemoveAbsent` | index.js:93 | deleting an id no note has leaves the list unchanged |
| `Notes.RemoveIdempotent` | index.js:91-96 | deleting the same id twice gives the same list as deleting it once |
| `Notes.RemoveExactlyOne` | index.js:93 | in a store with distinct ids, deleting a present id removes exactly one note |
| `Notes.FindAfterRemove` | index.js:61-96 | after a delete, looking up the deleted id finds nothing (404) |
| `Notes.FindAfterCreate` | index.js:61-89 | after a create, looking up the returned id finds exactly the created note |
| `Notes.RemoveMaxLeavesSmaller` | index.js:93 | after deleting the largest id, every remaining id is positive and below it |
| `Notes.KeptByRemove` | index.js:93 | a note whose id differs from the deleted one is still found after the delete |
| `Notes.ReuseAfterDeletingMax` | index.js:27-30 | after deleting the note with the largest id m, the next generated id is at most m, and equals m exactly when m is 1 or id m-1 is still present |
| `Notes.NoteStore.constructor` | index.js:8-24 | a new store holds the seeded notes and satisfies the id invariant |
| `Notes.NoteStore.Get` | index.js:61-71 | GET by id answers NotFound exactly when no note has the id, and otherwise the first note with that id |
| `Notes.NoteStore.Create` | index.js:72-89 | a falsy content answers ContentMissing and leaves `notes` unchanged; otherwise the built note (with the pre-call generated id) is returned and appended after all previous notes; the id invariant is kept |
| `Notes.NoteStore.Delete` | index.js:91-96 | `notes` becomes the filtered list and the id invariant is kept |
| `Notes.CreateReadDelete` | index.js:56-96 | on a fresh store, creating an important note gives id 4 with important true, reading it back returns it, and after deleting id 4 a read answers NotFound |
| `Notes.DeleteTopThenCreate` | index.js:27-93 | on a fresh store, deleting note 3 and then creating a note gives the new note id 3 again |

## Left out

- Express setup, routing, `express.json()`, `cors()`, `app.listen` and the `PORT`
  environment variable: transport plumbing, not store logic.
- `requestLogger`: installed as middleware, but it only writes the request to the console.
- `unknownEndpoint`: its installation is commented out, so it never runs.
- The `/` HTML route. The list route only answers with the `notes` field as it stands.
- `new Date()`: the clock is read outside the model and passed to `Create` as `now`.
- `Number(request.params.id)`: route ids are taken as integers, so the NaN a
  non-numeric id would produce (which matches no note) is not modelled.
- JSON serialisation and HTTP status codes: handlers answer with a `Note` or an `Error`
  (`ContentMissing` for 400, `NotFound` for 404); delete's empty 204 is the absence of a result.
- JavaScript numbers are doubles: ids are unbounded integers here, so the loss of
  precision past 2^53 is not modelled, and body numbers are reals without NaN, -0 or
  Infinity (JSON text has no NaN literal; -0 is falsy like 0; an overflowing literal
  parses to Infinity, which is truthy like any non-zero number).
- An update (PUT) route: this file defines none, so it is not part of this model.
