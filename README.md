# Todo list state machine

A model of the task-list screen of a React Native todo app (`App.js`). The
screen keeps four pieces of state: the ordered list of task records
`todos` (`{id, title, desc}`), the draft `input` (`{title, desc}`), the
flag `isEditing` and the target `editingId`. Five handlers move that state:
typing a title, typing a description, submitting the draft (add or update),
starting an edit and deleting a record. On start-up the list is loaded from
storage, falling back to an empty list.

Modules:

- `Wrappers`: `Option`, standing for a JavaScript value that may be `undefined`.
- `JsString`: `String.prototype.trim` over the ECMAScript WhiteSpace and
  LineTerminator characters, and the blank test `IsBlank` ("absent or
  whitespace only"), proved equal to the guard `x === undefined || x.trim() === ''`.
- `TodoList`: the record and draft datatypes, the `"None"` sentinel
  description, and the pure list transforms used by the handlers: the `map`
  that updates the record being edited (`UpdateById`) and the `filter` that
  deletes (`RemoveById`), with lemmas on order, identity when the id is
  absent, exactly-one-record effect under distinct ids, and preservation of
  distinct ids and filled descriptions.
- `App`: class `TodoApp` whose fields are the four state variables and whose
  methods are the handlers; each method states the whole state after the
  handler's setters have taken effect, and when the invariant
  `Consistent()` (distinct ids, filled descriptions, an active edit names a
  present record) holds afterwards. The title and description handlers,
  the delete handler and a refused or editing submission keep it
  unconditionally. The others keep it only under a condition the code
  itself does not check: an appending submission needs an id no record
  has yet; starting an edit needs the id to be in the list (the handler
  does no lookup); loading establishes it only when no edit is in progress
  and the parsed list has distinct ids and filled descriptions.
- `Scenarios`: client methods that drive `TodoApp` through add, edit and
  delete sequences and assert the resulting lists from the contracts alone.

Behaviour as the code has it, including where it departs from what one might expect of a todo list:

- Deleting only clears `isEditing` (App.js:141); `editingId` and the draft
  are left as they were.
- Starting an edit does not look the record up: the handler takes the
  record the list item passes it (App.js:114-130).
- The load fallback uses JavaScript truthiness, so a stored empty string
  also gives an empty list (App.js:49).
- Ids come from `Date.now()`, so nothing in the code makes them distinct;
  the model takes the id as a parameter and proves that distinct ids stay
  distinct whenever that id is new.
- When not editing and the description is blank, the handler writes the
  list twice (App.js:101 and App.js:106); both writes extend the same
  snapshot, so the second, with the `"None"` description, is the one that
  takes effect. The model writes that net result.

## Model

| member | source | states |
|---|---|---|
| JsString.TrimStart | App.js:75 | result is a suffix of the input, everything dropped is whitespace, and it does not start with whitespace |
| JsString.TrimEnd | App.js:75 | result is a prefix of the input, everything dropped is whitespace, and it does not end with whitespace |
| JsString.Trim | App.js:75 | `trim()` is empty exactly when the string is all whitespace; otherwise it starts and ends with a kept character |
| JsString.TrimIsSlice | App.js:75 | `trim()` is a contiguous slice of the string that starts where `TrimStart` starts, with only whitespace before it and only whitespace after it |
| JsString.IsBlankIsTrimGuard | App.js:75 | the validation guard (undefined, or `trim()` gives the empty string) holds exactly when the value is undefined or consists of whitespace only |
| TodoList.StoredDesc | App.js:81-107 | the description a submission stores is never blank: the sentinel when the draft's is absent or blank, the draft's own text otherwise |
| TodoList.DraftOf | App.js:114-130 | the draft loaded for editing carries the record's title; for a `"None"` record its description is absent, any other description is loaded as is |
| TodoList.EditRoundTrip | App.js:83-127 | starting an edit and submitting it untouched stores the record's own description again, sentinel included |
| TodoList.UpdateById | App.js:89-93 | same length, every record keeps its id and position, matching records get the new title and description, all others are identical |
| TodoList.UpdateByIdKeepsDistinct | App.js:89-93 | the update path keeps ids distinct |
| TodoList.UpdateByIdKeepsDescsFilled | App.js:83-93 | an update with a non-blank description keeps every description non-blank |
| TodoList.UpdateByIdAbsent | App.js:87-94 | when no record has the edited id, the list is unchanged and no record is created |
| TodoList.UpdateByIdUnique | App.js:89-93 | with distinct ids, exactly the record at the edited id's position is replaced, keeping its id |
| TodoList.RemoveById | App.js:139 | no surviving record has the deleted id, and the list never grows |
| TodoList.RemoveByIdMembers | App.js:139 | a record survives exactly when it was in the list and its id differs from the deleted id |
| TodoList.RemoveByIdAppend | App.js:139 | removal distributes over concatenation, so survivors keep their relative order |
| TodoList.RemoveByIdAbsent | App.js:139 | deleting an id no record has leaves the list unchanged |
| TodoList.RemoveByIdUnique | App.js:139 | with distinct ids, deleting the id of the record at position k gives the list without exactly that record |
| TodoList.RemoveByIdKeepsDistinct | App.js:139 | the delete path keeps ids distinct |
| TodoList.RemoveByIdKeepsDescsFilled | App.js:139 | the delete path keeps every description non-blank |
| TodoList.AppendKeepsConsistent | App.js:101-106 | appending a record with a new id and a filled description keeps ids distinct and descriptions filled |
| App.TodoApp.constructor | App.js:22-38 | initial state: empty list, draft `{title: '', desc: ''}`, not editing, no target |
| App.TodoApp.FetchTodos | App.js:47-50 | the list becomes the parsed stored list when the stored value is a non-empty string, the empty list otherwise; nothing else changes |
| App.TodoApp.HandleTitleChange | App.js:57-59 | only the draft's title is replaced |
| App.TodoApp.HandleDescChange | App.js:63-65 | only the draft's description is replaced |
| App.TodoApp.HandleAddTodo | App.js:70-110 | blank title: refused and nothing changes; not editing: exactly one record appended with the stored description; editing: the target updated in place and the edit closed; on success the draft is empty; the invariant is kept when the new id is fresh |
| App.TodoApp.HandleEditTodo | App.js:114-130 | list unchanged, the draft is the record's draft without the sentinel, editing on with the given id as target |
| App.TodoApp.HandleDeleteTodo | App.js:134-143 | the list loses every record with the id, survivors in order; editing off; target id and draft unchanged; the invariant is kept |

## Left out

- Rendering, styles and the list item component (App.js:144-245, components/TodoItem.js): presentation only; the item just passes `todo.id` and `todo` to the handlers.
- The loading splash (`isLoading`, `setTimeout`/`clearTimeout`, App.js:8-17): a timer with no data logic.
- Persistence: `AsyncStorage.getItem`/`setItem` and the write-through effect (App.js:39-53) are asynchronous I/O; `JSON.parse` is a foreign call, so `FetchTodos` receives the parsed list as a parameter and no serialisation round-trip is stated.
- `Keyboard.dismiss()` and `Alert.alert` are UI side effects; the alert is the `accepted == false` outcome of `HandleAddTodo`.
- `Date.now().toString()`: a clock read, passed in as `newId`; the two reads of the non-editing blank-description path are one parameter because only the second write survives.
- React's batching and scheduling of setters: each method states only the net state after its handler.
- The `true` that `handleEditTodo` returns in its sentinel branch: no caller uses it.
- Record fields of stored data that are not strings: loaded records are modelled as well-formed `{id, title, desc}` strings.
