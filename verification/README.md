# Todo list: page state machine and server store

A Dafny model of the two halves of a single-user todo list application:

- **the page** (`TodoApp` React component): the list of todos as last
  confirmed by the server, the new-todo form, and a one-slot edit session
  (`Idle` or `Editing(id, draft)`). Each event handler is a pure transition
  that reports the request it sends (or none, when the blank-title check
  stops it) and takes the server's answer as a parameter: `Ok(body)` or
  `Fail`. The list changes only after a confirmed answer, and only with the
  value the server sent back.
- **the server** (FastAPI endpoints over a MongoDB collection): the
  collection is a sequence of records in natural order, and the five todo
  endpoints (create, list, get, update, delete) are functions from a store
  to a new store and a response body. Fresh identifiers and the clock are
  parameters. Natural order is taken to be insertion order (see
  "## Left out"). Instants are integers in microseconds, the resolution of a
  Python `datetime`. The collection writes them as BSON dates, which keep
  whole milliseconds, so a stored timestamp is the instant rounded down to
  the millisecond (`Server.ToMillis`, `Server.Stored`).

A third module puts the two together. The page *shows* the store when it
holds the stored records in store order, each up to the sub-millisecond
digits of its timestamps (`Sync.Shows`). This slack is needed because
`POST /todos` answers with the record as built, microseconds included,
while the collection keeps the rounded copy. Suppose the page shows the
store, the store holds only rounded records, and identifiers are unique.
Then every handler, given the answer the server really gives to the
request that handler sent, keeps this so. Clicking a checkbox twice
restores `completed`.

Files: `text.dfy` (the `trim` used by the blank-title check), `entity.dfy`
(the `Todo` record and request bodies), `server.dfy`, `client.dfy`,
`sync.dfy`.

Where the obvious reading and the code differ, the model follows the code:

- The server performs no title validation. Empty titles are stored. Only
  the page refuses blank titles, before sending anything.
- `toggleTodo` takes the `completed` value from the row that was clicked.
  It does not look the todo up in the list, and it sends the request even
  if the identifier is not in the list.
- `DELETE /todos/{id}` has no response model. For an unknown identifier it
  returns the error as a normal JSON body with a success status. The page
  therefore treats that case as a successful delete. Its filter then
  removes nothing (`Sync.DeleteKeepsCoherent`).
- `GET /todos` returns at most 1000 records.
- Failures are only logged to the console. No error reaches the user. In
  the model, a failed request leaves the state exactly as it was.
- An update that writes at least one field also sets `updated_at`. So two
  toggles restore every field except `updatedAt`.
- An update with no fields writes nothing at all, not even `updated_at`.
- After an add, the page's new entry carries the create response's
  microsecond timestamps. The collection, and so every later list or
  update response, has them rounded down to the millisecond. Page and
  store are therefore equal only up to that rounding.

## Model

| member | source | states |
|---|---|---|
| `Text.Trim` | frontend/src/components/TodoApp.jsx:36 | `trim` returns the slice between leading and trailing whitespace. Everything cut off is whitespace. A non-empty result starts and ends with a non-whitespace character. The result is empty exactly when the title is all whitespace. |
| `Text.BlankIffAllWhitespace` | frontend/src/components/TodoApp.jsx:36 | A title is refused exactly when it is all whitespace. The empty title is refused. A title with any visible character is accepted. |
| `Server.FindIndex` | backend/server.py:87 | The `{"id": id}` filter selects the first record with that id. It selects none exactly when no record has the id. |
| `Server.FindOne` | backend/server.py:99-102 | `find_one` returns a stored record with that id, or nothing exactly when the id is unknown. With unique ids it returns the only record with that id. |
| `Server.FindUnique` | backend/server.py:87 | With unique ids, the id of entry `k` selects entry `k`. |
| `Server.ToMillis` | backend/server.py:77 | A BSON date keeps an instant rounded down to a whole millisecond: the result is a multiple of 1000, at most the instant, and less than 1000 below it. |
| `Server.Stored` | backend/server.py:77 | `insert_one` writes a record with its timestamps rounded down to the millisecond, and every other field as it is. A record already in that form is written unchanged. |
| `Server.CreateTodo` | backend/server.py:73-78 | The store grows by exactly one record, appended at the end: the stored form of the response. The response has the fresh id and the input title. Its description is the given one, or `""` when omitted. It is not completed, and both timestamps are the creation instant. A store of rounded records stays so. |
| `Server.GetTodos` | backend/server.py:80-83 | The response lists the stored records in store order. It is a prefix of the store, at most 1000 long. It is the whole store whenever the store fits. |
| `Server.GetTodo` | backend/server.py:85-90 | The response is a stored record with the requested id. It is not-found exactly when the id is unknown. |
| `Server.UpdateData` | backend/server.py:94-96 | The `$set` document is empty exactly when every field of the update is `None`. Otherwise it ends with `updated_at := now`, which the collection rounds to the millisecond when it applies the document. |
| `Server.SetFields` | backend/server.py:97 | `$set` never changes `id` or `createdAt`. A field that the document does not name keeps its value. |
| `Server.SetFieldsAppend` | backend/server.py:97 | Applying a document in two parts equals applying it whole. |
| `Server.Merge` | backend/server.py:93-97 | Partial-merge semantics. Each non-`None` field takes the new value and each `None` field keeps the old one. `updatedAt` moves to `now`, rounded down to the millisecond, only if some field was given. `id` and `createdAt` never change. An all-`None` update returns the record unchanged. A rounded record stays rounded. |
| `Server.MergeFieldByField` | backend/server.py:94-97 | Applying the `$set` document yields the per-field merge. |
| `Server.UpdateOne` | backend/server.py:97 | `update_one` rewrites only the first matching record and keeps every id in place. With no match the store is unchanged. |
| `Server.UpdateTodo` | backend/server.py:92-102 | For an unknown id: store unchanged, not-found response. For an all-`None` update: store unchanged. Otherwise the first match is replaced by its merge, and the response is the record as now stored. Length and ids are preserved position by position. A store of rounded records stays so. |
| `Server.DeleteOne` | backend/server.py:106 | `delete_one` removes at most one record, the first match. The count is 1 exactly when the id was present. |
| `Server.DeleteTodo` | backend/server.py:104-109 | Reports success exactly when a record was deleted. The store then loses just that record, and the others keep their order. For an unknown id the store is unchanged and the response is not-found. A store of rounded records stays so. |
| `Server.CreateKeepsIdsUnique` | backend/server.py:73-78 | Creating keeps ids unique exactly when the new id is fresh. |
| `Server.UpdateKeepsIdsUnique` | backend/server.py:50-53 | Updates keep ids unique, since no update field can touch `id`. |
| `Server.DeleteKeepsIdsUnique` | backend/server.py:104-109 | Deleting keeps ids unique. Afterwards no record has the deleted id. |
| `Client.ReplaceById` | frontend/src/components/TodoApp.jsx:51 | The map keeps the length. Entries with the id become the answer, and every other entry is unchanged in place. |
| `Client.ReplaceUnique` | frontend/src/components/TodoApp.jsx:51 | With unique ids, the map is a single in-place write at the position of that id. |
| `Client.ReplaceAbsent` | frontend/src/components/TodoApp.jsx:51 | The map over an id no entry has leaves the list unchanged. |
| `Client.RemoveById` | frontend/src/components/TodoApp.jsx:60 | After the filter, no entry has the id, and the list is no longer than before. |
| `Client.RemoveKeepsOthers` | frontend/src/components/TodoApp.jsx:60 | The filter keeps exactly the entries that have another id. |
| `Client.RemoveAppend` | frontend/src/components/TodoApp.jsx:60 | The filter distributes over concatenation, so survivors keep their relative order. |
| `Client.RemoveAbsent` | frontend/src/components/TodoApp.jsx:60 | The filter over an id no entry has leaves the list unchanged. |
| `Client.RemoveAt` | frontend/src/components/TodoApp.jsx:60 | With unique ids, the filter removes exactly the entry at the position of that id. |
| `Client.RemoveUnique` | frontend/src/components/TodoApp.jsx:57-63 | With unique ids, a delete shortens the list by one exactly when the id was present. It removes exactly that entry. |
| `Client.Completed` | frontend/src/components/TodoApp.jsx:89 | The completed filter holds only completed entries and is no longer than the list. |
| `Client.CompletedKeepsCompleted` | frontend/src/components/TodoApp.jsx:89 | The completed filter keeps exactly the completed entries. |
| `Client.CompletedCountsPositions` | frontend/src/components/TodoApp.jsx:89 | The completed count equals the number of positions that hold a completed todo. |
| `Client.CompletedCount` | frontend/src/components/TodoApp.jsx:89-90 | The completed count never exceeds the total count. |
| `Client.FetchTodos` | frontend/src/components/TodoApp.jsx:26-33 | Sends the list request. On success the list becomes exactly the server's sequence. On failure nothing changes. The forms are untouched either way. |
| `Client.AddTodo` | frontend/src/components/TodoApp.jsx:35-46 | Sends nothing, and changes nothing, exactly when the title is blank. Otherwise it posts the form. On success the old list is kept as a prefix and the returned todo is appended, the length grows by one, and the form resets. On failure nothing changes. |
| `Client.ToggleTodo` | frontend/src/components/TodoApp.jsx:48-55 | Requests `completed = !shown` and nothing else. On success, entries with the id are replaced in place and the rest is untouched. On failure, or for an id not in the list, the list is unchanged. |
| `Client.DeleteTodo` | frontend/src/components/TodoApp.jsx:57-64 | Sends the delete. On success the list loses exactly the entries with the id. On failure, or for an id not in the list, it is unchanged. |
| `Client.StartEdit` | frontend/src/components/TodoApp.jsx:66-69 | Enters `Editing` on the todo's id, with a draft copied from its title and description. The list is untouched. |
| `Client.LastStartEditWins` | frontend/src/components/TodoApp.jsx:66-69 | A second `startEdit` discards the first. |
| `Client.SaveEdit` | frontend/src/components/TodoApp.jsx:71-82 | When nothing is in edit, or the draft title is blank, it sends nothing and changes nothing. Otherwise it sends the draft's title and description. On success the matching entries are replaced in place and the slot returns to `Idle`. On failure the list and the open edit are kept. |
| `Client.CancelEdit` | frontend/src/components/TodoApp.jsx:84-87 | Returns to `Idle` with the empty draft. The list is untouched. |
| `Client.CancelAfterEditRestores` | frontend/src/components/TodoApp.jsx:84-87 | Starting an edit, typing anything, then cancelling leaves the page as it was, with the slot `Idle`. |
| `Client.SetNewTitle` | frontend/src/components/TodoApp.jsx:139 | Typing a title into the new-todo form changes only that field. |
| `Client.SetNewDescription` | frontend/src/components/TodoApp.jsx:145 | Typing a description into the new-todo form changes only that field. |
| `Client.SetEditTitle` | frontend/src/components/TodoApp.jsx:190 | Typing a title into the edit form changes only that field of the draft. The todo list is untouched. |
| `Client.SetEditDescription` | frontend/src/components/TodoApp.jsx:195 | Typing a description into the edit form changes only that field of the draft. The todo list is untouched. |
| `Sync.ShowsSameIds` | frontend/src/components/TodoApp.jsx:51 | A page that shows a store has the store's ids position by position. So the page holds an id exactly when the store does, and its ids are unique when the store's are. |
| `Sync.MountShowsStore` | frontend/src/components/TodoApp.jsx:22-33 | The first load puts exactly the stored records on the page, whenever they fit in one list response. |
| `Sync.AddKeepsCoherent` | frontend/src/components/TodoApp.jsx:39-40 | The page posts its form, and the server stores the new todo under a fresh id. The page appends the response, which carries microseconds. It still shows the store, which holds the rounded copy, and ids stay unique. |
| `Sync.UpdateKeepsCoherent` | backend/server.py:92-102 | Any update keeps the page showing the store, with unique ids and rounded records. For an unknown id, neither side changes, whatever answer the page gets. |
| `Sync.ToggleKeepsCoherent` | frontend/src/components/TodoApp.jsx:50-51 | A checkbox click keeps the page and the store coherent. |
| `Sync.SaveEditKeepsCoherent` | frontend/src/components/TodoApp.jsx:75-78 | Saving an edit keeps the page and the store coherent. A confirmed save closes the edit slot. |
| `Sync.DeleteKeepsCoherent` | backend/server.py:104-109 | A delete keeps the page and the store coherent, whether or not the id existed. |
| `Sync.ShowsWithout` | frontend/src/components/TodoApp.jsx:60 | Dropping the same position from the page and the store keeps the page showing the store. |
| `Sync.ClickFlips` | frontend/src/components/TodoApp.jsx:48-54 | One click flips `completed` on that record only, and stamps its `updatedAt` with the click's instant rounded to the millisecond. The page still shows the store. |
| `Sync.ToggleTwiceRestores` | backend/server.py:93-97 | Two clicks restore `completed`. Every field except `updatedAt` is as before, `updatedAt` is the second click's instant rounded to the millisecond, and the page still shows the store. |
| `Sync.DeleteThenListOmits` | backend/server.py:104-109 | After a delete, the list response has no record with that id. |
| `Sync.AddThenListShows` | backend/server.py:73-83 | After a create, the list response ends with the stored form of the new record, with its title and not completed, whenever the store had room. |

## Left out

- Rendering, styling, icons, date formatting and the add dialog's open
  flag (`isAddDialogOpen`). These are presentation only.
- HTTP transport, the base URL configuration and console logging. A
  request's result is the `Outcome` parameter of each handler.
- MongoDB and motor, dotenv, CORS, logging setup, the shutdown hook and the
  status-check endpoints. These are I/O and framework plumbing.
- `uuid4` and `datetime.utcnow`. Both are parameters of the server
  operations, and the uniqueness lemmas require the new id to be fresh.
  Instants are integers in microseconds.
- `Server.CreateTodo` takes one instant for both `createdAt` and
  `updatedAt`. The source evaluates two default factories a moment apart.
- Pydantic request validation is not modelled. Examples are a missing
  title, a wrong JSON type, or `null` for a field with a default. Request
  bodies are taken as already decoded.
- `Server.CreateTodo`, `Server.GetTodos`: the collection's natural order
  is taken to be insertion order, and updates do not change it. So an
  insert appends, and the unsorted `find()` lists records in that order.
  MongoDB does not promise any order for a query without `sort()`. The
  position-by-position agreement in `Sync.AddKeepsCoherent`, and the last
  position in `Sync.AddThenListShows`, rest on this assumption.
- Re-decoding stored documents as `Todo` is taken to be the identity.
  The only change storage makes is the millisecond rounding of
  timestamps, which `Server.Stored` models.
- The HTTP status of the not-found bodies of get and update. It depends on
  response validation that the source does not show. The page's answer in
  that case is the `missing` parameter of the `Sync` lemmas, which hold for
  every value of it.
- Concurrency. Each handler is one atomic step. Interleaved requests and
  stale list captures in the page's closures are not modelled.
- JavaScript strings are UTF-16. The model treats a title as a sequence of
  code points. No whitespace character lies outside the Basic Multilingual
  Plane, so `trim` behaves the same either way.
- The edit-form setters are no-ops when nothing is in edit. The source
  renders that form only while a todo is in edit.
- `Client.DeleteTodo`: its contract states which entries remain, not their
  order. `Client.RemoveAppend` and `Client.RemoveUnique` state the order.
- `Client.SaveEdit`: when nothing is in edit it sends nothing. The source
  behaves the same only because its draft is then always empty.
