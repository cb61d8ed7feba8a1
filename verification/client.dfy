/**
 The todo page's state and its event handlers. Every handler that talks to
 the server is one atomic transition: it reports the request it sends (or
 `None` when a local check stops it first) and takes the server's answer
 as a parameter, either the decoded response body or a failed request.
 The list changes only after the server confirmed, and only with the value
 the server sent back.
 */
module Client {
  import opened Entity
  import Text

  /** A title/description pair typed into a form. */
  datatype Draft = Draft(title: string, description: string)

  /** The form contents the page starts with and resets to. */
  const EmptyDraft := Draft("", "")

  /** The in-place edit slot: nothing in edit, or one todo with its
      working copy. */
  datatype EditState = Idle | Editing(id: Id, draft: Draft)

  /** The page state: the list as last confirmed by the server, the
      new-todo form, and the edit slot. */
  datatype State = State(todos: seq<Todo>, newTodo: Draft, edit: EditState)

  /** The state on first render. */
  const Init := State([], EmptyDraft, Idle)

  /** The answer to one request: a decoded body, or a rejected request
      (network error or error status). */
  datatype Outcome<T> = Ok(value: T) | Fail

  /** The requests the page issues: `GET /todos`, `POST /todos`,
      `PUT /todos/{id}` and `DELETE /todos/{id}`. */
  datatype Request =
    | GetAll
    | Post(input: TodoCreate)
    | Put(id: Id, upd: TodoUpdate)
    | Delete(id: Id)

  /** A handler's effect: the state afterwards and the request it sent. */
  datatype Step = Step(state: State, sent: Option<Request>)

  /** The body of a checkbox click on a todo shown as `completed`. */
  function ToggleBody(completed: bool): TodoUpdate {
    TodoUpdate(None, None, Some(!completed))
  }

  /** The body of a saved edit: both form fields, and no `completed`. */
  function EditBody(d: Draft): TodoUpdate {
    TodoUpdate(Some(d.title), Some(d.description), None)
  }

  // List helpers

  /** The list with every entry carrying identifier `id` replaced by `t`,
      in place. */
  function ReplaceById(ts: seq<Todo>, id: Id, t: Todo): (r: seq<Todo>)
    ensures |r| == |ts|
    ensures forall i :: 0 <= i < |ts| && ts[i].id == id ==> r[i] == t
    ensures forall i :: 0 <= i < |ts| && ts[i].id != id ==> r[i] == ts[i]
  {
    if |ts| == 0 then []
    else [if ts[0].id == id then t else ts[0]] + ReplaceById(ts[1..], id, t)
  }

  /** The list without the entries carrying identifier `id`, the others
      in their order. */
  function RemoveById(ts: seq<Todo>, id: Id): (r: seq<Todo>)
    ensures |r| <= |ts|
    ensures !HasId(r, id)
  {
    if |ts| == 0 then []
    else if ts[0].id == id then RemoveById(ts[1..], id)
    else [ts[0]] + RemoveById(ts[1..], id)
  }

  /** The completed entries of the list, in their order. */
  function Completed(ts: seq<Todo>): (r: seq<Todo>)
    ensures |r| <= |ts|
    ensures forall i :: 0 <= i < |r| ==> r[i].completed
  {
    if |ts| == 0 then []
    else Completed(ts[..|ts| - 1]) + (if ts[|ts| - 1].completed then [ts[|ts| - 1]] else [])
  }

  /** The "completed" figure of the header. */
  function CompletedCount(s: State): (n: nat)
    ensures n <= TotalCount(s)
  {
    |Completed(s.todos)|
  }

  /** The "total" figure of the header. */
  function TotalCount(s: State): nat {
    |s.todos|
  }

  // Handlers

  /** `fetchTodos`, run once on mount: a successful list replaces the whole
      list with the server's sequence as sent; a failure keeps it. */
  function FetchTodos(s: State, answer: Outcome<seq<Todo>>): (r: Step)
    ensures r.sent == Some(GetAll)
    ensures answer.Ok? ==> r.state.todos == answer.value
    ensures answer.Fail? ==> r.state == s
    ensures r.state.newTodo == s.newTodo && r.state.edit == s.edit
  {
    match answer
    case Ok(ts) => Step(s.(todos := ts), Some(GetAll))
    case Fail => Step(s, Some(GetAll))
  }

  /** `addTodo`: a blank title sends nothing and changes nothing; otherwise
      the form is posted, and a confirmed todo is appended and the form
      cleared, while a failure leaves list and form as they were. */
  function AddTodo(s: State, answer: Outcome<Todo>): (r: Step)
    ensures r.sent.None? <==> Text.IsBlank(s.newTodo.title)
    ensures r.sent.None? ==> r.state == s
    ensures r.sent.Some? ==>
              r.sent.value == Post(TodoCreate(s.newTodo.title, Some(s.newTodo.description)))
    ensures r.sent.Some? && answer.Ok? ==>
              && |r.state.todos| == |s.todos| + 1
              && r.state.todos[..|s.todos|] == s.todos
              && r.state.todos[|s.todos|] == answer.value
              && r.state.newTodo == EmptyDraft
              && r.state.edit == s.edit
    ensures answer.Fail? ==> r.state == s
  {
    if Text.IsBlank(s.newTodo.title) then Step(s, None)
    else
      var req := Post(TodoCreate(s.newTodo.title, Some(s.newTodo.description)));
      match answer
      case Ok(t) => Step(s.(todos := s.todos + [t], newTodo := EmptyDraft), Some(req))
      case Fail => Step(s, Some(req))
  }

  /** `toggleTodo(id, completed)`: asks for the opposite of the `completed`
      value shown; a confirmed answer replaces, in place, every entry with
      that id and nothing else. */
  function ToggleTodo(s: State, id: Id, completed: bool, answer: Outcome<Todo>): (r: Step)
    ensures r.sent == Some(Put(id, ToggleBody(completed)))
    ensures |r.state.todos| == |s.todos|
    ensures answer.Ok? ==> forall i :: 0 <= i < |s.todos| ==>
              r.state.todos[i] == (if s.todos[i].id == id then answer.value else s.todos[i])
    ensures answer.Fail? || !HasId(s.todos, id) ==> r.state.todos == s.todos
    ensures r.state.newTodo == s.newTodo && r.state.edit == s.edit
  {
    var req := Put(id, ToggleBody(completed));
    match answer
    case Ok(t) => Step(s.(todos := ReplaceById(s.todos, id, t)), Some(req))
    case Fail => Step(s, Some(req))
  }

  /** `deleteTodo(id)`: a confirmed delete drops every entry with that id
      and keeps the others in order; a failure keeps the list. */
  function DeleteTodo(s: State, id: Id, answer: Outcome<()>): (r: Step)
    ensures r.sent == Some(Delete(id))
    ensures answer.Ok? ==> !HasId(r.state.todos, id)
    ensures answer.Ok? ==> forall t :: t in r.state.todos <==> t in s.todos && t.id != id
    ensures answer.Fail? || !HasId(s.todos, id) ==> r.state.todos == s.todos
    ensures r.state.newTodo == s.newTodo && r.state.edit == s.edit
  {
    var req := Delete(id);
    match answer
    case Ok(_) =>
      RemoveAbsent(s.todos, id);
      RemoveKeepsOthers(s.todos, id);
      Step(s.(todos := RemoveById(s.todos, id)), Some(req))
    case Fail => Step(s, Some(req))
  }

  /** `startEdit(todo)`: opens the edit slot on `t` with a copy of its
      title and description, discarding any edit already open. */
  function StartEdit(s: State, t: Todo): (r: State)
    ensures r.edit.Editing? && r.edit.id == t.id
    ensures r.edit.draft == Draft(t.title, t.description)
    ensures r.todos == s.todos && r.newTodo == s.newTodo
  {
    s.(edit := Editing(t.id, Draft(t.title, t.description)))
  }

  /** The draft the edit form holds: the working copy while editing, the
      empty form otherwise. */
  function EditDraft(e: EditState): (d: Draft)
    ensures e.Idle? ==> d == EmptyDraft
  {
    match e
    case Idle => EmptyDraft
    case Editing(_, d) => d
  }

  /** `saveEdit`: a blank draft title (always so when nothing is in edit)
      sends nothing and stays put; otherwise the draft is sent, and a
      confirmed answer replaces the matching entries in place and closes
      the slot, while a failure keeps both the list and the open edit. */
  function SaveEdit(s: State, answer: Outcome<Todo>): (r: Step)
    ensures s.edit.Idle? ==> r.sent.None?
    ensures s.edit.Editing? ==> (r.sent.None? <==> Text.IsBlank(s.edit.draft.title))
    ensures r.sent.None? ==> r.state == s
    ensures r.sent.Some? ==> s.edit.Editing? && r.sent.value == Put(s.edit.id, EditBody(s.edit.draft))
    ensures r.sent.Some? && answer.Ok? ==>
              && r.state.edit == Idle
              && |r.state.todos| == |s.todos|
              && (forall i :: 0 <= i < |s.todos| ==>
                    r.state.todos[i] == (if s.todos[i].id == s.edit.id then answer.value else s.todos[i]))
    ensures answer.Fail? ==> r.state == s
    ensures r.state.newTodo == s.newTodo
  {
    match s.edit
    case Idle => Step(s, None)
    case Editing(id, d) =>
      if Text.IsBlank(d.title) then Step(s, None)
      else
        var req := Put(id, EditBody(d));
        match answer
        case Ok(t) => Step(s.(todos := ReplaceById(s.todos, id, t), edit := Idle), Some(req))
        case Fail => Step(s, Some(req))
  }

  /** `cancelEdit`: closes the edit slot and drops the draft. */
  function CancelEdit(s: State): (r: State)
    ensures r.edit == Idle && EditDraft(r.edit) == EmptyDraft
    ensures r.todos == s.todos && r.newTodo == s.newTodo
  {
    s.(edit := Idle)
  }

  /** Typing into the new-todo form changes that field only. */
  function SetNewTitle(s: State, title: string): (r: State)
    ensures r.newTodo == Draft(title, s.newTodo.description)
    ensures r.todos == s.todos && r.edit == s.edit
  {
    s.(newTodo := s.newTodo.(title := title))
  }

  function SetNewDescription(s: State, description: string): (r: State)
    ensures r.newTodo == Draft(s.newTodo.title, description)
    ensures r.todos == s.todos && r.edit == s.edit
  {
    s.(newTodo := s.newTodo.(description := description))
  }

  /** Typing into the edit form changes that field of the working copy
      only; the form exists only while a todo is in edit. */
  function SetEditTitle(s: State, title: string): (r: State)
    ensures s.edit.Editing? ==> r.edit == Editing(s.edit.id, Draft(title, s.edit.draft.description))
    ensures s.edit.Idle? ==> r == s
    ensures r.todos == s.todos && r.newTodo == s.newTodo
  {
    match s.edit
    case Idle => s
    case Editing(id, d) => s.(edit := Editing(id, d.(title := title)))
  }

  function SetEditDescription(s: State, description: string): (r: State)
    ensures s.edit.Editing? ==> r.edit == Editing(s.edit.id, Draft(s.edit.draft.title, description))
    ensures s.edit.Idle? ==> r == s
    ensures r.todos == s.todos && r.newTodo == s.newTodo
  {
    match s.edit
    case Idle => s
    case Editing(id, d) => s.(edit := Editing(id, d.(description := description)))
  }

  // Properties of the list helpers

  /** Filtering out an identifier nobody carries changes nothing. */
  lemma {:induction false} RemoveAbsent(ts: seq<Todo>, id: Id)
    ensures !HasId(ts, id) ==> RemoveById(ts, id) == ts
  {
    if |ts| > 0 && !HasId(ts, id) {
      RemoveAbsent(ts[1..], id);
    }
  }

  /** The filter keeps exactly the entries with another identifier. */
  lemma {:induction false} RemoveKeepsOthers(ts: seq<Todo>, id: Id)
    ensures forall t :: t in RemoveById(ts, id) <==> t in ts && t.id != id
  {
    if |ts| > 0 {
      RemoveKeepsOthers(ts[1..], id);
      assert forall t :: t in ts <==> t == ts[0] || t in ts[1..];
    }
  }

  /** Filtering distributes over concatenation, so the survivors keep
      their relative order. */
  lemma {:induction false} RemoveAppend(a: seq<Todo>, b: seq<Todo>, id: Id)
    ensures RemoveById(a + b, id) == RemoveById(a, id) + RemoveById(b, id)
  {
    if |a| == 0 {
      assert a + b == b;
    } else {
      assert (a + b)[0] == a[0] && (a + b)[1..] == a[1..] + b;
      RemoveAppend(a[1..], b, id);
    }
  }

  /** With unique identifiers, a filter by the identifier of entry `k`
      removes exactly that entry, so the list shrinks by one exactly when
      the identifier was present. */
  lemma RemoveUnique(ts: seq<Todo>, id: Id)
    requires UniqueIds(ts)
    ensures HasId(ts, id) ==>
              (exists k :: 0 <= k < |ts| && ts[k].id == id && RemoveById(ts, id) == ts[..k] + ts[k + 1..])
    ensures |RemoveById(ts, id)| == |ts| - 1 <==> HasId(ts, id)
  {
    RemoveAbsent(ts, id);
    if HasId(ts, id) {
      var k :| 0 <= k < |ts| && ts[k].id == id;
      RemoveAt(ts, id, k);
    }
  }

  /** The positional form of `RemoveUnique`. */
  lemma {:induction false} RemoveAt(ts: seq<Todo>, id: Id, k: nat)
    requires UniqueIds(ts) && k < |ts| && ts[k].id == id
    ensures RemoveById(ts, id) == ts[..k] + ts[k + 1..]
  {
    if k == 0 {
      RemoveAbsent(ts[1..], id);
    } else {
      var tail := ts[1..];
      assert UniqueIds(tail) by {
        forall i, j | 0 <= i < j < |tail|
          ensures tail[i].id != tail[j].id
        {
          assert tail[i] == ts[i + 1] && tail[j] == ts[j + 1];
        }
      }
      RemoveAt(tail, id, k - 1);
      assert ts[..k] == [ts[0]] + tail[..k - 1];
      assert ts[k + 1..] == tail[k..];
    }
  }

  /** With unique identifiers, the map by identifier is a single update
      at the position of that identifier. */
  lemma ReplaceUnique(ts: seq<Todo>, id: Id, t: Todo, k: nat)
    requires UniqueIds(ts) && k < |ts| && ts[k].id == id
    ensures ReplaceById(ts, id, t) == ts[k := t]
  {
  }

  /** The completed filter keeps exactly the completed entries. */
  lemma {:induction false} CompletedKeepsCompleted(ts: seq<Todo>)
    ensures forall t :: t in Completed(ts) <==> t in ts && t.completed
  {
    if |ts| > 0 {
      var n := |ts| - 1;
      CompletedKeepsCompleted(ts[..n]);
      assert ts == ts[..n] + [ts[n]];
    }
  }

  /** Mapping over an identifier nobody carries changes nothing. */
  lemma ReplaceAbsent(ts: seq<Todo>, id: Id, t: Todo)
    requires !HasId(ts, id)
    ensures ReplaceById(ts, id, t) == ts
  {
  }

  /** The positions of `ts` that hold a completed todo. */
  function CompletedPositions(ts: seq<Todo>): set<nat> {
    set i: nat | i < |ts| && ts[i].completed
  }

  /** The completed count is the number of positions holding a completed
      todo. */
  lemma {:induction false} CompletedCountsPositions(ts: seq<Todo>)
    ensures |Completed(ts)| == |CompletedPositions(ts)|
  {
    if |ts| > 0 {
      var n := |ts| - 1;
      CompletedCountsPositions(ts[..n]);
      PositionsOfLast(ts);
    }
  }

  /** The positions of `ts` are those of its front plus, when its last
      entry is completed, the last position. */
  lemma PositionsOfLast(ts: seq<Todo>)
    requires |ts| > 0
    ensures var n := |ts| - 1;
            CompletedPositions(ts) == CompletedPositions(ts[..n]) + (if ts[n].completed then {n} else {})
            && n !in CompletedPositions(ts[..n])
  {
    var n := |ts| - 1;
    var front := ts[..n];
    forall i: nat
      ensures i in CompletedPositions(ts) <==> i in CompletedPositions(front) + (if ts[n].completed then {n} else {})
    {
      if i < n {
        assert front[i] == ts[i];
      }
    }
  }

  // Properties of the edit slot

  /** Only the last `startEdit` counts. */
  lemma LastStartEditWins(s: State, a: Todo, b: Todo)
    ensures StartEdit(StartEdit(s, a), b) == StartEdit(s, b)
  {
  }

  /** Opening and cancelling an edit, whatever was typed in between,
      brings the page back to `s` with the slot closed. */
  lemma CancelAfterEditRestores(s: State, t: Todo, title: string, description: string)
    ensures CancelEdit(SetEditDescription(SetEditTitle(StartEdit(s, t), title), description))
              == s.(edit := Idle)
  {
  }
}
