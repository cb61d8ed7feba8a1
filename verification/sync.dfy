/**
 The page and the server together. When the page's list shows the stored
 collection and identifiers are unique, every handler, fed the answer the
 server actually gives to the request the handler sent, leaves the page
 showing the collection again, with identifiers still unique. "Shows" is
 equality up to the sub-millisecond digits of timestamps: a created
 record reaches the page as the server built it, but the collection keeps
 its timestamps to the millisecond.
 */
module Sync {
  import opened Entity
  import Server
  import Client

  /** Entry by entry, the page holds the stored records, each possibly
      with timestamps finer than the collection keeps. */
  predicate Shows(page: seq<Todo>, store: Server.Store) {
    |page| == |store| && forall i :: 0 <= i < |page| ==> Server.Stored(page[i]) == store[i]
  }

  /** The page shows the stored collection, in store order; the
      collection holds only stored-form records, and no identifier occurs
      twice. */
  predicate Coherent(s: Client.State, store: Server.Store) {
    Shows(s.todos, store) && Server.AllStored(store) && UniqueIds(store)
  }

  /** A page that shows a store carries the store's identifiers, position
      by position, so they are unique on the page too. */
  lemma ShowsSameIds(page: seq<Todo>, store: Server.Store)
    requires Shows(page, store)
    ensures forall i :: 0 <= i < |page| ==> page[i].id == store[i].id
    ensures UniqueIds(store) ==> UniqueIds(page)
    ensures forall id :: HasId(page, id) <==> HasId(store, id)
  {
    assert forall i :: 0 <= i < |page| ==> page[i].id == Server.Stored(page[i]).id;
  }

  /** The answer the page receives to an update: the record the server
      sent back, or, for an identifier the server does not know, whatever
      the error response turns into (`missing`). */
  function UpdateAnswer(body: Option<Todo>, missing: Client.Outcome<Todo>): Client.Outcome<Todo> {
    match body
    case Some(t) => Client.Ok(t)
    case None => missing
  }

  /** Loading on mount shows the whole collection while it fits in one
      list response. */
  lemma MountShowsStore(store: Server.Store)
    requires UniqueIds(store) && Server.AllStored(store) && |store| <= Server.ListLimit
    ensures var step := Client.FetchTodos(Client.Init, Client.Ok(Server.GetTodos(store)));
            step.sent == Some(Client.GetAll) && step.state.todos == store && Coherent(step.state, store)
  {
    assert forall i :: 0 <= i < |store| ==> Server.IsStored(store[i]);
  }

  /** Adding: the page posts its form, the server stores the record under
      a fresh identifier, and the page appends the record the server sent
      back, which the collection holds to the millisecond. */
  lemma AddKeepsCoherent(s: Client.State, store: Server.Store, freshId: Id, now: Timestamp)
    requires Coherent(s, store) && !HasId(store, freshId)
    ensures var input := TodoCreate(s.newTodo.title, Some(s.newTodo.description));
            var reply := Server.CreateTodo(store, input, freshId, now);
            var step := Client.AddTodo(s, Client.Ok(reply.body));
            && (step.sent.Some? ==>
                  step.sent.value == Client.Post(input) && Coherent(step.state, reply.store))
            && (step.sent.None? ==> Coherent(step.state, store))
  {
    var input := TodoCreate(s.newTodo.title, Some(s.newTodo.description));
    Server.CreateKeepsIdsUnique(store, input, freshId, now);
  }

  /** Any update the server answers keeps the page showing the store: a
      known identifier is replaced at its one position on both sides; an
      unknown one changes neither, whatever the page makes of the error. */
  lemma UpdateKeepsCoherent(
    s: Client.State, store: Server.Store, id: Id, upd: TodoUpdate, now: Timestamp,
    missing: Client.Outcome<Todo>)
    requires Coherent(s, store)
    ensures var reply := Server.UpdateTodo(store, id, upd, now);
            var answer := UpdateAnswer(reply.body, missing);
            && UniqueIds(reply.store) && Server.AllStored(reply.store)
            && (answer.Ok? ==> Shows(Client.ReplaceById(s.todos, id, answer.value), reply.store))
            && (reply.body.None? ==> reply.store == store)
            && (reply.body.None? && answer.Ok? ==> Client.ReplaceById(s.todos, id, answer.value) == s.todos)
  {
    var reply := Server.UpdateTodo(store, id, upd, now);
    Server.UpdateKeepsIdsUnique(store, id, upd, now);
    ShowsSameIds(s.todos, store);
    match Server.FindIndex(store, id)
    case Some(k) =>
      Client.ReplaceUnique(s.todos, id, reply.body.value, k);
      assert Server.IsStored(reply.store[k]);
    case None =>
      if UpdateAnswer(reply.body, missing).Ok? {
        Client.ReplaceAbsent(s.todos, id, missing.value);
      }
  }

  /** Toggling a todo keeps the page showing the store. */
  lemma ToggleKeepsCoherent(
    s: Client.State, store: Server.Store, id: Id, completed: bool, now: Timestamp,
    missing: Client.Outcome<Todo>)
    requires Coherent(s, store)
    ensures var reply := Server.UpdateTodo(store, id, Client.ToggleBody(completed), now);
            var step := Client.ToggleTodo(s, id, completed, UpdateAnswer(reply.body, missing));
            step.sent == Some(Client.Put(id, Client.ToggleBody(completed)))
            && Coherent(step.state, reply.store)
  {
    UpdateKeepsCoherent(s, store, id, Client.ToggleBody(completed), now, missing);
  }

  /** Saving an edit keeps the page showing the store, and a save the
      server confirmed closes the edit slot. */
  lemma SaveEditKeepsCoherent(s: Client.State, store: Server.Store, now: Timestamp, missing: Client.Outcome<Todo>)
    requires Coherent(s, store) && s.edit.Editing?
    ensures var reply := Server.UpdateTodo(store, s.edit.id, Client.EditBody(s.edit.draft), now);
            var step := Client.SaveEdit(s, UpdateAnswer(reply.body, missing));
            && (step.sent.None? ==> Coherent(step.state, store))
            && (step.sent.Some? ==> Coherent(step.state, reply.store))
            && (step.sent.Some? && reply.body.Some? ==> step.state.edit == Client.Idle)
  {
    UpdateKeepsCoherent(s, store, s.edit.id, Client.EditBody(s.edit.draft), now, missing);
  }

  /** Deleting keeps the page showing the store. The delete endpoint
      answers with a success status whether or not a record went (its
      not-found case is a plain JSON body), so the page applies its filter
      in both cases, and the filter drops the one record the server
      dropped. */
  lemma DeleteKeepsCoherent(s: Client.State, store: Server.Store, id: Id)
    requires Coherent(s, store)
    ensures var reply := Server.DeleteTodo(store, id);
            var step := Client.DeleteTodo(s, id, Client.Ok(()));
            step.sent == Some(Client.Delete(id)) && Coherent(step.state, reply.store)
  {
    Server.DeleteKeepsIdsUnique(store, id);
    ShowsSameIds(s.todos, store);
    Client.RemoveAbsent(s.todos, id);
    if HasId(store, id) {
      var k := Server.FindIndex(store, id).value;
      Client.RemoveAt(s.todos, id, k);
      ShowsWithout(s.todos, store, k);
    }
  }

  /** Dropping position `k` on both sides keeps the page showing the
      store. */
  lemma ShowsWithout(page: seq<Todo>, store: Server.Store, k: nat)
    requires Shows(page, store) && k < |store|
    ensures Shows(page[..k] + page[k + 1..], store[..k] + store[k + 1..])
  {
    var page' := page[..k] + page[k + 1..];
    var store' := store[..k] + store[k + 1..];
    forall i | 0 <= i < |page'|
      ensures Server.Stored(page'[i]) == store'[i]
    {
      var j := if i < k then i else i + 1;
      assert page'[i] == page[j] && store'[i] == store[j];
    }
  }

  /** The page and the server side by side. */
  datatype World = World(page: Client.State, store: Server.Store)

  /** A click on the checkbox of the `k`-th todo shown: the page sends the
      opposite of the value it shows, the server applies it, and the page
      takes in the answer. */
  function ClickCheckbox(w: World, k: nat, now: Timestamp): World
    requires k < |w.page.todos|
  {
    var t := w.page.todos[k];
    var reply := Server.UpdateTodo(w.store, t.id, Client.ToggleBody(t.completed), now);
    World(Client.ToggleTodo(w.page, t.id, t.completed, UpdateAnswer(reply.body, Client.Fail)).state, reply.store)
  }

  /** The record a checkbox click leaves behind on the server. */
  function Flipped(t: Todo, now: Timestamp): Todo {
    t.(completed := !t.completed, updatedAt := Server.ToMillis(now))
  }

  /** One click flips `completed` and stamps `updatedAt` on that record
      only, and the page still shows the store. */
  lemma ClickFlips(w: World, k: nat, now: Timestamp)
    requires Coherent(w.page, w.store) && k < |w.store|
    ensures var w' := ClickCheckbox(w, k, now);
            w'.store == w.store[k := Flipped(w.store[k], now)] && Coherent(w'.page, w'.store)
  {
    var t := w.page.todos[k];
    ShowsSameIds(w.page.todos, w.store);
    assert t.completed == Server.Stored(t).completed;
    Server.FindUnique(w.store, k);
    ToggleKeepsCoherent(w.page, w.store, t.id, t.completed, now, Client.Fail);
  }

  /** Clicking a todo's checkbox twice restores `completed`; the only
      trace left on the record is the `updatedAt` of the second update,
      and the page still shows the store. */
  lemma ToggleTwiceRestores(w: World, k: nat, now1: Timestamp, now2: Timestamp)
    requires Coherent(w.page, w.store) && k < |w.store|
    ensures var w2 := ClickCheckbox(ClickCheckbox(w, k, now1), k, now2);
            && w2.store == w.store[k := w.store[k].(updatedAt := Server.ToMillis(now2))]
            && Coherent(w2.page, w2.store)
  {
    var t := w.store[k];
    ClickFlips(w, k, now1);
    var w1 := ClickCheckbox(w, k, now1);
    assert w1.store[k] == Flipped(t, now1);
    ClickFlips(w1, k, now2);
    assert Flipped(Flipped(t, now1), now2) == t.(updatedAt := Server.ToMillis(now2));
    OverwriteTwice(w.store, k, Flipped(t, now1), t.(updatedAt := Server.ToMillis(now2)));
  }

  /** A second write to position `k` hides the first. Stated apart so
      that the proof above reasons about two abstract writes rather than
      two unfolded clicks. */
  lemma OverwriteTwice(ts: seq<Todo>, k: nat, a: Todo, b: Todo)
    requires k < |ts|
    ensures ts[k := a][k := b] == ts[k := b]
  {
  }

  /** Deleting and then listing shows no record with that identifier. */
  lemma DeleteThenListOmits(store: Server.Store, id: Id)
    requires UniqueIds(store)
    ensures !HasId(Server.GetTodos(Server.DeleteTodo(store, id).store), id)
  {
    Server.DeleteKeepsIdsUnique(store, id);
  }

  /** Adding and then listing shows the new record as stored, last, not
      completed, with the title typed, as long as the collection had room
      in one list. */
  lemma AddThenListShows(store: Server.Store, input: TodoCreate, freshId: Id, now: Timestamp)
    requires |store| < Server.ListLimit
    ensures var reply := Server.CreateTodo(store, input, freshId, now);
            var listed := Server.GetTodos(reply.store);
            && |listed| == |store| + 1
            && listed[|store|] == Server.Stored(reply.body)
            && listed[|store|].title == input.title
            && !listed[|store|].completed
  {
  }
}
