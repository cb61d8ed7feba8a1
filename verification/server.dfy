/**
 The server's todo endpoints over the `todos` collection. The collection is
 a sequence in its natural order, which the model takes to be insertion
 order, left alone by updates (an assumption: an unsorted query does not
 promise any order). Lookups, updates and deletes by identifier act on the
 first record whose `id` matches. Fresh identifiers
 and the clock are parameters. Timestamps are written as BSON dates, which
 keep whole milliseconds, so what the collection holds can differ from the
 instants the server computed.
 */
module Server {
  import opened Entity

  type Store = seq<Todo>

  /** `to_list(1000)`: the most records one list request returns. */
  const ListLimit: nat := 1000

  /** A new store together with the endpoint's response body. */
  datatype Reply<T> = Reply(store: Store, body: T)

  /** What the delete endpoint answers: the success message, or the
      "Todo not found" error body. */
  datatype DeleteStatus = Deleted | NotFound

  /** An instant as a BSON date keeps it: rounded down to a whole
      millisecond. */
  function ToMillis(at: Timestamp): (r: Timestamp)
    ensures r <= at < r + 1000
    ensures r % 1000 == 0
  {
    at - at % 1000
  }

  /** Both timestamps of `t` are whole milliseconds, as in every record
      read back from the collection. */
  predicate IsStored(t: Todo) {
    t.createdAt % 1000 == 0 && t.updatedAt % 1000 == 0
  }

  /** Every record of the store is in its stored form. */
  predicate AllStored(store: Store) {
    forall i :: 0 <= i < |store| ==> IsStored(store[i])
  }

  /** The record `insert_one` writes for `t`: its timestamps lose their
      sub-millisecond part, nothing else changes, and a record already in
      stored form is written as it is. */
  function Stored(t: Todo): (r: Todo)
    ensures IsStored(r)
    ensures r.id == t.id && r.title == t.title && r.description == t.description
    ensures r.completed == t.completed
    ensures t.createdAt - 1000 < r.createdAt <= t.createdAt
    ensures t.updatedAt - 1000 < r.updatedAt <= t.updatedAt
    ensures IsStored(t) ==> r == t
  {
    t.(createdAt := ToMillis(t.createdAt), updatedAt := ToMillis(t.updatedAt))
  }

  /** One entry of the `$set` document of an update. */
  datatype Field =
    | SetTitle(title: string)
    | SetDescription(description: string)
    | SetCompleted(completed: bool)
    | SetUpdatedAt(at: Timestamp)

  /** Position of the first record with identifier `id`, the one a
      `{"id": id}` filter selects. */
  function FindIndex(store: Store, id: Id): (r: Option<nat>)
    ensures r.None? <==> !HasId(store, id)
    ensures r.Some? ==> r.value < |store| && store[r.value].id == id
    ensures r.Some? ==> forall j :: 0 <= j < r.value ==> store[j].id != id
  {
    if |store| == 0 then None
    else if store[0].id == id then Some(0)
    else
      match FindIndex(store[1..], id)
      case None =>
        assert forall j :: 1 <= j < |store| ==> store[j] == store[1..][j - 1];
        None
      case Some(k) => Some(k + 1)
  }

  /** The first record with identifier `id`, if any. */
  function FindOne(store: Store, id: Id): (r: Option<Todo>)
    ensures r.None? <==> !HasId(store, id)
    ensures r.Some? ==> r.value in store && r.value.id == id
    ensures UniqueIds(store) && r.Some? ==>
              forall i :: 0 <= i < |store| && store[i].id == id ==> store[i] == r.value
  {
    match FindIndex(store, id)
    case None => None
    case Some(k) => Some(store[k])
  }

  /** `POST /todos`: builds the record from the request, filling the
      defaults, inserts its stored form at the end of the collection, and
      answers with the record as built, microseconds included. */
  function CreateTodo(store: Store, input: TodoCreate, freshId: Id, now: Timestamp): (r: Reply<Todo>)
    ensures r.store == store + [Stored(r.body)]
    ensures AllStored(store) ==> AllStored(r.store)
    ensures r.body.id == freshId
    ensures r.body.title == input.title
    ensures input.description.Some? ==> r.body.description == input.description.value
    ensures input.description.None? ==> r.body.description == ""
    ensures !r.body.completed
    ensures r.body.createdAt == now && r.body.updatedAt == now
  {
    var todo := Todo(freshId, input.title, input.description.GetOr(""), false, now, now);
    Reply(store + [Stored(todo)], todo)
  }

  /** `GET /todos`: the stored records in store order, cut off after
      `ListLimit`. */
  function GetTodos(store: Store): (r: seq<Todo>)
    ensures |r| <= ListLimit
    ensures |r| <= |store| && r == store[..|r|]
    ensures |r| < ListLimit ==> r == store
    ensures |store| <= ListLimit ==> r == store
  {
    if |store| <= ListLimit then store else store[..ListLimit]
  }

  /** `GET /todos/{id}`: the record, or the not-found body (`None`); the
      store is only read. */
  function GetTodo(store: Store, id: Id): (r: Option<Todo>)
    ensures r.None? <==> !HasId(store, id)
    ensures r.Some? ==> r.value.id == id && r.value in store
  {
    FindOne(store, id)
  }

  /** At least one field of the update is not `None`. */
  predicate HasChanges(upd: TodoUpdate) {
    upd.title.Some? || upd.description.Some? || upd.completed.Some?
  }

  /** The `$set` document: the fields of the update that are not `None`,
      in declaration order, followed by `updated_at` when there is at
      least one. */
  function UpdateData(upd: TodoUpdate, now: Timestamp): (r: seq<Field>)
    ensures |r| == 0 <==> !HasChanges(upd)
    ensures |r| > 0 ==> r[|r| - 1] == SetUpdatedAt(now)
  {
    var given :=
      (if upd.title.Some? then [SetTitle(upd.title.value)] else [])
      + (if upd.description.Some? then [SetDescription(upd.description.value)] else [])
      + (if upd.completed.Some? then [SetCompleted(upd.completed.value)] else []);
    if |given| > 0 then given + [SetUpdatedAt(now)] else given
  }

  /** `$set`: assigns the fields in order to one record. No field can name
      the identifier or the creation time. */
  function SetFields(t: Todo, fields: seq<Field>): (r: Todo)
    ensures r.id == t.id && r.createdAt == t.createdAt
    ensures (forall i :: 0 <= i < |fields| ==> !fields[i].SetTitle?) ==> r.title == t.title
    ensures (forall i :: 0 <= i < |fields| ==> !fields[i].SetDescription?) ==> r.description == t.description
    ensures (forall i :: 0 <= i < |fields| ==> !fields[i].SetCompleted?) ==> r.completed == t.completed
    ensures (forall i :: 0 <= i < |fields| ==> !fields[i].SetUpdatedAt?) ==> r.updatedAt == t.updatedAt
    decreases |fields|
  {
    if |fields| == 0 then t else SetFields(Assign(t, fields[0]), fields[1..])
  }

  /** One `$set` entry applied to one stored record; the instant is
      written as a BSON date. */
  function Assign(t: Todo, f: Field): Todo {
    match f
    case SetTitle(v) => t.(title := v)
    case SetDescription(v) => t.(description := v)
    case SetCompleted(v) => t.(completed := v)
    case SetUpdatedAt(v) => t.(updatedAt := ToMillis(v))
  }

  /** The record an update leaves behind: each field given in `upd` takes
      the new value, each omitted field keeps its old one, and
      `updatedAt` moves to `now`, to the millisecond, only when something
      was given. */
  function Merge(t: Todo, upd: TodoUpdate, now: Timestamp): (r: Todo)
    ensures r.id == t.id && r.createdAt == t.createdAt
    ensures r.title == upd.title.GetOr(t.title)
    ensures r.description == upd.description.GetOr(t.description)
    ensures r.completed == upd.completed.GetOr(t.completed)
    ensures r.updatedAt == (if HasChanges(upd) then ToMillis(now) else t.updatedAt)
    ensures !HasChanges(upd) ==> r == t
    ensures IsStored(t) ==> IsStored(r)
  {
    MergeFieldByField(t, upd, now);
    SetFields(t, UpdateData(upd, now))
  }

  /** Assigning `a` and then `b` is assigning `a + b`. */
  lemma {:induction false} SetFieldsAppend(t: Todo, a: seq<Field>, b: seq<Field>)
    ensures SetFields(t, a + b) == SetFields(SetFields(t, a), b)
    decreases |a|
  {
    if |a| == 0 {
      assert a + b == b;
    } else {
      assert (a + b)[0] == a[0] && (a + b)[1..] == a[1..] + b;
      SetFieldsAppend(Assign(t, a[0]), a[1..], b);
    }
  }

  /** The `$set` document applies its fields one at a time. */
  lemma MergeFieldByField(t: Todo, upd: TodoUpdate, now: Timestamp)
    ensures var r := SetFields(t, UpdateData(upd, now));
            && r.title == upd.title.GetOr(t.title)
            && r.description == upd.description.GetOr(t.description)
            && r.completed == upd.completed.GetOr(t.completed)
            && r.updatedAt == (if HasChanges(upd) then ToMillis(now) else t.updatedAt)
  {
    var a := if upd.title.Some? then [SetTitle(upd.title.value)] else [];
    var b := if upd.description.Some? then [SetDescription(upd.description.value)] else [];
    var c := if upd.completed.Some? then [SetCompleted(upd.completed.value)] else [];
    var d := if HasChanges(upd) then [SetUpdatedAt(now)] else [];
    assert UpdateData(upd, now) == a + b + c + d;
    SetFieldsAppend(t, a + b + c, d);
    SetFieldsAppend(t, a + b, c);
    SetFieldsAppend(t, a, b);
  }

  /** Assigns the fields to the first record with identifier `id`; when
      no record matches, nothing changes. */
  function UpdateOne(store: Store, id: Id, fields: seq<Field>): (r: Store)
    ensures |r| == |store|
    ensures forall i :: 0 <= i < |store| ==> r[i].id == store[i].id
    ensures FindIndex(store, id).None? ==> r == store
    ensures FindIndex(store, id).Some? ==>
              var k := FindIndex(store, id).value;
              r == store[k := SetFields(store[k], fields)]
  {
    match FindIndex(store, id)
    case None => store
    case Some(k) => store[k := SetFields(store[k], fields)]
  }

  /** `PUT /todos/{id}`: writes the given fields (and `updated_at`) unless
      none is given, then answers with the record as now stored, or with
      the not-found body (`None`). */
  function UpdateTodo(store: Store, id: Id, upd: TodoUpdate, now: Timestamp): (r: Reply<Option<Todo>>)
    ensures |r.store| == |store|
    ensures forall i :: 0 <= i < |store| ==> r.store[i].id == store[i].id
    ensures r.body.None? <==> !HasId(store, id)
    ensures !HasId(store, id) ==> r.store == store
    ensures !HasChanges(upd) ==> r.store == store
    ensures FindIndex(store, id).Some? ==>
              var k := FindIndex(store, id).value;
              r.store == store[k := Merge(store[k], upd, now)] && r.body == Some(r.store[k])
    ensures AllStored(store) ==> AllStored(r.store)
  {
    var data := UpdateData(upd, now);
    var store' := if |data| > 0 then UpdateOne(store, id, data) else store;
    assert forall i :: 0 <= i < |store| ==> store'[i].id == store[i].id;
    Reply(store', FindOne(store', id))
  }

  /** Removes the first record with identifier `id` and reports how many
      records went. */
  function DeleteOne(store: Store, id: Id): (r: (Store, nat))
    ensures r.1 <= 1 && |r.0| == |store| - r.1
    ensures r.1 == 1 <==> HasId(store, id)
    ensures r.1 == 0 ==> r.0 == store
    ensures r.1 == 1 ==> var k := FindIndex(store, id).value; r.0 == store[..k] + store[k + 1..]
  {
    match FindIndex(store, id)
    case None => (store, 0)
    case Some(k) => (store[..k] + store[k + 1..], 1)
  }

  /** `DELETE /todos/{id}`: success exactly when one record was deleted. */
  function DeleteTodo(store: Store, id: Id): (r: Reply<DeleteStatus>)
    ensures r.body == Deleted <==> HasId(store, id)
    ensures r.body == NotFound ==> r.store == store
    ensures r.body == Deleted ==>
              var k := FindIndex(store, id).value;
              |r.store| == |store| - 1 && r.store == store[..k] + store[k + 1..]
    ensures AllStored(store) ==> AllStored(r.store)
  {
    var (store', count) := DeleteOne(store, id);
    Reply(store', if count == 1 then Deleted else NotFound)
  }

  // Identifier uniqueness

  /** With unique identifiers, the identifier of entry `k` selects entry
      `k`. */
  lemma FindUnique(store: Store, k: nat)
    requires UniqueIds(store) && k < |store|
    ensures FindIndex(store, store[k].id) == Some(k)
  {
  }

  /** A create with a fresh identifier keeps identifiers unique; with an
      identifier already stored it would not. */
  lemma CreateKeepsIdsUnique(store: Store, input: TodoCreate, freshId: Id, now: Timestamp)
    requires UniqueIds(store)
    ensures UniqueIds(CreateTodo(store, input, freshId, now).store) <==> !HasId(store, freshId)
  {
    var r := CreateTodo(store, input, freshId, now).store;
    if HasId(store, freshId) {
      var i :| 0 <= i < |store| && store[i].id == freshId;
      assert r[i].id == r[|store|].id;
    }
  }

  /** An update never changes which identifiers are stored, or where. */
  lemma UpdateKeepsIdsUnique(store: Store, id: Id, upd: TodoUpdate, now: Timestamp)
    requires UniqueIds(store)
    ensures UniqueIds(UpdateTodo(store, id, upd, now).store)
  {
    var r := UpdateTodo(store, id, upd, now).store;
    assert forall i :: 0 <= i < |store| ==> r[i].id == store[i].id;
  }

  /** A delete keeps identifiers unique, and afterwards no record carries
      the deleted identifier. */
  lemma DeleteKeepsIdsUnique(store: Store, id: Id)
    requires UniqueIds(store)
    ensures UniqueIds(DeleteTodo(store, id).store)
    ensures !HasId(DeleteTodo(store, id).store, id)
  {
    var r := DeleteTodo(store, id);
    if r.body == Deleted {
      var k := FindIndex(store, id).value;
      assert forall i :: 0 <= i < |r.store| ==> r.store[i] == store[if i < k then i else i + 1];
    }
  }
}
