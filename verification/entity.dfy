/**
 The shapes both sides of the todo service agree on: the `Todo` record the
 server stores and returns as JSON, and the two request bodies it accepts
 (`TodoCreate` for a new todo, `TodoUpdate` for a partial update).
 */
module Entity {

  /** Identifiers are opaque strings (the server draws them from uuid4). */
  type Id = string

  /** Instants in microseconds, the resolution of a Python `datetime`. The
      server reads them from its clock, which the operations take as a
      parameter. */
  type Timestamp = int

  /** A value that may be absent: a Python `None`, or a JSON field the
      request left out. */
  datatype Option<T> = None | Some(value: T) {

    /** The value, or `default` when absent. */
    function GetOr(default: T): T {
      match this
      case Some(v) => v
      case None => default
    }
  }

  datatype Todo = Todo(
    id: Id,
    title: string,
    description: string,
    completed: bool,
    createdAt: Timestamp,
    updatedAt: Timestamp)

  /** Body of a create request; an absent description defaults to "". */
  datatype TodoCreate = TodoCreate(title: string, description: Option<string>)

  /** Body of an update request: every field may be absent (`None`), and
      there is no field for `id`, `createdAt` or `updatedAt`. */
  datatype TodoUpdate = TodoUpdate(
    title: Option<string>,
    description: Option<string>,
    completed: Option<bool>)

  /** Some record of `ts` carries identifier `id`. */
  predicate HasId(ts: seq<Todo>, id: Id) {
    exists i :: 0 <= i < |ts| && ts[i].id == id
  }

  /** No two records of `ts` share an identifier. */
  predicate UniqueIds(ts: seq<Todo>) {
    forall i, j :: 0 <= i < j < |ts| ==> ts[i].id != ts[j].id
  }
}
