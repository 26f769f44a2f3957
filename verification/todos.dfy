/** The one entity of the service, a row of the `todo` table, together with
    the request bodies and responses of the routes and the pure parts of the
    update route: merging a partial body into the stored row and choosing
    the message that names the first changed field. */
module Todos {
  import opened Wrappers
  import opened Validation

  /** A row of `todo(id, todo, priority, status, category, due_date)`. */
  datatype Todo = Todo(id: int, todo: string, priority: string, status: string,
                       category: string, dueDate: string)

  /** The body of `POST /todos/`; a field left out of the JSON is `None`. */
  datatype NewTodo = NewTodo(id: Option<int>, todo: Option<string>, priority: Option<string>,
                             status: Option<string>, category: Option<string>,
                             dueDate: Option<string>)

  /** The body of `PUT /todos/:todoId/`: any subset of the five mutable fields. */
  datatype Patch = Patch(status: Option<string>, priority: Option<string>, todo: Option<string>,
                         category: Option<string>, dueDate: Option<string>)

  /** What a handler answers. `Text` is `res.status(code)` (200 when not set)
      with a plain-text body; `Json` is a JSON array of rows; `Single` is one
      row, or an empty 200 body for `res.send(undefined)`; `NoResponse` is a
      handler that ends, or throws, without sending anything. */
  datatype Response =
    | Text(code: nat, body: string)
    | Json(rows: seq<Todo>)
    | Single(row: Option<Todo>)
    | NoResponse

  /** Every row is stored under its own id (the table's key). */
  predicate KeyedById(rows: map<int, Todo>)
  {
    forall k :: k in rows ==> rows[k].id == k
  }

  /** A row whose three enumerated columns hold allowed values. */
  predicate Enumerated(t: Todo)
  {
    t.status in Statuses && t.priority in Priorities && t.category in Categories
  }

  predicate AllEnumerated(rows: map<int, Todo>)
  {
    forall k :: k in rows ==> Enumerated(rows[k])
  }

  /** Storing a row under its own id keeps both table invariants. */
  lemma StoreKeepsInvariants(rows: map<int, Todo>, t: Todo)
    requires KeyedById(rows)
    ensures KeyedById(rows[t.id := t])
    ensures AllEnumerated(rows) && Enumerated(t) ==> AllEnumerated(rows[t.id := t])
  {
  }

  /** The destructuring `let { status = previous.status, ... } = req.body`:
      each field the body leaves out takes the stored row's value. */
  function Merge(prev: Todo, p: Patch): Todo
  {
    Todo(prev.id, p.todo.GetOr(prev.todo), p.priority.GetOr(prev.priority),
         p.status.GetOr(prev.status), p.category.GetOr(prev.category),
         p.dueDate.GetOr(prev.dueDate))
  }

  /** Whether the body gives all five fields, so that no default is needed. */
  predicate Complete(p: Patch)
  {
    p.status.Some? && p.priority.Some? && p.todo.Some? && p.category.Some? && p.dueDate.Some?
  }

  /** The mutable fields in the order the update route compares them. */
  function Mutable(t: Todo): seq<string>
  {
    [t.status, t.priority, t.todo, t.category, t.dueDate]
  }

  /** The update route's messages, in the same order. */
  const Announcements: seq<string> :=
    ["Status Updated", "Priority Updated", "Todo Updated", "Category Updated", "Due Date Updated"]

  /** The message of a successful update: the one for the first field, in the
      order status, priority, todo, category, due date, whose new value
      differs from the stored one; none when nothing differs. */
  function ChangeMessage(prev: Todo, next: Todo): (m: Option<string>)
    ensures m == None <==> Mutable(prev) == Mutable(next)
    ensures forall i :: 0 <= i < |Announcements| ==>
      (m == Some(Announcements[i]) <==>
         Mutable(prev)[i] != Mutable(next)[i] &&
         forall j :: 0 <= j < i ==> Mutable(prev)[j] == Mutable(next)[j])
  {
    assert Mutable(prev) == [prev.status, prev.priority, prev.todo, prev.category, prev.dueDate];
    assert Mutable(next) == [next.status, next.priority, next.todo, next.category, next.dueDate];
    assert Announcements[0] == "Status Updated" && Announcements[1] == "Priority Updated";
    assert Announcements[2] == "Todo Updated" && Announcements[3] == "Category Updated";
    assert Announcements[4] == "Due Date Updated";
    if next.status != prev.status then Some("Status Updated")
    else if next.priority != prev.priority then Some("Priority Updated")
    else if next.todo != prev.todo then Some("Todo Updated")
    else if next.category != prev.category then Some("Category Updated")
    else if next.dueDate != prev.dueDate then Some("Due Date Updated")
    else None
  }

  /** A merged row keeps the stored id; the patch's fields win, the rest are kept. */
  lemma MergeTakesPatchOverStored(prev: Todo, p: Patch)
    ensures Merge(prev, p).id == prev.id
    ensures forall i :: 0 <= i < 5 ==>
      Mutable(Merge(prev, p))[i] == (if PatchField(p, i).Some? then PatchField(p, i).value else Mutable(prev)[i])
  {
  }

  /** The patch's field at position `i` of `Mutable`. */
  function PatchField(p: Patch, i: nat): Option<string>
    requires i < 5
  {
    [p.status, p.priority, p.todo, p.category, p.dueDate][i]
  }

  /** An empty body changes nothing, and then no message is sent. */
  lemma EmptyPatchChangesNothing(prev: Todo)
    ensures Merge(prev, Patch(None, None, None, None, None)) == prev
    ensures ChangeMessage(prev, Merge(prev, Patch(None, None, None, None, None))) == None
  {
  }

  /** Applying the same body twice is the same as applying it once, and the
      second time no message is sent. */
  lemma MergeIdempotent(prev: Todo, p: Patch)
    ensures Merge(Merge(prev, p), p) == Merge(prev, p)
    ensures ChangeMessage(Merge(prev, p), Merge(Merge(prev, p), p)) == None
  {
  }

  /** A complete body determines the new row whatever was stored before. */
  lemma CompletePatchIgnoresStored(prev: Todo, other: Todo, p: Patch)
    requires Complete(p) && prev.id == other.id
    ensures Merge(prev, p) == Merge(other, p)
  {
  }

  /** A body whose only new value is the priority, whether or not it also
      resubmits other fields unchanged, selects "Priority Updated". */
  lemma OnlyPriorityChanged(prev: Todo, p: Patch)
    requires p.priority.Some? && p.priority.value != prev.priority
    requires forall i :: 0 <= i < 5 && i != 1 && PatchField(p, i).Some? ==>
      PatchField(p, i).value == Mutable(prev)[i]
    ensures ChangeMessage(prev, Merge(prev, p)) == Some("Priority Updated")
  {
    MergeTakesPatchOverStored(prev, p);
    assert Mutable(Merge(prev, p))[0] == Mutable(prev)[0];
    assert Announcements[1] == "Priority Updated";
  }
}
