/** The six route handlers over the `todo` table. The table is the object's
    `rows` field, a map from id to row; every handler runs as one atomic step
    and returns what it sends. */
module TodoApp {
  import opened Wrappers
  import opened Validation
  import opened Todos
  import opened ListQuery

  /** The strict check chain of the create and update routes on a full set of values. */
  function CheckValues(status: string, priority: string, category: string, dueDate: string,
                       cal: Calendar): (r: Option<Rejection>)
    ensures r == None <==>
      status in Statuses && priority in Priorities && category in Categories &&
      cal.isValid(ParseDate(dueDate))
  {
    CheckFields(Some(status), Some(priority), Some(category), cal.isValid(ParseDate(dueDate)))
  }

  /** The create route's checks on a body whose due date is present. */
  function CheckNew(body: NewTodo, cal: Calendar): Option<Rejection>
    requires body.dueDate.Some?
  {
    CheckFields(body.status, body.priority, body.category, cal.isValid(ParseDate(body.dueDate.value)))
  }

  /** The row the create route inserts: the due date is reformatted, and a
      missing description is interpolated as the text `undefined`. */
  function Created(body: NewTodo, cal: Calendar): (t: Todo)
    requires body.id.Some? && body.dueDate.Some? && CheckNew(body, cal) == None
    ensures t.id == body.id.value && Enumerated(t)
  {
    Todo(body.id.value, body.todo.GetOr("undefined"), body.priority.value, body.status.value,
         body.category.value, cal.format(PrevMonth(ParseDate(body.dueDate.value))))
  }

  /** The `todo` table behind the service's single database handle. */
  class TodoTable {
    var rows: map<int, Todo>

    ghost predicate Valid()
      reads this
    {
      KeyedById(rows)
    }

    constructor (initial: map<int, Todo>)
      requires KeyedById(initial)
      ensures Valid() && rows == initial
    {
      rows := initial;
    }

    /** Runs a SELECT: scans the table once and keeps the rows the WHERE clause selects. */
    method Select(q: Query) returns (found: seq<Todo>)
      requires Valid()
      ensures Lists(found, rows, q)
    {
      found := [];
      var pending := rows.Keys;
      while exists k :: k in pending
        invariant pending <= rows.Keys
        invariant forall i :: 0 <= i < |found| ==>
          found[i].id in rows && found[i].id !in pending && rows[found[i].id] == found[i] &&
          Selects(q, found[i])
        invariant forall k :: k in rows && k !in pending && Selects(q, rows[k]) ==> rows[k] in found
        invariant forall i, j :: 0 <= i < j < |found| ==> found[i].id != found[j].id
        decreases pending
      {
        var k :| k in pending;
        if Selects(q, rows[k]) {
          found := found + [rows[k]];
        }
        pending := pending - {k};
      }
    }

    /** `GET /todos/`: an absent query parameter is the empty string. */
    method ListTodos(status: string, priority: string, searchQ: string, category: string)
      returns (r: Response)
      requires Valid()
      ensures CheckFilters(status, priority, category).Some? ==>
        r == Text(400, CheckFilters(status, priority, category).value.Message())
      ensures CheckFilters(status, priority, category) == None ==>
        r.Json? && Lists(r.rows, rows, Filter(status, priority, searchQ, category))
    {
      var rejected := CheckFilters(status, priority, category);
      if rejected.Some? {
        r := Text(400, rejected.value.Message());
      } else {
        var found := Select(Filter(status, priority, searchQ, category));
        r := Json(found);
      }
    }

    /** `GET /todos/:todoId/`: the row with that id, or an empty body. */
    method GetTodo(id: int) returns (r: Response)
      requires Valid()
      ensures r.Single?
      ensures r.row.Some? <==> id in rows
      ensures r.row.Some? ==> r.row.value == rows[id] && r.row.value.id == id
    {
      if id in rows {
        r := Single(Some(rows[id]));
      } else {
        r := Single(None);
      }
    }

    /** `GET /agenda/?date=...`: the rows due on the formatted date. A missing
        `date` parameter makes `split` throw, and nothing is sent. */
    method Agenda(date: Option<string>, cal: Calendar) returns (r: Response)
      requires Valid()
      ensures date == None ==> r == NoResponse
      ensures date.Some? && !cal.isValid(ParseDate(date.value)) ==> r == Text(400, "Invalid Due Date")
      ensures date.Some? && cal.isValid(ParseDate(date.value)) ==>
        r.Json? && Lists(r.rows, rows, DueOn(cal.format(PrevMonth(ParseDate(date.value)))))
    {
      if date == None {
        r := NoResponse;
        return;
      }
      var args := ParseDate(date.value);
      if cal.isValid(args) {
        var found := Select(DueOn(cal.format(PrevMonth(args))));
        r := Json(found);
      } else {
        r := Text(400, InvalidDueDate.Message());
      }
    }

    /** `POST /todos/`. A missing due date makes `split` throw before any
        check. After the checks, a missing id (interpolated as `undefined`)
        or an id already in the table makes the INSERT fail, which the
        handler does not catch. In all three cases nothing is sent. */
    method CreateTodo(body: NewTodo, cal: Calendar) returns (r: Response)
      requires Valid()
      modifies this
      ensures Valid()
      ensures body.dueDate == None ==> r == NoResponse && rows == old(rows)
      ensures body.dueDate.Some? && CheckNew(body, cal).Some? ==>
        r == Text(400, CheckNew(body, cal).value.Message()) && rows == old(rows)
      ensures body.dueDate.Some? && CheckNew(body, cal) == None &&
              (body.id == None || body.id.value in old(rows)) ==>
        r == NoResponse && rows == old(rows)
      ensures body.dueDate.Some? && CheckNew(body, cal) == None &&
              body.id.Some? && body.id.value !in old(rows) ==>
        r == Text(200, "Todo Successfully Added") &&
        rows == old(rows)[body.id.value := Created(body, cal)]
      ensures AllEnumerated(old(rows)) ==> AllEnumerated(rows)
    {
      if body.dueDate == None {
        r := NoResponse;
        return;
      }
      var rejected := CheckNew(body, cal);
      if rejected.Some? {
        r := Text(400, rejected.value.Message());
        return;
      }
      if body.id == None || body.id.value in rows {
        r := NoResponse;
        return;
      }
      StoreKeepsInvariants(rows, Created(body, cal));
      rows := rows[body.id.value := Created(body, cal)];
      r := Text(200, "Todo Successfully Added");
    }

    /** `PUT /todos/:todoId/`. Omitted fields default to the stored row, all
        five are then written, and the answer names the first changed field.
        With no stored row, reading a default throws; a body with all five
        fields needs no default, is checked, updates nothing and then throws
        when comparing with the missing row. */
    method UpdateTodo(id: int, body: Patch, cal: Calendar) returns (r: Response)
      requires Valid()
      modifies this
      ensures Valid()
      ensures id in old(rows) ==>
        var prev := old(rows)[id];
        var next := Merge(prev, body);
        var rejected := CheckValues(next.status, next.priority, next.category, next.dueDate, cal);
        (rejected.Some? ==> r == Text(400, rejected.value.Message()) && rows == old(rows)) &&
        (rejected == None ==>
          rows == old(rows)[id := next] &&
          r == (match ChangeMessage(prev, next) case Some(m) => Text(200, m) case None => NoResponse))
      ensures id !in old(rows) ==> rows == old(rows)
      ensures id !in old(rows) && !Complete(body) ==> r == NoResponse
      ensures id !in old(rows) && Complete(body) ==>
        var rejected := CheckValues(body.status.value, body.priority.value, body.category.value,
                                    body.dueDate.value, cal);
        r == (if rejected.Some? then Text(400, rejected.value.Message()) else NoResponse)
      ensures AllEnumerated(old(rows)) ==> AllEnumerated(rows)
    {
      if id !in rows {
        if !Complete(body) {
          r := NoResponse;
          return;
        }
        var rejected := CheckValues(body.status.value, body.priority.value, body.category.value,
                                    body.dueDate.value, cal);
        r := if rejected.Some? then Text(400, rejected.value.Message()) else NoResponse;
        return;
      }
      var prev := rows[id];
      var next := Merge(prev, body);
      var rejected := CheckValues(next.status, next.priority, next.category, next.dueDate, cal);
      if rejected.Some? {
        r := Text(400, rejected.value.Message());
        return;
      }
      assert Enumerated(next);
      StoreKeepsInvariants(rows, next);
      rows := rows[id := next];
      var changed := ChangeMessage(prev, next);
      r := if changed.Some? then Text(200, changed.value) else NoResponse;
    }

    /** `DELETE /todos/:todoId/`: removes the row if there is one and always
        answers the same, so deleting twice leaves the table as deleting once. */
    method DeleteTodo(id: int) returns (r: Response)
      requires Valid()
      modifies this
      ensures Valid()
      ensures rows == old(rows) - {id} && id !in rows
      ensures r == Text(200, "Todo Deleted")
      ensures AllEnumerated(old(rows)) ==> AllEnumerated(rows)
    {
      rows := rows - {id};
      r := Text(200, "Todo Deleted");
    }
  }

  /** A valid create followed by a lookup of the same id answers the row
      just created, with its reformatted due date. */
  method CreateThenGet(table: TodoTable, body: NewTodo, cal: Calendar) returns (r: Response)
    requires table.Valid()
    requires body.id.Some? && body.id.value !in table.rows
    requires body.dueDate.Some? && CheckNew(body, cal) == None
    modifies table
    ensures r == Single(Some(Created(body, cal)))
  {
    var added := table.CreateTodo(body, cal);
    r := table.GetTodo(body.id.value);
  }

  /** A body whose only new value is the priority, possibly resubmitting
      other fields unchanged: with a stored row whose status is allowed, a
      disallowed priority is refused and changes nothing; when all merged
      values pass the checks, the row is rewritten and the answer is
      "Priority Updated". */
  method ChangePriority(table: TodoTable, id: int, body: Patch, cal: Calendar) returns (r: Response)
    requires table.Valid() && id in table.rows
    requires body.priority.Some? && body.priority.value != table.rows[id].priority
    requires forall i :: 0 <= i < 5 && i != 1 && PatchField(body, i).Some? ==>
      PatchField(body, i).value == Mutable(table.rows[id])[i]
    modifies table
    ensures var next := Merge(old(table.rows)[id], body);
      CheckValues(next.status, next.priority, next.category, next.dueDate, cal) == None ==>
        r == Text(200, "Priority Updated") && table.rows == old(table.rows)[id := next]
    ensures old(table.rows)[id].status in Statuses && body.priority.value !in Priorities ==>
      r == Text(400, "Invalid Todo Priority") && table.rows == old(table.rows)
  {
    ghost var prev := table.rows[id];
    ghost var next := Merge(prev, body);
    OnlyPriorityChanged(prev, body);
    MergeTakesPatchOverStored(prev, body);
    assert next.status == prev.status && next.priority == body.priority.value;
    ghost var rejected := CheckValues(next.status, next.priority, next.category, next.dueDate, cal);
    assert prev.status in Statuses && body.priority.value !in Priorities ==>
      rejected == Some(InvalidPriority);
    r := table.UpdateTodo(id, body, cal);
  }

  /** Deleting twice answers the same both times and leaves the table as one delete does. */
  method DeleteTwice(table: TodoTable, id: int) returns (first: Response, second: Response)
    requires table.Valid()
    modifies table
    ensures first == second == Text(200, "Todo Deleted")
    ensures table.rows == old(table.rows) - {id}
  {
    first := table.DeleteTodo(id);
    second := table.DeleteTodo(id);
  }
}
