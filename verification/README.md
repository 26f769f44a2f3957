# Todo service: a verified model of its request handling

The service keeps one table of task records ("todos") and serves six routes
over it: a filtered list, lookup by id, lookup by due date (the agenda),
create, partial update and delete. Each route checks `status`, `priority`
and `category` against closed sets of values and checks the due date. The
first failing check decides the 400 answer. A route that passes its checks
runs one statement against the table.

This project models that logic in Dafny:

- `wrappers.dfy`: `Option`. `None` stands for an absent field (`undefined`) or for NaN.
- `js_strings.dfy`: the JavaScript built-ins applied to a due date, `split("-")` and `parseInt`.
  Both follow the ECMAScript rules: leading white space, a sign, an `0x` prefix, the longest digit prefix.
- `sql_like.dfy`: SQLite's `LIKE`. `%` and `_` are wildcards, and ASCII letters match regardless of case.
- `validation.dfy`: the three value sets and the two check chains.
  The chains are the lenient one of the list route and the strict one of create and update.
  It also holds the reading of a due date into the three numbers handed to `new Date(...)`.
- `todos.dfy`: the row, the request bodies, the responses, the update merge and the "first changed field" message.
- `list_query.dfy`: the WHERE clauses of the two listing routes, and what they select.
- `todo_app.dfy`: the class `TodoTable`.
  It holds the table as a `map<int, Todo>` field, with one method per route that returns the response.

The date library (`isValid`, `format`) is a parameter of type `Calendar`. Its two functions are taken as given.
The model assumes only that a date built from a NaN component is invalid, and only where a lemma says so.

Where the specification and the code disagree, the model follows the code:

- The category filter is `LIKE "%c"`, a suffix match, not a substring match.
- The due-date check calls `isValid(new Date(year, month, date))` without the `- 1` on the month that
  formatting uses. Because `Date` rolls over, a date such as `2024-02-30` is not necessarily refused.
  The model leaves validity abstract and makes no such claim.
- An update whose body leaves out `dueDate` re-splits and re-checks the stored `due_date` like any other.
  `ParseIsoDate` shows that a stored `yyyy-MM-dd` text reads back as its own year, month and day.
- An update that changes nothing sends no answer (`NoResponse`), as the code does.

## Model

| member | source | states |
|---|---|---|
| `JsStrings.Split` | app.js:117-119 | `split("-")` gives one more piece than there are separators, and no piece contains the separator |
| `JsStrings.JoinSplit` | app.js:117-119 | joining the pieces with the separator gives back the original text |
| `JsStrings.SplitJoin` | app.js:117-119 | splitting a join of separator-free pieces gives back exactly those pieces |
| `JsStrings.TrimStart` | app.js:119 | `parseInt` skips exactly the leading white space: what remains is a suffix that starts with a non-space |
| `JsStrings.DigitPrefix` | app.js:119 | `parseInt` reads the longest digit prefix: all digits, and the next character is not a digit |
| `JsStrings.ParseIntPadDecimal` | app.js:119 | `parseInt` reads a zero-padded decimal (as in `yyyy`, `MM`, `dd`) back as the number it renders |
| `SqlLike.LikeAnything` | app.js:83-86 | the pattern `%` matches every string |
| `SqlLike.LikeContains` | app.js:83-85 | for a filter without wildcards, `LIKE "%x%"` holds iff the column contains `x` up to ASCII case |
| `SqlLike.LikeEndsWith` | app.js:86 | for a filter without wildcards, `LIKE "%x"` holds iff the column ends with `x` up to ASCII case |
| `Validation.CheckFilters` | app.js:41-70 | the list route accepts iff each of status, priority and category is `""` or allowed; otherwise it names the first failing field, in the order status, priority, category |
| `Validation.CheckFields` | app.js:157-172 | create accepts iff the three fields are present and allowed and the date is valid; otherwise it names the first failure; the due date is refused only when all three fields pass |
| `Validation.StrictChainRefinesFilters` | app.js:157-169 | the create and update checks accept only what the list checks accept, and on nonempty values both give the same answer |
| `Validation.EmptyValueIsFilterNotField` | app.js:157-169 | an empty value is "no filter" when listing but is refused with that field's message when creating or updating |
| `Validation.ParseIsoDate` | app.js:205-208 | a stored `yyyy-MM-dd` due date, split and parsed again, gives its own year, month and day |
| `Validation.TooFewPiecesRejected` | app.js:117-122 | a due date with fewer than two `-` leaves a NaN argument, so a date library that refuses NaN refuses it |
| `Todos.ChangeMessage` | app.js:240-250 | the update message names the first field, in the order status, priority, todo, category, due date, that differs from the stored row; there is none iff no field differs |
| `Todos.MergeTakesPatchOverStored` | app.js:197-203 | the merged row keeps the id; each field is the body's value when given, else the stored value |
| `Todos.EmptyPatchChangesNothing` | app.js:197-203 | an empty body leaves the row as it was, and no message is sent |
| `Todos.MergeIdempotent` | app.js:197-203 | applying the same body twice equals applying it once, and the second time nothing is announced |
| `Todos.CompletePatchIgnoresStored` | app.js:197-203 | a body with all five fields determines the new row regardless of the stored one |
| `Todos.OnlyPriorityChanged` | app.js:240-243 | a body whose only new value is the priority, alone or with the other fields resubmitted unchanged, selects the message "Priority Updated" |
| `ListQuery.EmptyFiltersSelectAll` | app.js:83-86 | with every filter empty, the list query selects every row |
| `ListQuery.FilterMeaning` | app.js:83-86 | for filters without wildcards: status, priority and search text are substring tests, and category is only a suffix test |
| `ListQuery.CategoryIsSuffixNotSubstring` | app.js:86 | the category filter `WORK` selects `HOMEWORK` but not `WORKSHOP`, although `WORKSHOP` contains it |
| `ListQuery.StatusesApart` | app.js:43-46 | no allowed status occurs inside another |
| `ListQuery.PrioritiesApart` | app.js:53-56 | no allowed priority occurs inside another |
| `ListQuery.CategoriesApart` | app.js:63-66 | no allowed category ends another |
| `ListQuery.StatusFilterExact` | app.js:83 | against an allowed stored status, an accepted status filter is "no filter" or exact equality |
| `ListQuery.PriorityFilterExact` | app.js:84 | the same for priority |
| `ListQuery.CategoryFilterExact` | app.js:86 | the same for category, despite the suffix pattern |
| `ListQuery.ValidatedFiltersAreExact` | app.js:41-86 | on a row with allowed values, a validated list request keeps exactly the rows equal to each nonempty filter and matching the search text |
| `TodoApp.CheckValues` | app.js:210-225 | the update checks on the merged values accept iff status, priority and category are allowed and the merged due date is valid |
| `TodoApp.Created` | app.js:174-179 | the inserted row has the body's id and allowed enumerated values; its due date is the formatted date |
| `TodoApp.TodoTable.constructor` | app.js:13-20 | the handle opens on a table whose rows are stored under their own ids |
| `TodoApp.TodoTable.Select` | app.js:72-88 | running a SELECT returns every row the WHERE clause selects, each once and nothing else |
| `TodoApp.TodoTable.ListTodos` | app.js:33-91 | an invalid filter gets 400 with the first failing field's message; otherwise the answer is exactly the rows the four filters select |
| `TodoApp.TodoTable.GetTodo` | app.js:94-112 | answers the row stored under the id, or an empty body when there is none |
| `TodoApp.TodoTable.Agenda` | app.js:115-145 | no `date` sends nothing; an invalid date gets 400 "Invalid Due Date"; otherwise the answer is exactly the rows whose due date equals the formatted date |
| `TodoApp.TodoTable.CreateTodo` | app.js:148-183 | a failed check gets its 400 message and leaves the table unchanged; a body without `id`, or with an id already stored, passes the checks and then gets no answer and changes nothing; otherwise it adds exactly the new row under its id and answers "Todo Successfully Added"; every stored row keeps allowed values |
| `TodoApp.TodoTable.UpdateTodo` | app.js:186-252 | a failed check leaves the table unchanged; success overwrites only that row with the merged values, the raw due date included, and answers with the first changed field or not at all; a missing row is never created |
| `TodoApp.TodoTable.DeleteTodo` | app.js:255-265 | the row with the id is gone, nothing else changes, and the answer is always "Todo Deleted" |
| `TodoApp.CreateThenGet` | app.js:148-183 | a valid create of a new id followed by a lookup answers exactly the created row |
| `TodoApp.ChangePriority` | app.js:210-243 | on a stored row, a body whose only new value is the priority is answered 400 "Invalid Todo Priority" with no change when that priority is not allowed (and the stored status is); when the merged values pass the checks, the row is rewritten and the answer is "Priority Updated" |
| `TodoApp.DeleteTwice` | app.js:255-265 | deleting twice answers the same both times and leaves the table as one delete does |

## Left out

- Express routing, request parsing, the server start and the log output (app.js:1-30, 125) are I/O and are not modelled.
  A query parameter that is absent is passed as `""`. A body field that is absent, the create body's `id` included, is `None`.
- Body and query values that are not strings (numbers, `null`, repeated query parameters) are not modelled.
- The text of the SQL statements is not modelled. Values are treated as if bound as parameters, so SQL injection is left out.
  So are the double-quoted literal versus column-name ambiguity and statements that fail to parse.
  Examples of such failures are a non-numeric path id, or quotes in a description.
- The table schema is not part of this model. `id` is taken to be the table's key.
  An insert under an existing id then fails in the database. The handler does not catch that failure and sends nothing.
- `LIKE` folds only ASCII letters (SQLite's default). The `case_sensitive_like` setting is not modelled.
- `date-fns` `isValid` and `format`, and JavaScript's `Date`, are the parameter `Calendar`, taken as given.
  Month and day rollover, the two-digit-year rule, and `format` throwing on an invalid date are therefore not modelled.
- `parseInt` results are unbounded integers: the loss of precision beyond 2^53 and the sign of `-0` are not modelled.
- JSON arrays are modelled without an order: SQLite's scan order is not part of the contract.
- Requests are atomic. The await points and the read-then-write race of the update route (app.js:196, 238) are not modelled.
- An uncaught exception in a handler is modelled as `NoResponse`: the request is never answered.
  This covers a missing `date` or `dueDate` before `split`, an INSERT whose missing `id` is interpolated as `undefined`,
  and reading fields of a missing row in the update route.
