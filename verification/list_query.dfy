/** The WHERE clauses of the two listing routes, as predicates on a row, and
    what they select: the list route's four `LIKE` filters and the agenda
    route's equality on the due date. */
module ListQuery {
  import opened Wrappers
  import opened SqlLike
  import opened Validation
  import opened Todos

  /** `Filter` is `status LIKE "%s%" AND priority LIKE "%p%" AND todo LIKE "%q%"
      AND category LIKE "%c"`; `DueOn` is `due_date = "d"`. */
  datatype Query =
    | Filter(status: string, priority: string, search: string, category: string)
    | DueOn(day: string)

  predicate Selects(q: Query, t: Todo)
  {
    match q
    case Filter(s, p, x, c) =>
      Like("%" + s + "%", t.status) && Like("%" + p + "%", t.priority) &&
      Like("%" + x + "%", t.todo) && Like("%" + c, t.category)
    case DueOn(d) => t.dueDate == d
  }

  /** `found` lists every row of the table that the query selects, once each,
      and nothing else (in no particular order). */
  ghost predicate Lists(found: seq<Todo>, rows: map<int, Todo>, q: Query)
  {
    (forall i :: 0 <= i < |found| ==>
       found[i].id in rows && rows[found[i].id] == found[i] && Selects(q, found[i])) &&
    (forall k :: k in rows && Selects(q, rows[k]) ==> rows[k] in found) &&
    (forall i, j :: 0 <= i < j < |found| ==> found[i].id != found[j].id)
  }

  /** With every filter empty the list query selects every row. */
  lemma EmptyFiltersSelectAll(t: Todo)
    ensures Selects(Filter("", "", "", ""), t)
  {
    assert "%" + "" + "%" == "%%" && "%" + "" == "%";
    LikeAnything(t.status);
    LikeAnything(t.priority);
    LikeAnything(t.todo);
    LikeAnything(t.category);
  }

  /** For filters without wildcards, status, priority and the search text are
      case-insensitive substring tests, while category is only a suffix test. */
  lemma FilterMeaning(s: string, p: string, x: string, c: string, t: Todo)
    requires Literal(s) && Literal(p) && Literal(x) && Literal(c)
    ensures Selects(Filter(s, p, x, c), t) <==>
      ContainsFolded(t.status, s) && ContainsFolded(t.priority, p) &&
      ContainsFolded(t.todo, x) && EndsWithFolded(t.category, c)
  {
    LikeContains(s, t.status);
    LikeContains(p, t.priority);
    LikeContains(x, t.todo);
    LikeEndsWith(c, t.category);
  }

  /** A category filter is a suffix test, not a substring test: `WORK`
      selects the category `HOMEWORK` but not `WORKSHOP`, which contains it. */
  lemma CategoryIsSuffixNotSubstring()
    ensures Selects(Filter("", "", "", "WORK"), Todo(0, "", "", "", "HOMEWORK", ""))
    ensures ContainsFolded("WORKSHOP", "WORK")
    ensures !Selects(Filter("", "", "", "WORK"), Todo(0, "", "", "", "WORKSHOP", ""))
  {
    EmptyFiltersSelectAll(Todo(0, "", "", "", "", ""));
    assert Literal("WORK");
    LikeEndsWith("WORK", "HOMEWORK");
    assert "HOMEWORK"[4..] == "WORK";
    LikeEndsWith("WORK", "WORKSHOP");
    assert "WORKSHOP"[4..][0] == 'S';
    assert "WORKSHOP"[0..][..4] == "WORK";
  }

  predicate Avoids(w: string, c: char)
  {
    w == [] || (Lower(w[0]) != c && Avoids(w[1..], c))
  }

  lemma {:induction false} AvoidsAt(w: string, c: char, i: nat)
    requires Avoids(w, c) && i < |w|
    ensures Lower(w[i]) != c
    decreases i
  {
    if i > 0 { AvoidsAt(w[1..], c, i - 1); }
  }

  /** `v` does not occur in `w` when none of the first `n` places it could
      start at holds its first letter. */
  lemma FirstLetterAbsent(w: string, v: string, n: nat)
    requires |v| > 0 && n <= |w| && |w| - |v| < n && Avoids(w[..n], Lower(v[0]))
    ensures !ContainsFolded(w, v)
  {
    if ContainsFolded(w, v) {
      var i :| 0 <= i <= |w| - |v| && StartsWithFolded(w[i..], v);
      assert w[i..][..|v|][0] == w[i];
      AvoidsAt(w[..n], Lower(v[0]), i);
    }
  }

  lemma ContainsItself(v: string)
    ensures ContainsFolded(v, v)
  {
    assert StartsWithFolded(v[0..], v);
  }

  lemma DoneNotInToDo()
    ensures !ContainsFolded("TO DO", "DONE")
  {
    assert Avoids("TO DO"[..2], 'd');
    FirstLetterAbsent("TO DO", "DONE", 2);
  }

  /** The first letter of `v` occurs nowhere in `w`. */
  lemma LetterAbsent(w: string, v: string)
    requires |v| > 0 && Avoids(w, Lower(v[0]))
    ensures !ContainsFolded(w, v)
  {
    assert w[..|w|] == w;
    if |v| <= |w| {
      FirstLetterAbsent(w, v, |w|);
    }
  }

  /** No status occurs inside another. */
  lemma StatusesApart(v: string, w: string)
    requires v in Statuses && w in Statuses
    ensures ContainsFolded(w, v) <==> v == w
  {
    if v == w {
      ContainsItself(v);
    } else if v == "DONE" && w == "TO DO" {
      DoneNotInToDo();
    } else if w == "IN PROGRESS" && v != "IN PROGRESS" {
      assert Avoids("IN PROGRESS", 'd') && Avoids("IN PROGRESS", 't');
      LetterAbsent(w, v);
    } else {
      assert |v| > |w|;
    }
  }

  /** No priority occurs inside another. */
  lemma PrioritiesApart(v: string, w: string)
    requires v in Priorities && w in Priorities
    ensures ContainsFolded(w, v) <==> v == w
  {
    if v == w {
      ContainsItself(v);
    } else if v == "LOW" {
      assert Avoids("HIGH", 'l') && Avoids("MEDIUM", 'l');
      LetterAbsent(w, "LOW");
    } else if v == "HIGH" {
      assert Avoids("LOW", 'h') && Avoids("MEDIUM", 'h');
      LetterAbsent(w, "HIGH");
    } else {
      assert Avoids("LOW", 'm') && Avoids("HIGH", 'm');
      LetterAbsent(w, "MEDIUM");
    }
  }

  /** A string whose last letter differs from that of `v` does not end with `v`. */
  lemma LastLetterDiffers(w: string, v: string)
    requires 0 < |v| <= |w| && Lower(w[|w| - 1]) != Lower(v[|v| - 1])
    ensures !EndsWithFolded(w, v)
  {
    assert w[|w| - |v|..][|v| - 1] == w[|w| - 1];
  }

  /** No category ends another. */
  lemma CategoriesApart(v: string, w: string)
    requires v in Categories && w in Categories
    ensures EndsWithFolded(w, v) <==> v == w
  {
    if v == w {
      assert w[|w| - |v|..] == w;
    } else if |v| <= |w| {
      LastLetterDiffers(w, v);
    }
  }

  /** Against an allowed status, an empty or allowed status filter is an exact match. */
  lemma StatusFilterExact(s: string, status: string)
    requires FilterOk(s, Statuses) && status in Statuses
    ensures Like("%" + s + "%", status) <==> s == "" || status == s
  {
    if s == "" {
      assert "%" + s + "%" == "%%";
      LikeAnything(status);
    } else {
      assert Literal(s);
      LikeContains(s, status);
      StatusesApart(s, status);
    }
  }

  /** Against an allowed priority, an empty or allowed priority filter is an exact match. */
  lemma PriorityFilterExact(p: string, priority: string)
    requires FilterOk(p, Priorities) && priority in Priorities
    ensures Like("%" + p + "%", priority) <==> p == "" || priority == p
  {
    if p == "" {
      assert "%" + p + "%" == "%%";
      LikeAnything(priority);
    } else {
      assert Literal(p);
      LikeContains(p, priority);
      PrioritiesApart(p, priority);
    }
  }

  /** Against an allowed category, an empty or allowed category filter is an exact match. */
  lemma CategoryFilterExact(c: string, category: string)
    requires FilterOk(c, Categories) && category in Categories
    ensures Like("%" + c, category) <==> c == "" || category == c
  {
    if c == "" {
      assert "%" + c == "%";
      LikeAnything(category);
    } else {
      assert Literal(c);
      LikeEndsWith(c, category);
      CategoriesApart(c, category);
    }
  }

  /** On a row whose enumerated columns hold allowed values, the filters of a
      list request that passed validation are exact: an empty filter keeps
      every row, a nonempty one keeps the rows holding exactly that value. */
  lemma ValidatedFiltersAreExact(s: string, p: string, x: string, c: string, t: Todo)
    requires CheckFilters(s, p, c) == None
    requires Enumerated(t)
    ensures Selects(Filter(s, p, x, c), t) <==>
      (s == "" || t.status == s) && (p == "" || t.priority == p) &&
      Like("%" + x + "%", t.todo) && (c == "" || t.category == c)
  {
    StatusFilterExact(s, t.status);
    PriorityFilterExact(p, t.priority);
    CategoryFilterExact(c, t.category);
  }
}
