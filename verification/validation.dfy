/** The checks the handlers run on a request before touching the table:
    the three closed value sets, the due-date reading, and the two
    if/else-if chains (the lenient one of the list route, the strict one of
    create and update). The first failing check decides the answer. */
module Validation {
  import opened Wrappers
  import opened JsStrings

  const Statuses: set<string> := {"TO DO", "IN PROGRESS", "DONE"}
  const Priorities: set<string> := {"HIGH", "MEDIUM", "LOW"}
  const Categories: set<string> := {"WORK", "HOME", "LEARNING"}

  /** The four 400 answers, in the order the checks run. */
  datatype Rejection = InvalidStatus | InvalidPriority | InvalidCategory | InvalidDueDate
  {
    function Message(): string
    {
      match this
      case InvalidStatus => "Invalid Todo Status"
      case InvalidPriority => "Invalid Todo Priority"
      case InvalidCategory => "Invalid Todo Category"
      case InvalidDueDate => "Invalid Due Date"
    }
  }

  /** A list filter passes when it is empty (no filter) or an allowed value. */
  predicate FilterOk(v: string, allowed: set<string>)
  {
    v == "" || v in allowed
  }

  /** A create or update field passes only when it is present and allowed. */
  predicate FieldOk(v: Option<string>, allowed: set<string>)
  {
    v.Some? && v.value in allowed
  }

  /** The check chain of the list route: status, then priority, then category. */
  function CheckFilters(status: string, priority: string, category: string): (r: Option<Rejection>)
    ensures r == None <==>
      FilterOk(status, Statuses) && FilterOk(priority, Priorities) && FilterOk(category, Categories)
    ensures r == Some(InvalidStatus) <==> !FilterOk(status, Statuses)
    ensures r == Some(InvalidPriority) <==>
      FilterOk(status, Statuses) && !FilterOk(priority, Priorities)
    ensures r == Some(InvalidCategory) <==>
      FilterOk(status, Statuses) && FilterOk(priority, Priorities) && !FilterOk(category, Categories)
    ensures r != Some(InvalidDueDate)
  {
    if !FilterOk(status, Statuses) then Some(InvalidStatus)
    else if !FilterOk(priority, Priorities) then Some(InvalidPriority)
    else if !FilterOk(category, Categories) then Some(InvalidCategory)
    else None
  }

  /** The check chain of create and update: status, priority, category, and
      only then the due date. */
  function CheckFields(status: Option<string>, priority: Option<string>, category: Option<string>,
                       dateValid: bool): (r: Option<Rejection>)
    ensures r == None <==>
      FieldOk(status, Statuses) && FieldOk(priority, Priorities) && FieldOk(category, Categories) && dateValid
    ensures r == Some(InvalidStatus) <==> !FieldOk(status, Statuses)
    ensures r == Some(InvalidPriority) <==>
      FieldOk(status, Statuses) && !FieldOk(priority, Priorities)
    ensures r == Some(InvalidCategory) <==>
      FieldOk(status, Statuses) && FieldOk(priority, Priorities) && !FieldOk(category, Categories)
    ensures r == Some(InvalidDueDate) <==>
      FieldOk(status, Statuses) && FieldOk(priority, Priorities) && FieldOk(category, Categories) && !dateValid
  {
    if !FieldOk(status, Statuses) then Some(InvalidStatus)
    else if !FieldOk(priority, Priorities) then Some(InvalidPriority)
    else if !FieldOk(category, Categories) then Some(InvalidCategory)
    else if !dateValid then Some(InvalidDueDate)
    else None
  }

  /** The strict chain never accepts what the lenient one refuses, and on
      nonempty values with a valid date both give the same answer. */
  lemma StrictChainRefinesFilters(status: string, priority: string, category: string)
    ensures CheckFields(Some(status), Some(priority), Some(category), true) == None ==>
            CheckFilters(status, priority, category) == None
    ensures status != "" && priority != "" && category != "" ==>
            CheckFields(Some(status), Some(priority), Some(category), true) ==
            CheckFilters(status, priority, category)
  {
  }

  /** An empty value is "no filter" when listing but an invalid field when
      creating or updating. */
  lemma EmptyValueIsFilterNotField(status: Option<string>, priority: Option<string>,
                                   category: Option<string>, dateValid: bool)
    ensures CheckFilters("", "", "") == None
    ensures status == Some("") ==> CheckFields(status, priority, category, dateValid) == Some(InvalidStatus)
    ensures FieldOk(status, Statuses) && priority == Some("") ==>
            CheckFields(status, priority, category, dateValid) == Some(InvalidPriority)
    ensures FieldOk(status, Statuses) && FieldOk(priority, Priorities) && category == Some("") ==>
            CheckFields(status, priority, category, dateValid) == Some(InvalidCategory)
  {
  }

  /** The three numbers `new Date(year, month, date)` receives after
      `dueDate.split("-").map(parseInt)`: `None` is NaN, also when the
      split gave fewer than three pieces (the missing ones are undefined). */
  datatype DateArgs = DateArgs(year: Option<int>, month: Option<int>, day: Option<int>)

  function Piece(parts: seq<string>, i: nat): Option<int>
  {
    if i < |parts| then ParseInt(parts[i]) else None
  }

  /** `let [year, month, date] = dueDate.split("-").map(parseInt)`. */
  function ParseDate(s: string): DateArgs
  {
    var parts := Split(s, '-');
    DateArgs(Piece(parts, 0), Piece(parts, 1), Piece(parts, 2))
  }

  /** The arguments of `new Date(year, month - 1, date)`, the date that is formatted. */
  function PrevMonth(a: DateArgs): DateArgs
  {
    DateArgs(a.year, match a.month case Some(m) => Some(m - 1) case None => None, a.day)
  }

  /** The date library the handlers call: `isValid(new Date(y, m, d))` and
      `format(new Date(y, m, d), "yyyy-MM-dd")`, both taken as given. */
  datatype Calendar = Calendar(isValid: DateArgs -> bool, format: DateArgs -> string)

  /** A JavaScript `Date` built from a NaN component is an invalid date. */
  ghost predicate RejectsNaN(cal: Calendar)
  {
    forall a :: cal.isValid(a) ==> a.year.Some? && a.month.Some? && a.day.Some?
  }

  /** A digit string holds no separator. */
  lemma DigitsHaveNoDash(z: string)
    requires AllDigits(z, 10)
    ensures '-' !in z
  {
    assert forall i :: 0 <= i < |z| ==> z[i] != '-';
  }

  /** `yyyy-MM-dd`, the text a formatted due date has. */
  function IsoDate(y: nat, m: nat, d: nat): string
  {
    PadDecimal(y, 4) + "-" + PadDecimal(m, 2) + "-" + PadDecimal(d, 2)
  }

  /** A `yyyy-MM-dd` text is read back as its own year, month and day. */
  lemma ParseIsoDate(y: nat, m: nat, d: nat)
    ensures ParseDate(IsoDate(y, m, d)) == DateArgs(Some(y), Some(m), Some(d))
  {
    var ys, ms, ds := PadDecimal(y, 4), PadDecimal(m, 2), PadDecimal(d, 2);
    DigitsHaveNoDash(ys);
    DigitsHaveNoDash(ms);
    DigitsHaveNoDash(ds);
    assert [ys, ms, ds][1..] == [ms, ds] && [ms, ds][1..] == [ds];
    assert Join([ms, ds], '-') == ms + ['-'] + ds;
    assert IsoDate(y, m, d) == Join([ys, ms, ds], '-');
    SplitJoin([ys, ms, ds], '-');
    ParseIntPadDecimal(y, 4);
    ParseIntPadDecimal(m, 2);
    ParseIntPadDecimal(d, 2);
  }

  /** A due date without two `-` separators leaves the day NaN, so it is refused. */
  lemma TooFewPiecesRejected(cal: Calendar, s: string)
    requires RejectsNaN(cal)
    requires Count(s, '-') < 2
    ensures !cal.isValid(ParseDate(s))
  {
  }
}
