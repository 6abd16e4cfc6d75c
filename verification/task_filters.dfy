/** `applyTaskFilters` of `utils/grouping.ts`: the filter state the panels build, and the test
    each task must pass. */
module TaskFilters {
  import opened Optional
  import opened Seqs
  import opened Text
  import opened Tasks

  /** One element of an array filter value: a string typed in a range box, or the number
      `Number(…)` made of it (None for `NaN`). */
  datatype Scalar = SStr(s: string) | SNum(n: Option<int>)

  /** A filter value: a string, or an array (the bounds of a range). */
  datatype FilterValue = Text(text: string) | List(items: seq<Scalar>)

  /** The operators the filter switch knows, by their names `is`, `isNot`, `contains`,
      `isEmpty`, `isNotEmpty`, `greaterThan`, `lessThan`, `greaterThanOrEqual`,
      `lessThanOrEqual` and `range`; `Unknown` stands for any other name. */
  datatype Operator =
    | Is | IsNot | Contains | IsEmpty | IsNotEmpty
    | GreaterThan | LessThan | GreaterThanOrEqual | LessThanOrEqual
    | Range | Unknown

  datatype Clause = Clause(operator: Operator, value: FilterValue)

  datatype Condition = And | Or

  /** `FilterState`: the combining condition and at most one clause per field. */
  datatype FilterState = FilterState(condition: Condition, filters: map<string, Clause>)

  /** `String(x)` for an array element. */
  function ScalarString(x: Scalar): string
  {
    match x
    case SStr(s) => s
    case SNum(None) => "NaN"
    case SNum(Some(n)) => IntToString(n)
  }

  /** `Number(x)` for an array element. */
  function ScalarNumber(x: Scalar): Option<int>
  {
    match x
    case SStr(s) => ParseNumber(s)
    case SNum(n) => n
  }

  /** `String(filterValue)`: an array prints as its elements joined by commas. */
  function FilterValueString(v: FilterValue): string
  {
    match v
    case Text(s) => s
    case List(xs) => JoinCommas(seq(|xs|, i requires 0 <= i < |xs| => ScalarString(xs[i])))
  }

  /** `Number(filterValue)`: JavaScript converts an array through its string form. */
  function FilterValueNumber(v: FilterValue): Option<int>
  {
    ParseNumber(FilterValueString(v))
  }

  predicate IsEmptyText(s: string)
  {
    s == "" || s == "null" || s == "undefined"
  }

  /** The bounds of a range clause: an array of exactly two elements, neither `NaN`. */
  function RangeBounds(v: FilterValue): (r: Option<(int, int)>)
    ensures r.Some? <==> v.List? && |v.items| == 2
                         && ScalarNumber(v.items[0]).Some? && ScalarNumber(v.items[1]).Some?
  {
    if v.List? && |v.items| == 2 then
      match (ScalarNumber(v.items[0]), ScalarNumber(v.items[1]))
      case (Some(from), Some(to)) => Some((from, to))
      case _ => None
    else None
  }

  /** `Number(a) op Number(b)`: every comparison with `NaN` is false. */
  function CompareNumbers(op: Operator, a: Option<int>, b: Option<int>): bool
  {
    if a.None? || b.None? then false
    else match op
      case GreaterThan => a.value > b.value
      case LessThan => a.value < b.value
      case GreaterThanOrEqual => a.value >= b.value
      case LessThanOrEqual => a.value <= b.value
      case _ => false
  }

  predicate IsComparison(op: Operator)
  {
    op.GreaterThan? || op.LessThan? || op.GreaterThanOrEqual? || op.LessThanOrEqual?
  }

  /** The result one clause gives for one task. A field the task does not have passes `isEmpty`
      only; otherwise strings are compared in lower case, the order operators compare numbers,
      `range` is inclusive, and an operator the switch does not know fails. */
  function ClauseHolds(t: Task, field: string, c: Clause): bool
  {
    match TaskField(t, field)
    case None => c.operator == IsEmpty
    case Some(value) =>
      var stringValue := Lower(ValueString(value));
      var stringFilterValue := Lower(FilterValueString(c.value));
      match c.operator
      case Is => stringValue == stringFilterValue
      case IsNot => stringValue != stringFilterValue
      case Contains => Text.Contains(stringValue, stringFilterValue)
      case IsEmpty => IsEmptyText(stringValue)
      case IsNotEmpty => !IsEmptyText(stringValue)
      case Range =>
        (match RangeBounds(c.value)
         case None => false
         case Some((from, to)) =>
           var numValue := ValueNumber(value);
           numValue.Some? && from <= numValue.value <= to)
      case Unknown => false
      case _ => CompareNumbers(c.operator, ValueNumber(value), FilterValueNumber(c.value))
  }

  /** A task passes when every clause holds (`AND`) or some clause holds (`OR`). */
  predicate Passes(t: Task, fs: FilterState)
  {
    match fs.condition
    case And => forall field :: field in fs.filters ==> ClauseHolds(t, field, fs.filters[field])
    case Or => exists field :: field in fs.filters && ClauseHolds(t, field, fs.filters[field])
  }

  function PassesOf(fs: FilterState): Task -> bool
  {
    t => Passes(t, fs)
  }

  /** `applyTaskFilters`: no clause leaves the tasks as they are; otherwise the tasks that pass,
      in their order. */
  function ApplyTaskFilters(tasks: seq<Task>, fs: FilterState): (r: seq<Task>)
    ensures fs.filters == map[] ==> r == tasks
    ensures fs.filters != map[] ==> forall t :: t in r <==> t in tasks && Passes(t, fs)
    ensures IsSubseq(r, tasks)
    ensures forall t :: multiset(r)[t] == if fs.filters == map[] || Passes(t, fs) then multiset(tasks)[t] else 0
  {
    if fs.filters == map[] then
      SubseqReflexive(tasks);
      tasks
    else
      FilterIsSubseq(tasks, PassesOf(fs));
      FilterCount(tasks, PassesOf(fs));
      Filter(tasks, PassesOf(fs))
  }

  /** A field the task does not have passes `isEmpty` and fails every other operator. */
  lemma MissingField(t: Task, field: string, c: Clause)
    requires field !in TaskFieldNames
    ensures ClauseHolds(t, field, c) <==> c.operator == IsEmpty
  {
  }

  /** `isEmpty` and `isNotEmpty` always disagree, whether or not the task has the field. */
  lemma EmptyOperatorsComplementary(t: Task, field: string, v: FilterValue, w: FilterValue)
    ensures ClauseHolds(t, field, Clause(IsEmpty, v)) != ClauseHolds(t, field, Clause(IsNotEmpty, w))
  {
  }

  /** On a field the task has, `is` and `isNot` disagree; on one it lacks, both fail. */
  lemma IsAndIsNot(t: Task, field: string, v: FilterValue)
    ensures field in TaskFieldNames ==>
      ClauseHolds(t, field, Clause(Is, v)) != ClauseHolds(t, field, Clause(IsNot, v))
    ensures field !in TaskFieldNames ==>
      !ClauseHolds(t, field, Clause(Is, v)) && !ClauseHolds(t, field, Clause(IsNot, v))
  {
  }

  /** `is` ignores the case of ASCII letters: a value matches itself in any casing. */
  lemma IsIgnoresCase(t: Task, field: string, s: string)
    requires field in TaskFieldNames
    ensures ClauseHolds(t, field, Clause(Is, Text(Lower(FieldString(t, field)))))
    ensures ClauseHolds(t, field, Clause(Is, Text(s))) == ClauseHolds(t, field, Clause(Is, Text(Lower(s))))
  {
    LowerIdempotent(s);
    LowerIdempotent(FieldString(t, field));
  }

  /** Whenever `is` holds, `contains` holds with the same value. */
  lemma IsImpliesContains(t: Task, field: string, v: FilterValue)
    requires ClauseHolds(t, field, Clause(Is, v))
    ensures ClauseHolds(t, field, Clause(Contains, v))
  {
    var value := TaskField(t, field).value;
    var s := Lower(ValueString(value));
    assert Text.Contains(s, s) by { assert s <= s; }
  }

  /** On a numeric field, a range with two numeric bounds is an inclusive interval test. */
  lemma RangeOnNumbers(t: Task, field: string, from: int, to: int)
    requires field == "triggeredTasks" || field == "openTasks"
    ensures var n := if field == "triggeredTasks" then t.triggeredTasks else t.openTasks;
            var c := Clause(Range, List([SNum(Some(from)), SNum(Some(to))]));
            ClauseHolds(t, field, c) <==> from <= n <= to
  {
    var n := if field == "triggeredTasks" then t.triggeredTasks else t.openTasks;
    assert TaskField(t, field) == Some(Num(n));
  }

  /** A range whose value is not an array of exactly two numbers rejects every task. */
  lemma RangeNeedsTwoNumbers(t: Task, field: string, v: FilterValue)
    requires RangeBounds(v).None?
    ensures !ClauseHolds(t, field, Clause(Range, v))
  {
  }

  /** `greaterThan` on a numeric field against a number written as text. */
  lemma GreaterThanOnNumbers(t: Task, n: int)
    ensures ClauseHolds(t, "triggeredTasks", Clause(GreaterThan, Text(IntToString(n))))
        <==> t.triggeredTasks > n
  {
    ParseIntToString(n);
    var c := Clause(GreaterThan, Text(IntToString(n)));
    assert TaskField(t, "triggeredTasks") == Some(Num(t.triggeredTasks));
    assert FilterValueNumber(c.value) == Some(n);
    assert ClauseHolds(t, "triggeredTasks", c)
        == CompareNumbers(GreaterThan, Some(t.triggeredTasks), Some(n));
  }

  /** Comparisons with a value that is not a number reject every task. */
  lemma ComparisonWithNaN(t: Task, field: string, op: Operator, v: FilterValue)
    requires IsComparison(op) && FilterValueNumber(v).None?
    ensures !ClauseHolds(t, field, Clause(op, v))
  {
  }

  /** Under `AND` every surviving task satisfies every clause; under `OR`, at least one. */
  lemma AndResultSatisfiesAll(tasks: seq<Task>, fs: FilterState, t: Task, field: string)
    requires fs.condition == And && t in ApplyTaskFilters(tasks, fs) && field in fs.filters
    ensures ClauseHolds(t, field, fs.filters[field])
  {
  }

  /** With the same clauses, `AND` keeps no task that `OR` drops. */
  lemma AndWithinOr(tasks: seq<Task>, filters: map<string, Clause>)
    ensures IsSubseq(ApplyTaskFilters(tasks, FilterState(And, filters)),
                     ApplyTaskFilters(tasks, FilterState(Or, filters)))
  {
    if filters != map[] {
      var and, or := FilterState(And, filters), FilterState(Or, filters);
      FilterSubsumed(tasks, PassesOf(and), PassesOf(or));
    }
  }

  /** Under `OR` a task survives exactly when it survives some clause on its own. */
  lemma OrIsUnion(tasks: seq<Task>, filters: map<string, Clause>, t: Task)
    requires filters != map[]
    ensures t in ApplyTaskFilters(tasks, FilterState(Or, filters)) <==>
      exists field :: field in filters &&
        t in ApplyTaskFilters(tasks, FilterState(And, map[field := filters[field]]))
  {
    if t in tasks && Passes(t, FilterState(Or, filters)) {
      var field :| field in filters && ClauseHolds(t, field, filters[field]);
      var single := FilterState(And, map[field := filters[field]]);
      assert field in single.filters;
      assert Passes(t, single);
    }
    forall field | field in filters &&
      t in ApplyTaskFilters(tasks, FilterState(And, map[field := filters[field]]))
      ensures t in tasks && Passes(t, FilterState(Or, filters))
    {
      assert field in map[field := filters[field]];
    }
  }

  /** With a single clause, `AND` and `OR` agree. */
  lemma SingleClauseConditionIrrelevant(tasks: seq<Task>, field: string, c: Clause)
    ensures ApplyTaskFilters(tasks, FilterState(And, map[field := c]))
         == ApplyTaskFilters(tasks, FilterState(Or, map[field := c]))
  {
    var and, or := FilterState(And, map[field := c]), FilterState(Or, map[field := c]);
    forall t ensures PassesOf(and)(t) == PassesOf(or)(t) {
      assert field in or.filters;
    }
    FilterSamePredicate(tasks, PassesOf(and), PassesOf(or));
  }

  /** Applying the same filter state twice is applying it once. */
  lemma ApplyTaskFiltersIdempotent(tasks: seq<Task>, fs: FilterState)
    ensures ApplyTaskFilters(ApplyTaskFilters(tasks, fs), fs) == ApplyTaskFilters(tasks, fs)
  {
    if fs.filters != map[] {
      FilterIdempotent(tasks, PassesOf(fs));
    }
  }
}
