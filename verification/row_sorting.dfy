/** `applySorting` of `utils/grouping.ts`: a stable multi-key sort of contract rows that, when a
    `taskId` key is present, first re-sorts every row's member list in place. */
module RowSorting {
  import opened Optional
  import opened Seqs
  import opened Text
  import opened Tasks
  import opened StableSort

  datatype Order = Asc | Desc

  datatype SortState = SortState(field: string, order: Order)

  /** `String(value)` of a row field: an absent field prints as "undefined". */
  function FieldText(v: Option<string>): string
  {
    match v
    case Some(s) => s
    case None => "undefined"
  }

  /** `String(task)` of a member: a plain object. */
  const ObjectText: string := "[object Object]"

  /** `String(row.tasks)` for a member list of length `n`: the members' texts joined by commas. */
  function MembersText(n: nat): (r: string)
    ensures n > 0 ==> r != []
  {
    if n == 0 then ""
    else if n == 1 then ObjectText
    else ObjectText + "," + MembersText(n - 1)
  }

  /** `MembersText` is `String` of an array of `n` objects. */
  lemma {:induction false} MembersTextIsJoin(n: nat)
    ensures MembersText(n) == JoinCommas(seq(n, i => ObjectText))
  {
    if n > 1 {
      MembersTextIsJoin(n - 1);
      assert seq(n, i => ObjectText)[1..] == seq(n - 1, i => ObjectText);
    }
  }

  /** Member lists of different lengths print in the order of their lengths. */
  lemma {:induction false} MembersTextOrder(m: nat, n: nat)
    requires m < n
    ensures LexCompare(MembersText(m), MembersText(n)) == -1
  {
    if m == 1 {
      OneMemberFirst(n);
    } else if m > 1 {
      MembersTextOrder(m - 1, n - 1);
      LexCompareSharedPrefix(ObjectText + ",", MembersText(m - 1), MembersText(n - 1));
    }
  }

  /** A single member prints before any longer list, which it begins. */
  lemma OneMemberFirst(n: nat)
    requires n > 1
    ensures LexCompare(MembersText(1), MembersText(n)) == -1
  {
    AppendAssociative(ObjectText, ",", MembersText(n - 1));
    LexCompareProperPrefix(ObjectText, "," + MembersText(n - 1));
  }

  /** The value a key reads on a row, printed. */
  function KeyText(row: TaskRow, field: string): string
  {
    if field == "tasks" then MembersText(|row.tasks|) else FieldText(RowField(row, field))
  }

  /** Two rows count as alike on a key: the same member count for `tasks`, the same value for
      any other field. */
  predicate SameOnKey(a: TaskRow, b: TaskRow, field: string)
  {
    if field == "tasks" then |a.tasks| == |b.tasks| else RowField(a, field) == RowField(b, field)
  }

  /** Rows are alike on a key exactly when it prints alike on both. */
  lemma SameOnKeyIffText(a: TaskRow, b: TaskRow, field: string)
    ensures SameOnKey(a, b, field) <==> KeyText(a, field) == KeyText(b, field)
  {
    if field == "tasks" {
      var m, n := |a.tasks|, |b.tasks|;
      LexCompareZero(KeyText(a, field), KeyText(b, field));
      if m < n {
        MembersTextOrder(m, n);
      } else if n < m {
        MembersTextOrder(n, m);
      }
    } else if RowField(a, field) != RowField(b, field) {
      RowFieldPresence(a, b, field);
    }
  }

  /** The row comparator. A key on which both rows hold the identical value falls through to the
      next; any other key decides, by `localeCompare` of the printed values, negated for `desc`;
      rows that fall through every key compare as 0. Two rows never share a member array, so a
      `tasks` key always decides, by the printed lists; a row has no `triggeredTasks`, `openTasks`
      or `taskId` field, so under those keys both sides are absent and fall through: the numeric
      and digit branches of the source never decide a row comparison. */
  function CompareRows(a: TaskRow, b: TaskRow, keys: seq<SortState>): (r: int)
    ensures -1 <= r <= 1
  {
    if keys == [] then 0
    else
      var field := keys[0].field;
      if field != "tasks" && RowField(a, field) == RowField(b, field) then CompareRows(a, b, keys[1..])
      else
        var comparison := LexCompare(KeyText(a, field), KeyText(b, field));
        if keys[0].order == Asc then comparison else -comparison
  }

  /** "`a` may come before `b`" for the row sort. */
  function RowLe(keys: seq<SortState>): (TaskRow, TaskRow) -> bool
  {
    (a, b) => CompareRows(a, b, keys) <= 0
  }

  /** How many keys the comparator can read: all of them, or up to and including the first
      `tasks` key, which always decides. */
  function Consulted(keys: seq<SortState>): (n: nat)
    ensures n <= |keys|
    ensures forall j :: 0 <= j < n - 1 ==> keys[j].field != "tasks"
    ensures n < |keys| ==> n > 0 && keys[n - 1].field == "tasks"
    ensures (forall j :: 0 <= j < |keys| ==> keys[j].field != "tasks") ==> n == |keys|
  {
    if keys == [] then 0
    else if keys[0].field == "tasks" then 1
    else 1 + Consulted(keys[1..])
  }

  /** Rows are alike on the first `n` keys. */
  predicate AgreeOn(a: TaskRow, b: TaskRow, keys: seq<SortState>, n: nat)
    requires n <= |keys|
  {
    forall j :: 0 <= j < n ==> SameOnKey(a, b, keys[j].field)
  }

  /** The first key the rows are not alike on, or the first `tasks` key, decides the comparison,
      in the key's direction; a key they are not alike on makes it nonzero. */
  lemma {:induction false} FirstDecidingKey(a: TaskRow, b: TaskRow, keys: seq<SortState>, i: nat)
    requires i < Consulted(keys) && AgreeOn(a, b, keys, i)
    requires keys[i].field == "tasks" || !SameOnKey(a, b, keys[i].field)
    ensures var c := LexCompare(KeyText(a, keys[i].field), KeyText(b, keys[i].field));
            CompareRows(a, b, keys) == if keys[i].order == Asc then c else -c
    ensures !SameOnKey(a, b, keys[i].field) ==> CompareRows(a, b, keys) != 0
  {
    SameOnKeyIffText(a, b, keys[i].field);
    LexCompareZero(KeyText(a, keys[i].field), KeyText(b, keys[i].field));
    if i > 0 {
      assert keys[0].field != "tasks" && SameOnKey(a, b, keys[0].field);
      assert keys[1..][i - 1] == keys[i];
      FirstDecidingKey(a, b, keys[1..], i - 1);
    }
  }

  /** Rows compare as 0 exactly when they are alike on every key the comparator reads. */
  lemma {:induction false} CompareRowsZero(a: TaskRow, b: TaskRow, keys: seq<SortState>)
    ensures CompareRows(a, b, keys) == 0 <==> AgreeOn(a, b, keys, Consulted(keys))
  {
    if keys != [] {
      var field := keys[0].field;
      if field == "tasks" {
        SameOnKeyIffText(a, b, field);
        LexCompareZero(KeyText(a, field), KeyText(b, field));
      } else if RowField(a, field) == RowField(b, field) {
        CompareRowsZero(a, b, keys[1..]);
        assert AgreeOn(a, b, keys, Consulted(keys)) <==> AgreeOn(a, b, keys[1..], Consulted(keys[1..]));
      } else {
        FirstDecidingKey(a, b, keys, 0);
      }
    }
  }

  lemma {:induction false} CompareRowsAntisymmetric(a: TaskRow, b: TaskRow, keys: seq<SortState>)
    ensures CompareRows(a, b, keys) == -CompareRows(b, a, keys)
  {
    if keys != [] {
      var field := keys[0].field;
      if field != "tasks" && RowField(a, field) == RowField(b, field) {
        CompareRowsAntisymmetric(a, b, keys[1..]);
      } else {
        LexCompareAntisymmetric(KeyText(a, field), KeyText(b, field));
      }
    }
  }

  /** One key, read in its direction, orders printed values transitively. */
  lemma KeyTransitive(x: string, y: string, z: string, order: Order)
    requires (if order == Asc then LexCompare(x, y) else -LexCompare(x, y)) <= 0
    requires (if order == Asc then LexCompare(y, z) else -LexCompare(y, z)) <= 0
    ensures (if order == Asc then LexCompare(x, z) else -LexCompare(x, z)) <= 0
  {
    if order == Asc {
      LexCompareTransitive(x, y, z);
    } else {
      LexCompareAntisymmetric(x, y);
      LexCompareAntisymmetric(y, z);
      LexCompareAntisymmetric(x, z);
      LexCompareTransitive(z, y, x);
    }
  }

  /** Strict order by one key, as the comparator reads it: the outer values differ. */
  lemma KeyStrictTransitive(x: string, y: string, z: string, order: Order)
    requires x != y && y != z
    requires (if order == Asc then LexCompare(x, y) else -LexCompare(x, y)) <= 0
    requires (if order == Asc then LexCompare(y, z) else -LexCompare(y, z)) <= 0
    ensures x != z
    ensures (if order == Asc then LexCompare(x, z) else -LexCompare(x, z)) <= 0
  {
    KeyTransitive(x, y, z, order);
    LexCompareZero(x, y);
    LexCompareAntisymmetric(x, y);
  }

  lemma {:induction false} CompareRowsTransitive(a: TaskRow, b: TaskRow, c: TaskRow, keys: seq<SortState>)
    requires CompareRows(a, b, keys) <= 0 && CompareRows(b, c, keys) <= 0
    ensures CompareRows(a, c, keys) <= 0
  {
    if keys != [] {
      var f, o := keys[0].field, keys[0].order;
      var x, y, z := RowField(a, f), RowField(b, f), RowField(c, f);
      if f == "tasks" {
        KeyTransitive(KeyText(a, f), KeyText(b, f), KeyText(c, f), o);
      } else if x == y && y == z {
        CompareRowsTransitive(a, b, c, keys[1..]);
      } else if x != y && y != z {
        FieldTextDiffers(a, b, f);
        FieldTextDiffers(b, c, f);
        KeyStrictTransitive(FieldText(x), FieldText(y), FieldText(z), o);
      }
    }
  }

  /** Two distinct row field values never print alike (a field is present on both rows or on
      neither). */
  lemma FieldTextDiffers(a: TaskRow, b: TaskRow, field: string)
    requires RowField(a, field) != RowField(b, field)
    ensures FieldText(RowField(a, field)) != FieldText(RowField(b, field))
  {
    RowFieldPresence(a, b, field);
  }

  /** The row comparator is a total preorder on any rows: `Array.prototype.sort` is given a
      consistent comparator. */
  lemma RowLeTotalPreorder(keys: seq<SortState>, rows: seq<TaskRow>)
    ensures TotalPreorderOn(RowLe(keys), rows)
  {
    forall a, b | a in rows && b in rows ensures RowLe(keys)(a, b) || RowLe(keys)(b, a) {
      CompareRowsAntisymmetric(a, b, keys);
    }
    forall a, b, c | a in rows && b in rows && c in rows && RowLe(keys)(a, b) && RowLe(keys)(b, c)
      ensures RowLe(keys)(a, c)
    {
      CompareRowsTransitive(a, b, c, keys);
    }
  }

  /** The first `taskId` key, which orders the member lists. */
  function TaskIdKey(keys: seq<SortState>): (r: Option<SortState>)
    ensures r.None? <==> forall i :: 0 <= i < |keys| ==> keys[i].field != "taskId"
    ensures r.Some? ==> exists i :: 0 <= i < |keys| && keys[i] == r.value && r.value.field == "taskId"
                          && forall j :: 0 <= j < i ==> keys[j].field != "taskId"
  {
    if keys == [] then None
    else if keys[0].field == "taskId" then Some(keys[0])
    else
      var r := TaskIdKey(keys[1..]);
      if r.Some? then
        var i :| 0 <= i < |keys[1..]| && keys[1..][i] == r.value && r.value.field == "taskId"
                 && forall j :: 0 <= j < i ==> keys[1..][j].field != "taskId";
        assert keys[i + 1] == r.value;
        r
      else r
  }

  /** The member comparator: `aNum - bNum` for `asc`, `bNum - aNum` for `desc`, where the numbers
      are the digits of the task ids. A `NaN` difference counts as 0, as `Array.prototype.sort`
      reads it. */
  function TaskIdComparison(a: Task, b: Task, order: Order): int
  {
    match (DigitNumber(a.taskId), DigitNumber(b.taskId))
    case (Some(x), Some(y)) => if order == Asc then x as int - y else y as int - x
    case _ => 0
  }

  function TaskIdLe(order: Order): (Task, Task) -> bool
  {
    (a, b) => TaskIdComparison(a, b, order) <= 0
  }

  /** Every task id carries a digit, so no member comparison is `NaN`. */
  predicate AllHaveDigits(tasks: seq<Task>)
  {
    forall t :: t in tasks ==> DigitNumber(t.taskId).Some?
  }

  /** On ids that carry digits the member comparator is a total preorder. */
  lemma TaskIdLeTotalPreorder(order: Order, tasks: seq<Task>)
    requires AllHaveDigits(tasks)
    ensures TotalPreorderOn(TaskIdLe(order), tasks)
  {
    var le := TaskIdLe(order);
    forall a, b | a in tasks && b in tasks ensures le(a, b) || le(b, a) {
      TaskIdComparisonAntisymmetric(a, b, order);
    }
    forall a, b, c | a in tasks && b in tasks && c in tasks && le(a, b) && le(b, c)
      ensures le(a, c)
    {
      TaskIdComparisonTransitive(a, b, c, order);
    }
  }

  lemma TaskIdComparisonAntisymmetric(a: Task, b: Task, order: Order)
    ensures TaskIdComparison(a, b, order) == -TaskIdComparison(b, a, order)
  {
  }

  lemma TaskIdComparisonTransitive(a: Task, b: Task, c: Task, order: Order)
    requires DigitNumber(b.taskId).Some?
    requires TaskIdComparison(a, b, order) <= 0 && TaskIdComparison(b, c, order) <= 0
    ensures TaskIdComparison(a, c, order) <= 0
  {
  }

  /** Member ids are ordered by their numbers: of "T" followed by the digits of `m` and "T"
      followed by the digits of `n`, the smaller number comes first under `asc` and last under
      `desc`. */
  lemma TaskIdsCompareByNumber(a: Task, b: Task, m: nat, n: nat)
    requires a.taskId == ['T'] + NatToString(m) && b.taskId == ['T'] + NatToString(n)
    requires m < n
    ensures TaskIdComparison(a, b, Asc) < 0 < TaskIdComparison(a, b, Desc)
  {
    DigitNumberAfterPrefix('T', m);
    DigitNumberAfterPrefix('T', n);
  }

  /** Lexically, "T10" comes before "T2": the order by number differs from the text order. */
  lemma TextOrderDiffers()
    ensures LexCompare("T10", "T2") < 0
  {
    assert "T10"[1..] == "10" && "T2"[1..] == "2";
  }

  /** A member list re-sorted by the first `taskId` key. */
  function SortMembers(row: TaskRow, key: SortState): TaskRow
  {
    row.(tasks := SortBy(row.tasks, TaskIdLe(key.order)))
  }

  /** The re-sorted member list is a permutation of the old one, ordered by the digits of the
      task ids in the key's direction. */
  lemma SortMembersOrdered(row: TaskRow, key: SortState)
    requires AllHaveDigits(row.tasks)
    ensures multiset(SortMembers(row, key).tasks) == multiset(row.tasks)
    ensures var s := SortMembers(row, key).tasks;
      forall i, j | 0 <= i < j < |s| ::
        DigitNumber(s[i].taskId).Some? && DigitNumber(s[j].taskId).Some? &&
        if key.order == Asc then DigitNumber(s[i].taskId).value <= DigitNumber(s[j].taskId).value
        else DigitNumber(s[i].taskId).value >= DigitNumber(s[j].taskId).value
  {
    var s := SortMembers(row, key).tasks;
    TaskIdLeTotalPreorder(key.order, row.tasks);
    SortBySorted(row.tasks, TaskIdLe(key.order));
    forall t | t in s ensures DigitNumber(t.taskId).Some? {
      assert t in multiset(row.tasks);
    }
    SortedByNumber(s, key.order);
  }

  /** A member list ordered by the comparator lists the numbers of its ids in the key's
      direction. */
  lemma SortedByNumber(s: seq<Task>, order: Order)
    requires AllHaveDigits(s) && Sorted(s, TaskIdLe(order))
    ensures forall i, j | 0 <= i < j < |s| ::
      DigitNumber(s[i].taskId).Some? && DigitNumber(s[j].taskId).Some? &&
      if order == Asc then DigitNumber(s[i].taskId).value <= DigitNumber(s[j].taskId).value
      else DigitNumber(s[i].taskId).value >= DigitNumber(s[j].taskId).value
  {
    forall i, j | 0 <= i < j < |s|
      ensures DigitNumber(s[i].taskId).Some? && DigitNumber(s[j].taskId).Some?
      ensures TaskIdLe(order)(s[i], s[j])
    {
      assert s[i] in s && s[j] in s;
    }
  }

  /** Members with the same number keep their old relative order. */
  lemma SortMembersStable(row: TaskRow, key: SortState, e: Task)
    requires AllHaveDigits(row.tasks) && e in row.tasks
    ensures Equivalents(SortMembers(row, key).tasks, e, TaskIdLe(key.order))
         == Equivalents(row.tasks, e, TaskIdLe(key.order))
  {
    TaskIdLeTotalPreorder(key.order, row.tasks);
    SortByStable(row.tasks, e, TaskIdLe(key.order));
  }

  /** The rows after the in-place step of `applySorting`: with a `taskId` key every row has its
      member list re-sorted by the first such key; otherwise the rows are as they were. */
  function MembersSorted(rows: seq<TaskRow>, keys: seq<SortState>): (r: seq<TaskRow>)
    ensures |r| == |rows|
    ensures TaskIdKey(keys).None? ==> r == rows
    ensures TaskIdKey(keys).Some? ==>
      forall i :: 0 <= i < |rows| ==> r[i] == SortMembers(rows[i], TaskIdKey(keys).value)
  {
    match TaskIdKey(keys)
    case None => rows
    case Some(key) => seq(|rows|, i requires 0 <= i < |rows| => SortMembers(rows[i], key))
  }

  /** What `applySorting` returns: the rows themselves without keys, otherwise the stably sorted
      copy of the rows after the member step. */
  function SortRows(rows: seq<TaskRow>, keys: seq<SortState>): (r: seq<TaskRow>)
    ensures keys == [] ==> r == rows
    ensures multiset(r) == multiset(MembersSorted(rows, keys))
  {
    if keys == [] then rows else SortBy(MembersSorted(rows, keys), RowLe(keys))
  }

  /** The in-place step of `applySorting`: every slot of the caller's array gets its row with the
      member list re-sorted by `key` (the source reassigns `row.tasks` on the caller's objects). */
  method SortMembersInPlace(rows: array<TaskRow>, key: SortState)
    modifies rows
    ensures forall j :: 0 <= j < rows.Length ==> rows[j] == SortMembers(old(rows[j]), key)
  {
    ghost var before := rows[..];
    for i := 0 to rows.Length
      invariant forall j :: 0 <= j < i ==> rows[j] == SortMembers(before[j], key)
      invariant forall j :: i <= j < rows.Length ==> rows[j] == before[j]
    {
      var row := rows[i];
      var sortedRow := SortMembers(row, key);
      rows[i] := sortedRow;
    }
  }

  /** `applySorting`. With no keys the rows come back as they are. Otherwise, when a `taskId` key
      is present, the member lists are re-sorted in place first; then a stably sorted copy of the
      rows is returned. */
  method ApplySorting(rows: array<TaskRow>, sortStates: seq<SortState>) returns (r: seq<TaskRow>)
    modifies rows
    ensures rows[..] == MembersSorted(old(rows[..]), sortStates)
    ensures r == SortRows(old(rows[..]), sortStates)
  {
    if |sortStates| == 0 {
      return rows[..];
    }
    var taskIdSort := TaskIdKey(sortStates);
    if taskIdSort.Some? {
      SortMembersInPlace(rows, taskIdSort.value);
    }
    r := SortBy(rows[..], RowLe(sortStates));
  }

  /** The sorted copy is a permutation of the rows, ordered by the keys, and rows that agree on
      every key keep their relative order. */
  lemma SortedRowsSpec(rows: seq<TaskRow>, keys: seq<SortState>)
    ensures multiset(SortBy(rows, RowLe(keys))) == multiset(rows)
    ensures Sorted(SortBy(rows, RowLe(keys)), RowLe(keys))
    ensures forall e :: e in rows ==>
      Equivalents(SortBy(rows, RowLe(keys)), e, RowLe(keys)) == Equivalents(rows, e, RowLe(keys))
  {
    RowLeTotalPreorder(keys, rows);
    SortBySorted(rows, RowLe(keys));
    forall e | e in rows
      ensures Equivalents(SortBy(rows, RowLe(keys)), e, RowLe(keys)) == Equivalents(rows, e, RowLe(keys))
    {
      SortByStable(rows, e, RowLe(keys));
    }
  }

  /** Two rows are sort-equivalent exactly when they are alike on every key the comparator
      reads. */
  lemma EquivalentIffAgree(a: TaskRow, b: TaskRow, keys: seq<SortState>)
    ensures EquivalentTo(b, RowLe(keys))(a) <==> AgreeOn(a, b, keys, Consulted(keys))
  {
    CompareRowsAntisymmetric(a, b, keys);
    CompareRowsZero(a, b, keys);
  }

  /** Sorting sorted rows again changes nothing. */
  lemma SortRowsIdempotent(rows: seq<TaskRow>, keys: seq<SortState>)
    ensures SortBy(SortBy(rows, RowLe(keys)), RowLe(keys)) == SortBy(rows, RowLe(keys))
  {
    RowLeTotalPreorder(keys, rows);
    SortByIdempotent(rows, RowLe(keys));
  }

  /** A row has no `triggeredTasks` or `openTasks` field, so keys naming only those fields leave
      the rows exactly as they were: the numeric branch of the comparator is never reached. */
  lemma CountKeysKeepOrder(rows: seq<TaskRow>, keys: seq<SortState>)
    requires forall j :: 0 <= j < |keys| ==> keys[j].field == "triggeredTasks" || keys[j].field == "openTasks"
    ensures SortRows(rows, keys) == rows
  {
    if keys != [] {
      forall a, b ensures RowLe(keys)(a, b) {
        CompareRowsZero(a, b, keys);
      }
      assert MembersSorted(rows, keys) == rows;
      SortBySortedFixpoint(rows, RowLe(keys));
    }
  }
  /** Under a `tasks` key, as the Tasks column header sorts, rows compare by their member counts:
      fewer members first for `asc`, last for `desc`, and equal counts tie whatever keys follow. */
  lemma TasksKeyByCount(a: TaskRow, b: TaskRow, order: Order, rest: seq<SortState>)
    ensures var keys := [SortState("tasks", order)] + rest;
            var c := if |a.tasks| < |b.tasks| then -1 else if |a.tasks| == |b.tasks| then 0 else 1;
            CompareRows(a, b, keys) == if order == Asc then c else -c
  {
    var m, n := |a.tasks|, |b.tasks|;
    if m < n {
      MembersTextOrder(m, n);
    } else if n < m {
      MembersTextOrder(n, m);
      LexCompareAntisymmetric(MembersText(m), MembersText(n));
    } else {
      LexCompareZero(MembersText(m), MembersText(n));
    }
  }

  /** Rows with `n` members. */
  function HasCount(n: nat): TaskRow -> bool
  {
    (row: TaskRow) => |row.tasks| == n
  }

  /** Sorting by the Tasks column: a permutation of the rows, ordered by member count in the
      key's direction, in which the rows of each count keep their relative order. */
  lemma SortByMembers(rows: seq<TaskRow>, order: Order)
    ensures var s := SortRows(rows, [SortState("tasks", order)]);
      && multiset(s) == multiset(rows)
      && (forall i, j | 0 <= i < j < |s| ::
            if order == Asc then |s[i].tasks| <= |s[j].tasks| else |s[i].tasks| >= |s[j].tasks|)
      && forall n: nat :: Filter(s, HasCount(n)) == Filter(rows, HasCount(n))
  {
    var keys := [SortState("tasks", order)];
    assert TaskIdKey(keys).None?;
    var s := SortRows(rows, keys);
    assert s == SortBy(rows, RowLe(keys));
    SortedRowsSpec(rows, keys);
    OrderedByCount(s, order);
    forall n: nat ensures Filter(s, HasCount(n)) == Filter(rows, HasCount(n)) {
      SameCountKeepsOrder(rows, s, order, n);
    }
  }

  /** Rows sorted by a `tasks` key list their member counts in the key's direction. */
  lemma OrderedByCount(s: seq<TaskRow>, order: Order)
    requires Sorted(s, RowLe([SortState("tasks", order)]))
    ensures forall i, j | 0 <= i < j < |s| ::
      if order == Asc then |s[i].tasks| <= |s[j].tasks| else |s[i].tasks| >= |s[j].tasks|
  {
    forall i, j | 0 <= i < j < |s|
      ensures if order == Asc then |s[i].tasks| <= |s[j].tasks| else |s[i].tasks| >= |s[j].tasks|
    {
      assert RowLe([SortState("tasks", order)])(s[i], s[j]);
      TasksKeyByCount(s[i], s[j], order, []);
    }
  }

  /** Under a `tasks` key the rows the sort ties with a row of `n` members are the rows of `n`
      members, so a stable sort keeps those in order. */
  lemma SameCountKeepsOrder(rows: seq<TaskRow>, s: seq<TaskRow>, order: Order, n: nat)
    requires multiset(s) == multiset(rows)
    requires forall e :: e in rows ==>
      Equivalents(s, e, RowLe([SortState("tasks", order)])) == Equivalents(rows, e, RowLe([SortState("tasks", order)]))
    ensures Filter(s, HasCount(n)) == Filter(rows, HasCount(n))
  {
    var le := RowLe([SortState("tasks", order)]);
    if e :| e in rows && |e.tasks| == n {
      forall x ensures EquivalentTo(e, le)(x) == HasCount(n)(x) {
        TasksKeyByCount(x, e, order, []);
        TasksKeyByCount(e, x, order, []);
      }
      FilterSamePredicate(s, EquivalentTo(e, le), HasCount(n));
      FilterSamePredicate(rows, EquivalentTo(e, le), HasCount(n));
    } else {
      forall x | x in s ensures !HasCount(n)(x) {
        assert x in multiset(rows);
      }
      FilterDropsAll(s, HasCount(n));
      FilterDropsAll(rows, HasCount(n));
    }
  }
}
