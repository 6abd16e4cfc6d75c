/** `groupTasksByAttributes` and the expand/collapse transforms of `utils/grouping.ts`. */
module Grouping {
  import opened Optional
  import opened Seqs
  import opened Tasks

  /** The ids of the rows, in row order. */
  function Ids(rows: seq<TaskRow>): (r: seq<string>)
    ensures |r| == |rows|
    ensures forall i :: 0 <= i < |rows| ==> r[i] == rows[i].id
  {
    seq(|rows|, i requires 0 <= i < |rows| => rows[i].id)
  }

  /** The contract ids of the tasks, in input order. */
  function Contracts(tasks: seq<Task>): (r: seq<string>)
    ensures |r| == |tasks|
    ensures forall i :: 0 <= i < |tasks| ==> r[i] == tasks[i].contractId
  {
    seq(|tasks|, i requires 0 <= i < |tasks| => tasks[i].contractId)
  }

  function HasContract(k: string): Task -> bool
  {
    (t: Task) => t.contractId == k
  }

  /** The tasks of contract `k`, in input order. */
  function Members(tasks: seq<Task>, k: string): seq<Task>
  {
    Filter(tasks, HasContract(k))
  }

  /** The row a contract gets when it is first seen: its attributes come from that task, it has
      no members yet and it is collapsed. */
  function NewRow(t: Task): TaskRow
  {
    TaskRow(t.contractId, t.contractId, t.category, t.domain, t.subdomain, t.owner, [], false)
  }

  /** One iteration of the grouping loop: open a row for an unseen contract, then append the task
      to its contract's row. */
  function AddTask(rows: seq<TaskRow>, t: Task): seq<TaskRow>
  {
    match IndexOf(Ids(rows), t.contractId)
    case None => rows + [NewRow(t).(tasks := [t])]
    case Some(j) => rows[j := rows[j].(tasks := rows[j].tasks + [t])]
  }

  /** The rows `groupTasksByAttributes` returns. */
  function Group(tasks: seq<Task>): seq<TaskRow>
  {
    if tasks == [] then [] else AddTask(Group(tasks[..|tasks| - 1]), tasks[|tasks| - 1])
  }

  /** The member lists concatenated in row order. */
  function Flatten(rows: seq<TaskRow>): seq<Task>
  {
    if rows == [] then [] else rows[0].tasks + Flatten(rows[1..])
  }

  /** The sum of the member counts. */
  function MemberCount(rows: seq<TaskRow>): nat
  {
    if rows == [] then 0 else |rows[0].tasks| + MemberCount(rows[1..])
  }

  /** The loop step for a contract not seen before: one new row at the end, found at its index. */
  lemma AddTaskNew(rows: seq<TaskRow>, t: Task)
    requires t.contractId !in Ids(rows)
    ensures var withRow := rows + [NewRow(t)];
      && AddTask(rows, t) == withRow[|rows| := withRow[|rows|].(tasks := withRow[|rows|].tasks + [t])]
      && Ids(AddTask(rows, t)) == Ids(withRow) == Ids(rows) + [t.contractId]
      && IndexOf(Ids(withRow), t.contractId) == Some(|rows|)
      && forall k :: k in Ids(rows) ==> IndexOf(Ids(withRow), k) == IndexOf(Ids(rows), k)
  {
    var withRow := rows + [NewRow(t)];
    assert IndexOf(Ids(rows), t.contractId) == None;
    assert NewRow(t).tasks + [t] == [t];
    assert Ids(withRow) == Ids(rows) + [t.contractId];
    assert Ids(AddTask(rows, t)) == Ids(rows) + [t.contractId];
    forall k | k in Ids(rows) ensures IndexOf(Ids(withRow), k) == IndexOf(Ids(rows), k) {
      IndexOfPrefix(Ids(rows), t.contractId, k);
    }
    IndexOfUnique(Ids(withRow), t.contractId, |rows|);
  }

  /** The loop step for a contract already seen: the task joins that row and the ids stay. */
  lemma AddTaskExisting(rows: seq<TaskRow>, t: Task, j: nat)
    requires IndexOf(Ids(rows), t.contractId) == Some(j)
    ensures AddTask(rows, t) == rows[j := rows[j].(tasks := rows[j].tasks + [t])]
    ensures Ids(AddTask(rows, t)) == Ids(rows)
  {
    assert Ids(AddTask(rows, t)) == Ids(rows);
  }

  /** `groupMap` finds each row of `rows` by its id. */
  ghost predicate Indexes(groupMap: map<string, nat>, rows: seq<TaskRow>)
  {
    forall k :: (k in groupMap <==> k in Ids(rows))
      && (k in groupMap ==> IndexOf(Ids(rows), k) == Some(groupMap[k]))
  }

  /** The loop body for a contract not seen before: register a new row, then push the task. */
  lemma StepNew(groupMap: map<string, nat>, rows: seq<TaskRow>, t: Task)
    requires Indexes(groupMap, rows) && t.contractId !in groupMap
    ensures var withRow, map' := rows + [NewRow(t)], groupMap[t.contractId := |rows|];
      && map'[t.contractId] == |rows| < |withRow|
      && withRow[|rows| := withRow[|rows|].(tasks := withRow[|rows|].tasks + [t])] == AddTask(rows, t)
      && Indexes(map', AddTask(rows, t))
  {
    AddTaskNew(rows, t);
  }

  /** The loop body for a contract already seen: push the task onto its row. */
  lemma StepExisting(groupMap: map<string, nat>, rows: seq<TaskRow>, t: Task)
    requires Indexes(groupMap, rows) && t.contractId in groupMap
    ensures var j := groupMap[t.contractId];
      && j < |rows|
      && rows[j := rows[j].(tasks := rows[j].tasks + [t])] == AddTask(rows, t)
      && Indexes(groupMap, AddTask(rows, t))
  {
    AddTaskExisting(rows, t, groupMap[t.contractId]);
  }

  method GroupTasksByAttributes(tasks: seq<Task>) returns (groupedRows: seq<TaskRow>)
    ensures groupedRows == Group(tasks)
  {
    groupedRows := [];
    var groupMap: map<string, nat> := map[];
    var i := 0;
    while i < |tasks|
      invariant 0 <= i <= |tasks|
      invariant groupedRows == Group(tasks[..i])
      invariant Indexes(groupMap, groupedRows)
    {
      var task := tasks[i];
      var rowKey := task.contractId;
      assert tasks[..i + 1] == tasks[..i] + [task];
      GroupSnoc(tasks[..i], task);
      if rowKey !in groupMap {
        StepNew(groupMap, groupedRows, task);
        var newRow := NewRow(task);
        groupMap := groupMap[rowKey := |groupedRows|];
        groupedRows := groupedRows + [newRow];
      } else {
        StepExisting(groupMap, groupedRows, task);
      }
      var j := groupMap[rowKey];
      groupedRows := groupedRows[j := groupedRows[j].(tasks := groupedRows[j].tasks + [task])];
      i := i + 1;
    }
    assert tasks[..i] == tasks;
  }

  lemma GroupSnoc(tasks: seq<Task>, t: Task)
    ensures Group(tasks + [t]) == AddTask(Group(tasks), t)
  {
    assert (tasks + [t])[..|tasks|] == tasks;
  }

  lemma ContractsSnoc(tasks: seq<Task>, t: Task)
    ensures Contracts(tasks + [t]) == Contracts(tasks) + [t.contractId]
  {
  }

  /** The row ids are the distinct contract ids of the input, in order of first occurrence. */
  lemma {:induction false} GroupIds(tasks: seq<Task>)
    ensures Ids(Group(tasks)) == Dedup(Contracts(tasks))
    decreases |tasks|
  {
    if tasks != [] {
      var init, t := tasks[..|tasks| - 1], tasks[|tasks| - 1];
      assert tasks == init + [t];
      GroupIds(init);
      ContractsSnoc(init, t);
      var c := Contracts(tasks);
      assert c[..|c| - 1] == Contracts(init);
      var g := Group(init);
      match IndexOf(Ids(g), t.contractId)
      case None =>
        assert Ids(AddTask(g, t)) == Ids(g) + [t.contractId];
      case Some(j) =>
        assert Ids(AddTask(g, t)) == Ids(g);
    }
  }

  /** Every row id is distinct. */
  lemma GroupIdsDistinct(tasks: seq<Task>)
    ensures Distinct(Ids(Group(tasks)))
  {
    GroupIds(tasks);
  }

  /** A contract has a row exactly when some task carries it. */
  lemma GroupHasRowIff(tasks: seq<Task>, k: string)
    ensures k in Ids(Group(tasks)) <==> exists i :: 0 <= i < |tasks| && tasks[i].contractId == k
  {
    GroupIds(tasks);
    if k in Contracts(tasks) {
      var i :| 0 <= i < |tasks| && Contracts(tasks)[i] == k;
    }
  }

  /** Rows come in the order in which their contracts first occur in the input. */
  lemma GroupFirstSeenOrder(tasks: seq<Task>, i: nat, j: nat)
    requires i < j < |Group(tasks)|
    ensures IndexOf(Contracts(tasks), Group(tasks)[i].id).Some?
    ensures IndexOf(Contracts(tasks), Group(tasks)[j].id).Some?
    ensures IndexOf(Contracts(tasks), Group(tasks)[i].id).value
          < IndexOf(Contracts(tasks), Group(tasks)[j].id).value
  {
    GroupIds(tasks);
    assert Group(tasks)[i].id == Dedup(Contracts(tasks))[i];
    assert Group(tasks)[j].id == Dedup(Contracts(tasks))[j];
    DedupFirstSeenOrder(Contracts(tasks), i, j);
  }

  /** What a row holds: its contract's attributes as the first task of that contract has them,
      exactly that contract's tasks in input order, and a collapsed flag. */
  ghost predicate RowOf(tasks: seq<Task>, row: TaskRow)
  {
    && row.id in Contracts(tasks)
    && row.contractId == row.id
    && row.tasks == Members(tasks, row.id)
    && !row.isExpanded
    && var first := tasks[IndexOf(Contracts(tasks), row.id).value];
       row.category == first.category && row.domain == first.domain
       && row.subdomain == first.subdomain && row.owner == first.owner
  }

  lemma MembersSnoc(tasks: seq<Task>, t: Task, k: string)
    ensures Members(tasks + [t], k) == Members(tasks, k) + (if t.contractId == k then [t] else [])
  {
    FilterAppend(tasks, [t], HasContract(k));
    assert Filter([t], HasContract(k)) == (if t.contractId == k then [t] else []) + Filter([], HasContract(k));
  }

  lemma MembersNone(tasks: seq<Task>, k: string)
    requires k !in Contracts(tasks)
    ensures Members(tasks, k) == []
  {
    forall x | x in tasks ensures !HasContract(k)(x) {
      var i :| 0 <= i < |tasks| && tasks[i] == x;
      assert Contracts(tasks)[i] == x.contractId;
    }
    FilterDropsAll(tasks, HasContract(k));
  }

  /** Adding a task keeps every row that was right for the shorter input right for the longer one,
      as long as the row is not the task's contract's row. */
  lemma RowOfSnoc(tasks: seq<Task>, t: Task, row: TaskRow)
    requires RowOf(tasks, row) && row.id != t.contractId
    ensures RowOf(tasks + [t], row)
  {
    ContractsSnoc(tasks, t);
    MembersSnoc(tasks, t, row.id);
    IndexOfPrefix(Contracts(tasks), t.contractId, row.id);
  }

  /** Every row of `rows` is the row of its contract for `tasks`. */
  ghost predicate RowsOf(tasks: seq<Task>, rows: seq<TaskRow>)
  {
    forall row :: row in rows ==> RowOf(tasks, row)
  }

  /** The step of `GroupRows` for a contract not seen before. */
  lemma RowsOfNew(init: seq<Task>, g: seq<TaskRow>, t: Task)
    requires RowsOf(init, g)
    requires t.contractId !in Contracts(init)
    ensures RowsOf(init + [t], g + [NewRow(t).(tasks := [t])])
  {
    var tasks, k := init + [t], t.contractId;
    ContractsSnoc(init, t);
    MembersNone(init, k);
    MembersSnoc(init, t, k);
    IndexOfUnique(Contracts(tasks), k, |init|);
    forall row | row in g ensures RowOf(tasks, row) {
      RowOfSnoc(init, t, row);
    }
  }

  /** The step of `GroupRows` for a contract that already has row `j`. */
  lemma RowOfGrown(init: seq<Task>, row: TaskRow, t: Task)
    requires RowOf(init, row) && row.id == t.contractId
    ensures RowOf(init + [t], row.(tasks := row.tasks + [t]))
  {
    ContractsSnoc(init, t);
    MembersSnoc(init, t, row.id);
    IndexOfPrefix(Contracts(init), t.contractId, row.id);
  }

  lemma RowsOfExisting(init: seq<Task>, g: seq<TaskRow>, t: Task, j: nat)
    requires RowsOf(init, g) && Distinct(Ids(g))
    requires IndexOf(Ids(g), t.contractId) == Some(j)
    ensures RowsOf(init + [t], g[j := g[j].(tasks := g[j].tasks + [t])])
  {
    var grown := g[j].(tasks := g[j].tasks + [t]);
    assert g[j] in g;
    RowOfGrown(init, g[j], t);
    forall i | 0 <= i < |g| && i != j ensures RowOf(init + [t], g[i]) {
      assert g[i] in g;
      assert Ids(g)[i] != Ids(g)[j];
      RowOfSnoc(init, t, g[i]);
    }
    forall row | row in g[j := grown] ensures RowOf(init + [t], row) {
      var i :| 0 <= i < |g| && g[j := grown][i] == row;
    }
  }

  /** Each row of the result is the row of its contract. */
  lemma {:induction false} GroupRows(tasks: seq<Task>)
    ensures RowsOf(tasks, Group(tasks))
    decreases |tasks|
  {
    if tasks != [] {
      var init, t := tasks[..|tasks| - 1], tasks[|tasks| - 1];
      assert tasks == init + [t];
      GroupSnoc(init, t);
      GroupRows(init);
      GroupIds(init);
      GroupIdsDistinct(init);
      var g := Group(init);
      match IndexOf(Ids(g), t.contractId)
      case None =>
        RowsOfNew(init, g, t);
      case Some(j) =>
        RowsOfExisting(init, g, t, j);
    }
  }

  lemma FlattenSnoc(rows: seq<TaskRow>, r: TaskRow)
    ensures Flatten(rows + [r]) == Flatten(rows) + r.tasks
  {
    if rows != [] {
      assert (rows + [r])[1..] == rows[1..] + [r];
      FlattenSnoc(rows[1..], r);
    }
  }

  lemma {:induction false} FlattenUpdate(rows: seq<TaskRow>, j: nat, r: TaskRow)
    requires j < |rows|
    ensures multiset(Flatten(rows[j := r])) + multiset(rows[j].tasks)
         == multiset(Flatten(rows)) + multiset(r.tasks)
  {
    if j == 0 {
      assert rows[j := r][1..] == rows[1..];
    } else {
      var tail := rows[1..];
      assert rows[j := r] == [rows[0]] + tail[j - 1 := r];
      assert rows[j].tasks == tail[j - 1].tasks;
      FlattenUpdate(tail, j - 1, r);
      calc {
        multiset(Flatten(rows[j := r])) + multiset(rows[j].tasks);
        multiset(rows[0].tasks) + (multiset(Flatten(tail[j - 1 := r])) + multiset(tail[j - 1].tasks));
        multiset(rows[0].tasks) + (multiset(Flatten(tail)) + multiset(r.tasks));
        multiset(Flatten(rows)) + multiset(r.tasks);
      }
    }
  }

  lemma MultisetCancel<T>(a: multiset<T>, b: multiset<T>, c: multiset<T>)
    requires a + c == b + c
    ensures a == b
  {
    forall x ensures a[x] == b[x] {
      assert (a + c)[x] == (b + c)[x];
    }
  }

  /** One loop step adds exactly the task to the concatenated members. */
  lemma AddTaskPermutation(g: seq<TaskRow>, t: Task)
    ensures multiset(Flatten(AddTask(g, t))) == multiset(Flatten(g)) + multiset{t}
  {
    match IndexOf(Ids(g), t.contractId)
    case None =>
      assert AddTask(g, t) == g + [NewRow(t).(tasks := [t])];
      FlattenSnoc(g, NewRow(t).(tasks := [t]));
    case Some(j) =>
      var grown := g[j].(tasks := g[j].tasks + [t]);
      assert AddTask(g, t) == g[j := grown];
      FlattenUpdate(g, j, grown);
      assert multiset(grown.tasks) == multiset(g[j].tasks) + multiset{t};
      MultisetCancel(multiset(Flatten(g[j := grown])), multiset(Flatten(g)) + multiset{t}, multiset(g[j].tasks));
  }

  /** The member lists, concatenated in row order, are a permutation of the input. */
  lemma {:induction false} GroupPermutation(tasks: seq<Task>)
    ensures multiset(Flatten(Group(tasks))) == multiset(tasks)
    decreases |tasks|
  {
    if tasks != [] {
      var init, t := tasks[..|tasks| - 1], tasks[|tasks| - 1];
      assert tasks == init + [t];
      GroupSnoc(init, t);
      GroupPermutation(init);
      AddTaskPermutation(Group(init), t);
    }
  }

  lemma {:induction false} MemberCountFlatten(rows: seq<TaskRow>)
    ensures MemberCount(rows) == |Flatten(rows)|
  {
    if rows != [] {
      MemberCountFlatten(rows[1..]);
    }
  }

  /** The member counts sum to the number of input tasks. */
  lemma GroupMemberCount(tasks: seq<Task>)
    ensures MemberCount(Group(tasks)) == |tasks|
  {
    GroupPermutation(tasks);
    MemberCountFlatten(Group(tasks));
    assert |multiset(Flatten(Group(tasks)))| == |multiset(tasks)|;
  }

  /** `toggleRowExpansion`: flips the flag of the rows whose id is `rowId` and nothing else. */
  function ToggleRowExpansion(rows: seq<TaskRow>, rowId: string): (r: seq<TaskRow>)
    ensures |r| == |rows|
    ensures forall i :: 0 <= i < |rows| ==> r[i].(isExpanded := rows[i].isExpanded) == rows[i]
    ensures forall i :: 0 <= i < |rows| ==>
      (r[i].isExpanded != rows[i].isExpanded <==> rows[i].id == rowId)
  {
    seq(|rows|, i requires 0 <= i < |rows| =>
      if rows[i].id == rowId then rows[i].(isExpanded := !rows[i].isExpanded) else rows[i])
  }

  /** Toggling the same row twice restores the rows. */
  lemma ToggleTwice(rows: seq<TaskRow>, rowId: string)
    ensures ToggleRowExpansion(ToggleRowExpansion(rows, rowId), rowId) == rows
  {
  }

  /** `expandAllRows`. */
  function ExpandAllRows(rows: seq<TaskRow>): (r: seq<TaskRow>)
    ensures |r| == |rows|
    ensures forall i :: 0 <= i < |rows| ==> r[i].isExpanded && r[i].(isExpanded := rows[i].isExpanded) == rows[i]
  {
    seq(|rows|, i requires 0 <= i < |rows| => rows[i].(isExpanded := true))
  }

  /** `collapseAllRows`. */
  function CollapseAllRows(rows: seq<TaskRow>): (r: seq<TaskRow>)
    ensures |r| == |rows|
    ensures forall i :: 0 <= i < |rows| ==> !r[i].isExpanded && r[i].(isExpanded := rows[i].isExpanded) == rows[i]
  {
    seq(|rows|, i requires 0 <= i < |rows| => rows[i].(isExpanded := false))
  }

  lemma ExpandCollapseIdempotent(rows: seq<TaskRow>)
    ensures ExpandAllRows(ExpandAllRows(rows)) == ExpandAllRows(rows)
    ensures CollapseAllRows(CollapseAllRows(rows)) == CollapseAllRows(rows)
  {
  }

  /** Freshly grouped rows are already collapsed. */
  lemma GroupIsCollapsed(tasks: seq<Task>)
    ensures CollapseAllRows(Group(tasks)) == Group(tasks)
  {
    GroupRows(tasks);
    var g := Group(tasks);
    forall i | 0 <= i < |g| ensures CollapseAllRows(g)[i] == g[i] {
      assert g[i] in g;
    }
  }
}
