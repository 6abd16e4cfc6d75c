/** The logic of `components/TaskTable/index.tsx`: the pipeline that turns the tasks into the
    rows on screen (search, column filters, `applyTaskFilters`, grouping, sorting), the column
    header interactions (filter, sort cycle, drag to reorder, resize), the transposed view and
    the set toggles. */
module TaskTable {
  import opened Optional
  import opened Seqs
  import opened Text
  import opened Tasks
  import opened Grouping
  import opened TaskFilters
  import opened RowSorting
  import opened SortRules

  // ----- Search and column filters -----

  /** Some string or number field of the task, printed and lower-cased, contains the lower-cased
      query (the query itself is not trimmed). */
  predicate SearchMatches(t: Task, query: string)
  {
    exists i :: 0 <= i < |TaskValues(t)| && Text.Contains(Lower(ValueString(TaskValues(t)[i])), Lower(query))
  }

  function SearchOf(query: string): Task -> bool
  {
    t => SearchMatches(t, query)
  }

  /** The search pass: a query that is blank after trimming keeps every task. */
  function SearchPass(tasks: seq<Task>, query: string): (r: seq<Task>)
    ensures Trim(query) == "" ==> r == tasks
    ensures Trim(query) != "" ==> forall t :: t in r <==> t in tasks && SearchMatches(t, query)
    ensures IsSubseq(r, tasks)
    ensures forall t :: multiset(r)[t] == if Trim(query) == "" || SearchMatches(t, query) then multiset(tasks)[t] else 0
  {
    if Trim(query) == "" then
      SubseqReflexive(tasks);
      tasks
    else
      FilterIsSubseq(tasks, SearchOf(query));
      FilterCount(tasks, SearchOf(query));
      Filter(tasks, SearchOf(query))
  }

  /** A search matches a task exactly when the query occurs, ignoring case, in one of its
      fields' printed values. */
  lemma SearchMatchesField(t: Task, query: string)
    ensures SearchMatches(t, query) <==>
      exists i :: 0 <= i < |TaskFieldNames| && Text.Contains(Lower(FieldString(t, TaskFieldNames[i])), Lower(query))
  {
    var vs := TaskValues(t);
    assert forall i :: 0 <= i < |TaskFieldNames| ==> FieldString(t, TaskFieldNames[i]) == ValueString(vs[i]);
  }

  /** A column filter: a row field and the text typed for it. */
  datatype ColumnFilter = ColumnFilter(field: string, value: string)

  /** One column filter on one task: a filter on the member list always passes; otherwise the
      printed field ("undefined" when the task lacks it), lower-cased, contains the lower-cased
      value. */
  predicate ColumnFilterHolds(t: Task, f: ColumnFilter)
  {
    f.field == "tasks" || Text.Contains(Lower(FieldString(t, f.field)), Lower(f.value))
  }

  predicate PassesColumnFilters(t: Task, filters: seq<ColumnFilter>)
  {
    forall i :: 0 <= i < |filters| ==> ColumnFilterHolds(t, filters[i])
  }

  function ColumnFiltersOf(filters: seq<ColumnFilter>): Task -> bool
  {
    t => PassesColumnFilters(t, filters)
  }

  /** The column-filter pass: the tasks that pass every column filter, in order. */
  function ColumnPass(tasks: seq<Task>, filters: seq<ColumnFilter>): (r: seq<Task>)
    ensures filters == [] ==> r == tasks
    ensures forall t :: t in r <==> t in tasks && PassesColumnFilters(t, filters)
    ensures IsSubseq(r, tasks)
    ensures forall t :: multiset(r)[t] == if PassesColumnFilters(t, filters) then multiset(tasks)[t] else 0
  {
    if |filters| > 0 then
      FilterIsSubseq(tasks, ColumnFiltersOf(filters));
      FilterCount(tasks, ColumnFiltersOf(filters));
      Filter(tasks, ColumnFiltersOf(filters))
    else
      SubseqReflexive(tasks);
      tasks
  }

  /** Filters on the member list never remove a task. */
  lemma TasksColumnFiltersPass(tasks: seq<Task>, filters: seq<ColumnFilter>)
    requires forall i :: 0 <= i < |filters| ==> filters[i].field == "tasks"
    ensures ColumnPass(tasks, filters) == tasks
  {
    if |filters| > 0 {
      FilterKeepsAll(tasks, ColumnFiltersOf(filters));
    }
  }

  /** The tasks the table shows: search, then column filters, then the filter state. */
  function Pipeline(tasks: seq<Task>, query: string, columnFilters: seq<ColumnFilter>, filterState: FilterState): seq<Task>
  {
    ApplyTaskFilters(ColumnPass(SearchPass(tasks, query), columnFilters), filterState)
  }

  /** A task passes the search (when the query is not blank), every column filter, and the
      filter state (when it has clauses). */
  predicate PassesPipeline(t: Task, query: string, columnFilters: seq<ColumnFilter>, filterState: FilterState)
  {
    && (Trim(query) != "" ==> SearchMatches(t, query))
    && PassesColumnFilters(t, columnFilters)
    && (filterState.filters != map[] ==> Passes(t, filterState))
  }

  /** `t` occurs in the shown tasks as often as in `tasks` when it passes every stage, else not at all. */
  predicate PipelineCount(t: Task, tasks: seq<Task>, query: string, columnFilters: seq<ColumnFilter>, filterState: FilterState)
  {
    multiset(Pipeline(tasks, query, columnFilters, filterState))[t]
      == if PassesPipeline(t, query, columnFilters, filterState) then multiset(tasks)[t] else 0
  }

  /** The shown tasks are the tasks that pass all three stages, each with all its copies, in their
      input order. */
  lemma PipelineSpec(tasks: seq<Task>, query: string, columnFilters: seq<ColumnFilter>, filterState: FilterState)
    ensures IsSubseq(Pipeline(tasks, query, columnFilters, filterState), tasks)
    ensures forall t :: t in Pipeline(tasks, query, columnFilters, filterState) <==>
      t in tasks && PassesPipeline(t, query, columnFilters, filterState)
    ensures forall t :: PipelineCount(t, tasks, query, columnFilters, filterState)
  {
    var searched := SearchPass(tasks, query);
    var columned := ColumnPass(searched, columnFilters);
    SubseqTransitive(columned, searched, tasks);
    SubseqTransitive(ApplyTaskFilters(columned, filterState), columned, tasks);
    forall t ensures PipelineCount(t, tasks, query, columnFilters, filterState) {
      assert multiset(searched)[t] == if Trim(query) == "" || SearchMatches(t, query) then multiset(tasks)[t] else 0;
      assert multiset(columned)[t] == if PassesColumnFilters(t, columnFilters) then multiset(searched)[t] else 0;
    }
  }

  /** The effect that recomputes the table: `filtered` goes through the search, the column
      filters and `applyTaskFilters`; the result is grouped, and sorted when there are sort keys
      (the rows are handed to `applySorting` in a fresh array). */
  method RunPipeline(tasks: seq<Task>, searchQuery: string, columnFilters: seq<ColumnFilter>,
                     filterState: FilterState, sortStates: seq<SortState>)
    returns (filteredTasks: seq<Task>, groupedRows: seq<TaskRow>)
    ensures filteredTasks == Pipeline(tasks, searchQuery, columnFilters, filterState)
    ensures IsSubseq(filteredTasks, tasks)
    ensures groupedRows == SortRows(Group(filteredTasks), sortStates)
  {
    var filtered := tasks;
    if Trim(searchQuery) != "" {
      filtered := Filter(filtered, SearchOf(searchQuery));
    }
    if |columnFilters| > 0 {
      filtered := Filter(filtered, ColumnFiltersOf(columnFilters));
    }
    filtered := ApplyTaskFilters(filtered, filterState);
    filteredTasks := filtered;
    var newRows := GroupTasksByAttributes(filtered);
    if |sortStates| > 0 {
      var rows := new TaskRow[|newRows|](i requires 0 <= i < |newRows| => newRows[i]);
      assert rows[..] == newRows;
      newRows := ApplySorting(rows, sortStates);
    }
    groupedRows := newRows;
    PipelineSpec(tasks, searchQuery, columnFilters, filterState);
  }

  function OnField(g: string): ColumnFilter -> bool
  {
    (f: ColumnFilter) => f.field == g
  }

  function NotOnField(g: string): ColumnFilter -> bool
  {
    (f: ColumnFilter) => f.field != g
  }

  /** `handleColumnFilter`: the field's previous filter goes, and a non-empty value is added as
      its new filter at the end. */
  function HandleColumnFilter(filters: seq<ColumnFilter>, field: string, value: string): (r: seq<ColumnFilter>)
    ensures |r| <= |filters| + 1
  {
    Filter(filters, NotOnField(field)) + (if value != "" then [ColumnFilter(field, value)] else [])
  }

  /** At most one filter per field. */
  ghost predicate OnePerField(filters: seq<ColumnFilter>)
  {
    forall g :: |Filter(filters, OnField(g))| <= 1
  }

  /** The update keeps the other fields' filters and then appends the new one, if any. */
  lemma HandleColumnFilterOn(filters: seq<ColumnFilter>, field: string, value: string, g: string)
    ensures Filter(HandleColumnFilter(filters, field, value), OnField(g))
         == Filter(Filter(filters, NotOnField(field)), OnField(g))
            + (if value != "" && g == field then [ColumnFilter(field, value)] else [])
  {
    var added: seq<ColumnFilter> := if value != "" then [ColumnFilter(field, value)] else [];
    FilterAppend(Filter(filters, NotOnField(field)), added, OnField(g));
    if value != "" {
      assert added == [ColumnFilter(field, value)] && added[1..] == [];
    }
  }

  /** The update removes every earlier filter on the field itself. */
  lemma NoneLeftOnField(filters: seq<ColumnFilter>, field: string)
    ensures Filter(Filter(filters, NotOnField(field)), OnField(field)) == []
  {
    FilterDropsAll(Filter(filters, NotOnField(field)), OnField(field));
  }

  /** The update keeps every filter on another field. */
  lemma OthersKept(filters: seq<ColumnFilter>, field: string, g: string)
    requires g != field
    ensures Filter(Filter(filters, NotOnField(field)), OnField(g)) == Filter(filters, OnField(g))
  {
    FilterFilter(filters, NotOnField(field), OnField(g), OnField(g));
  }

  /** What the update leaves on one field `g`: the new filter (or none) on the edited field, the
      old filters, in order, on any other. */
  lemma HandleColumnFilterAt(filters: seq<ColumnFilter>, field: string, value: string, g: string)
    ensures Filter(HandleColumnFilter(filters, field, value), OnField(g))
         == if g == field then (if value != "" then [ColumnFilter(field, value)] else [])
            else Filter(filters, OnField(g))
  {
    HandleColumnFilterOn(filters, field, value, g);
    if g == field {
      NoneLeftOnField(filters, field);
    } else {
      OthersKept(filters, field, g);
    }
  }

  /** Filters on other fields are untouched, in order; the field keeps exactly the new filter, or
      none for an empty value; so at most one filter per field is kept that way. */
  lemma HandleColumnFilterSpec(filters: seq<ColumnFilter>, field: string, value: string)
    ensures forall g :: g != field ==>
      Filter(HandleColumnFilter(filters, field, value), OnField(g)) == Filter(filters, OnField(g))
    ensures Filter(HandleColumnFilter(filters, field, value), OnField(field))
         == (if value != "" then [ColumnFilter(field, value)] else [])
    ensures OnePerField(filters) ==> OnePerField(HandleColumnFilter(filters, field, value))
  {
    forall g ensures Filter(HandleColumnFilter(filters, field, value), OnField(g))
         == if g == field then (if value != "" then [ColumnFilter(field, value)] else [])
            else Filter(filters, OnField(g))
    {
      HandleColumnFilterAt(filters, field, value, g);
    }
  }

  // ----- Column sort -----

  /** `handleColumnSort`: a second click on the sorted field turns ascending into descending and
      descending into no sort; a click on another field sorts it ascending. */
  function HandleColumnSort(current: Option<SortState>, field: string): (r: Option<SortState>)
    ensures r.Some? ==> r.value.field == field
    ensures current.None? || current.value.field != field ==> r == Some(SortState(field, Asc))
    ensures current.Some? && current.value.field == field ==>
      r == (if current.value.order == Asc then Some(SortState(field, Desc)) else None)
  {
    match current
    case Some(c) =>
      if c.field == field then
        if c.order == Asc then Some(SortState(field, Desc)) else None
      else Some(SortState(field, Asc))
    case None => Some(SortState(field, Asc))
  }

  /** Repeated clicks on one field cycle none, ascending, descending, none. */
  lemma ColumnSortCycle(field: string)
    ensures HandleColumnSort(None, field) == Some(SortState(field, Asc))
    ensures HandleColumnSort(Some(SortState(field, Asc)), field) == Some(SortState(field, Desc))
    ensures HandleColumnSort(Some(SortState(field, Desc)), field) == None
  {
  }

  /** Three clicks on the same field bring any column-sort state on that field (or none) back. */
  lemma ColumnSortPeriod(current: Option<SortState>, field: string)
    requires current.None? || current.value.field == field
    ensures HandleColumnSort(HandleColumnSort(HandleColumnSort(current, field), field), field) == current
  {
  }

  // ----- Set toggles -----

  /** The set with `id` flipped: removed when present, added when absent. */
  function Toggled(s: set<string>, id: string): (r: set<string>)
    ensures id in r <==> id !in s
    ensures forall x :: x != id ==> (x in r <==> x in s)
  {
    if id in s then s - {id} else s + {id}
  }

  /** Toggling twice restores the set. */
  lemma ToggledTwice(s: set<string>, id: string)
    ensures Toggled(Toggled(s, id), id) == s
  {
  }

  /** `handleToggleColumn` and `handleToggleTask`: a copy of the set with `id` deleted when
      present and added otherwise. */
  method HandleToggle(prev: set<string>, id: string) returns (newSet: set<string>)
    ensures newSet == Toggled(prev, id)
  {
    newSet := prev;
    if id in newSet {
      newSet := newSet - {id};
    } else {
      newSet := newSet + {id};
    }
  }

  // ----- Columns -----

  /** A table column: its id, header caption, the row field it shows and its width in pixels
      (the source keeps the width as text such as "160px"). */
  datatype Column = Column(id: string, caption: string, field: string, width: int)

  const InitialColumns: seq<Column> := [
    Column("expand", "", "id", 48),
    Column("contractId", "Contract ID", "contractId", 180),
    Column("category", "Category", "category", 160),
    Column("domain", "Domain", "domain", 160),
    Column("subdomain", "Subdomain", "subdomain", 160),
    Column("owner", "Owner", "owner", 160),
    Column("tasks", "Tasks", "tasks", 100)]

  /** The narrowest width a resize can give a column. */
  const MinWidth := 80

  /** `handleResizing`: when a column is being resized, its width becomes the start width plus
      the mouse's travel, but never less than 80; every other column is kept. */
  function HandleResizing(columns: seq<Column>, colIdx: Option<nat>, startWidth: int, delta: int): (r: seq<Column>)
    ensures |r| == |columns|
    ensures forall i :: 0 <= i < |columns| && colIdx != Some(i) ==> r[i] == columns[i]
    ensures colIdx.Some? && colIdx.value < |columns| ==>
      && r[colIdx.value] == columns[colIdx.value].(width := r[colIdx.value].width)
      && r[colIdx.value].width >= MinWidth
      && (startWidth + delta >= MinWidth ==> r[colIdx.value].width == startWidth + delta)
      && (startWidth + delta < MinWidth ==> r[colIdx.value].width == MinWidth)
  {
    match colIdx
    case None => columns
    case Some(k) =>
      seq(|columns|, i requires 0 <= i < |columns| =>
        if i == k then columns[i].(width := if startWidth + delta > MinWidth then startWidth + delta else MinWidth)
        else columns[i])
  }

  /** Every move of one drag starts from the same width, so the last move decides. */
  lemma ResizeLastMoveWins(columns: seq<Column>, k: nat, startWidth: int, d1: int, d2: int)
    ensures HandleResizing(HandleResizing(columns, Some(k), startWidth, d1), Some(k), startWidth, d2)
         == HandleResizing(columns, Some(k), startWidth, d2)
  {
  }

  /** The ids of the columns, in order. */
  function ColumnIds(columns: seq<Column>): (r: seq<string>)
    ensures |r| == |columns| && forall i :: 0 <= i < |columns| ==> r[i] == columns[i].id
  {
    seq(|columns|, i requires 0 <= i < |columns| => columns[i].id)
  }

  /** `findIndex(col => col.id === id)`: the first position of the id, or -1. */
  function FindColumn(columns: seq<Column>, id: string): (r: int)
    ensures -1 <= r < |columns|
    ensures r == -1 <==> id !in ColumnIds(columns)
    ensures r >= 0 ==> columns[r].id == id && forall j :: 0 <= j < r ==> columns[j].id != id
  {
    match IndexOf(ColumnIds(columns), id)
    case None => -1
    case Some(i) => i
  }

  /** Where `splice(start, …)` acts on an array of length `len`: a negative start counts from the
      end (and stops at 0), a start past the end is the end. */
  function SpliceStart(start: int, len: nat): (r: nat)
    ensures r <= len
    ensures 0 <= start <= len ==> r == start
    ensures start < 0 && len > 0 ==> r < len
    ensures start == -1 && len > 0 ==> r == len - 1
  {
    if start < 0 then (if len + start > 0 then len + start else 0)
    else if start > len then len
    else start
  }

  /** `handleDrop` on the column `target`: with no dragged column, or a drop on itself, nothing
      changes. Otherwise the dragged column is cut out (`splice(draggedIdx, 1)`) and inserted at the
      target's old position (`splice(targetIdx, 0, draggedCol)`), where an id that is not found
      gives -1 and so the last position; the drag ends. The columns are never empty. */
  method ColumnDrop(columns: seq<Column>, draggedColumn: Option<string>, target: string)
    returns (newColumns: seq<Column>, newDragged: Option<string>)
    requires columns != []
    ensures draggedColumn.None? || draggedColumn.value == "" || draggedColumn.value == target ==>
      newColumns == columns && newDragged == draggedColumn
    ensures draggedColumn.Some? && draggedColumn.value != "" && draggedColumn.value != target ==>
      && newDragged.None?
      && newColumns == Move(columns, SpliceStart(FindColumn(columns, draggedColumn.value), |columns|),
                            SpliceStart(FindColumn(columns, target), |columns| - 1))
      && |newColumns| == |columns|
      && multiset(newColumns) == multiset(columns)
    ensures draggedColumn.Some? && draggedColumn.value != "" && draggedColumn.value != target &&
            draggedColumn.value in ColumnIds(columns) && target in ColumnIds(columns) ==>
      && newColumns[FindColumn(columns, target)] == columns[FindColumn(columns, draggedColumn.value)]
      && RemoveAt(newColumns, FindColumn(columns, target)) == RemoveAt(columns, FindColumn(columns, draggedColumn.value))
  {
    newColumns := columns;
    newDragged := draggedColumn;
    if draggedColumn.Some? && draggedColumn.value != "" && draggedColumn.value != target {
      var draggedIdx := FindColumn(newColumns, draggedColumn.value);
      var targetIdx := FindColumn(newColumns, target);
      var from := SpliceStart(draggedIdx, |newColumns|);
      var draggedCol := newColumns[from];
      newColumns := newColumns[..from] + newColumns[from + 1..];
      var to := SpliceStart(targetIdx, |newColumns|);
      newColumns := newColumns[..to] + [draggedCol] + newColumns[to..];
      MoveIsPermutation(columns, from, to);
      newDragged := None;
    }
  }

  // ----- Transposed view -----

  /** A cell of the transposed table. `isExpandable` is false where the source leaves it out, and
      `tasks`/`rowIndex` are None there. */
  datatype Cell = Cell(id: string, caption: string, value: string, originalField: string,
                       isExpandable: bool, tasks: Option<seq<Task>>, rowIndex: Option<nat>)

  /** What a row shows under a column: the number of member tasks for `tasks`, the printed field
      otherwise ("undefined" for a field the row does not have). */
  function CellText(row: TaskRow, field: string): string
  {
    if field == "tasks" then NatToString(|row.tasks|) else FieldText(RowField(row, field))
  }

  predicate IsDataColumn(c: Column)
  {
    c.id != "expand"
  }

  /** The columns that become rows of the transposed table: every one but the expand column, in
      order. */
  function DataColumns(columns: seq<Column>): (r: seq<Column>)
    ensures IsSubseq(r, columns)
    ensures forall c :: c in r <==> c in columns && c.id != "expand"
  {
    FilterIsSubseq(columns, IsDataColumn);
    Filter(columns, IsDataColumn)
  }

  const FieldHeader := Cell("header", "Field", "Field", "id", false, None, None)

  /** The header cell over row `i`: "Row i+1", expandable, carrying the row's tasks. */
  function HeaderCell(rows: seq<TaskRow>, i: nat): Cell
    requires i < |rows|
  {
    var name := "Row " + NatToString(i + 1);
    Cell("header-" + NatToString(i), name, name, "id", true, Some(rows[i].tasks), Some(i))
  }

  function HeaderRow(rows: seq<TaskRow>): seq<Cell>
  {
    [FieldHeader] + seq(|rows|, i requires 0 <= i < |rows| => HeaderCell(rows, i))
  }

  /** The cell of column `col` for row `i`. */
  function DataCell(col: Column, row: TaskRow, i: nat): Cell
  {
    var value := CellText(row, col.field);
    Cell(col.id + "-" + NatToString(i), value, value, col.field, false, Some(row.tasks), Some(i))
  }

  /** The transposed row of one column: its caption, then its cell for every row. */
  function DataRow(col: Column, rows: seq<TaskRow>): seq<Cell>
  {
    [Cell("field-" + col.id, col.caption, col.caption, col.field, false, None, None)]
      + seq(|rows|, i requires 0 <= i < |rows| => DataCell(col, rows[i], i))
  }

  function DataRows(cols: seq<Column>, rows: seq<TaskRow>): (r: seq<seq<Cell>>)
    ensures |r| == |cols|
  {
    if cols == [] then [] else DataRows(cols[..|cols| - 1], rows) + [DataRow(cols[|cols| - 1], rows)]
  }

  /** The transposed table: nothing for no rows; otherwise the header row, then one row per
      data column. */
  function Transposed(rows: seq<TaskRow>, columns: seq<Column>): seq<seq<Cell>>
  {
    if rows == [] then [] else [HeaderRow(rows)] + DataRows(DataColumns(columns), rows)
  }

  /** The header row of `transposeData`: the "Field" cell, then one cell per row, pushed in row
      order. */
  method BuildHeaderRow(rows: seq<TaskRow>) returns (headerRow: seq<Cell>)
    ensures headerRow == HeaderRow(rows)
  {
    headerRow := [FieldHeader];
    for index := 0 to |rows|
      invariant |headerRow| == index + 1 && headerRow[0] == FieldHeader
      invariant forall i :: 0 <= i < index ==> headerRow[i + 1] == HeaderCell(rows, i)
    {
      headerRow := headerRow + [HeaderCell(rows, index)];
    }
  }

  /** One data row of `transposeData`: the column's caption cell, then its cell for each row,
      pushed in row order. */
  method BuildDataRow(column: Column, rows: seq<TaskRow>) returns (dataRow: seq<Cell>)
    ensures dataRow == DataRow(column, rows)
  {
    dataRow := [Cell("field-" + column.id, column.caption, column.caption, column.field, false, None, None)];
    for index := 0 to |rows|
      invariant |dataRow| == index + 1 && dataRow[0] == DataRow(column, rows)[0]
      invariant forall i :: 0 <= i < index ==> dataRow[i + 1] == DataCell(column, rows[i], i)
    {
      var value := CellText(rows[index], column.field);
      dataRow := dataRow + [Cell(column.id + "-" + NatToString(index), value, value, column.field,
                                 false, Some(rows[index].tasks), Some(index))];
    }
  }

  /** One more column adds its row exactly when it is not the expand column. */
  lemma DataRowsStep(columns: seq<Column>, c: nat, rows: seq<TaskRow>)
    requires c < |columns|
    ensures DataRows(DataColumns(columns[..c + 1]), rows)
         == DataRows(DataColumns(columns[..c]), rows)
            + (if IsDataColumn(columns[c]) then [DataRow(columns[c], rows)] else [])
  {
    assert columns[..c + 1] == columns[..c] + [columns[c]];
    FilterAppend(columns[..c], [columns[c]], IsDataColumn);
    var dc := DataColumns(columns[..c]);
    if IsDataColumn(columns[c]) {
      assert (dc + [columns[c]])[..|dc|] == dc;
    } else {
      assert dc + [] == dc;
    }
  }

  /** The data rows of `transposeData`: the columns in order, the expand column skipped, each
      other column pushing its row. */
  method BuildDataRows(rows: seq<TaskRow>, columns: seq<Column>) returns (dataRows: seq<seq<Cell>>)
    ensures dataRows == DataRows(DataColumns(columns), rows)
  {
    dataRows := [];
    for c := 0 to |columns|
      invariant dataRows == DataRows(DataColumns(columns[..c]), rows)
    {
      var column := columns[c];
      DataRowsStep(columns, c, rows);
      if IsDataColumn(column) {
        var dataRow := BuildDataRow(column, rows);
        dataRows := dataRows + [dataRow];
      }
    }
    assert columns[..|columns|] == columns;
  }

  /** `transposeData`: nothing for no rows; otherwise the header row followed by the data rows. */
  method TransposeData(rows: seq<TaskRow>, columns: seq<Column>) returns (transposedRows: seq<seq<Cell>>)
    ensures transposedRows == Transposed(rows, columns)
  {
    if |rows| == 0 {
      return [];
    }
    var headerRow := BuildHeaderRow(rows);
    var dataRows := BuildDataRows(rows, columns);
    transposedRows := [headerRow] + dataRows;
  }

  /** The `k`-th data row belongs to the `k`-th column. */
  lemma {:induction false} DataRowsAt(cols: seq<Column>, rows: seq<TaskRow>, k: nat)
    requires k < |cols|
    ensures DataRows(cols, rows)[k] == DataRow(cols[k], rows)
  {
    if k < |cols| - 1 {
      DataRowsAt(cols[..|cols| - 1], rows, k);
    }
  }

  /** The transposed table swaps the axes: for rows present, it has one row more than there are
      data columns and one column more than there are rows; the cell of data column `k` and row
      `i` shows what that row shows under that column, carries the row's tasks and index; the
      header over row `i` carries the same tasks; the first cell of each data row is the column's
      caption. */
  lemma TransposedCells(rows: seq<TaskRow>, columns: seq<Column>, k: nat, i: nat)
    requires k < |DataColumns(columns)| && i < |rows|
    ensures var t := Transposed(rows, columns); var col := DataColumns(columns)[k];
      && |t| == |DataColumns(columns)| + 1
      && |t[0]| == |rows| + 1 && |t[k + 1]| == |rows| + 1
      && t[k + 1][i + 1].value == CellText(rows[i], col.field)
      && (col.field == "tasks" ==> t[k + 1][i + 1].value == NatToString(|rows[i].tasks|))
      && t[k + 1][i + 1].tasks == t[0][i + 1].tasks == Some(rows[i].tasks)
      && t[k + 1][i + 1].rowIndex == t[0][i + 1].rowIndex == Some(i)
      && t[k + 1][0].caption == col.caption && t[k + 1][0].originalField == col.field
      && col.id != "expand"
  {
    assert DataColumns(columns)[k] in DataColumns(columns);
    DataRowsAt(DataColumns(columns), rows, k);
  }

  // ----- Sorting and filtering handlers -----

  /** `applySorting` on a fresh array holding the rows. */
  method SortCopy(rows: seq<TaskRow>, keys: seq<SortState>) returns (r: seq<TaskRow>)
    ensures r == SortRows(rows, keys)
  {
    var a := new TaskRow[|rows|](i requires 0 <= i < |rows| => rows[i]);
    assert a[..] == rows;
    r := ApplySorting(a, keys);
  }

  /** The effect on `columnSort`: with a column sort the current rows are sorted by that one key;
      without, the filtered tasks are grouped afresh. */
  method ColumnSortEffect(groupedRows: seq<TaskRow>, columnSort: Option<SortState>, filteredTasks: seq<Task>)
    returns (newRows: seq<TaskRow>)
    ensures columnSort.Some? ==> newRows == SortRows(groupedRows, [columnSort.value])
    ensures columnSort.None? ==> newRows == Group(filteredTasks)
  {
    if columnSort.Some? {
      newRows := SortCopy(groupedRows, [columnSort.value]);
    } else {
      newRows := GroupTasksByAttributes(filteredTasks);
    }
  }

  /** `handleApplyFilters`: the new state filters the original tasks (no search, no column
      filters); the result is grouped and sorted by the current keys. */
  method HandleApplyFilters(tasks: seq<Task>, newFilterState: FilterState, sortStates: seq<SortState>)
    returns (filteredTasks: seq<Task>, groupedRows: seq<TaskRow>)
    ensures filteredTasks == ApplyTaskFilters(tasks, newFilterState)
    ensures filteredTasks == Pipeline(tasks, "", [], newFilterState)
    ensures groupedRows == SortRows(Group(filteredTasks), sortStates)
  {
    filteredTasks := ApplyTaskFilters(tasks, newFilterState);
    var newRows := GroupTasksByAttributes(filteredTasks);
    if |sortStates| > 0 {
      newRows := SortCopy(newRows, sortStates);
    }
    groupedRows := newRows;
    assert Trim("") == "";
  }

  /** `handleApplySort`: the current rows sorted by the new keys. */
  method HandleApplySort(groupedRows: seq<TaskRow>, newSortStates: seq<SortState>)
    returns (sortStates: seq<SortState>, sortedRows: seq<TaskRow>)
    ensures sortStates == newSortStates
    ensures sortedRows == SortRows(groupedRows, newSortStates)
    ensures multiset(sortedRows) == multiset(MembersSorted(groupedRows, newSortStates))
  {
    sortStates := newSortStates;
    sortedRows := SortCopy(groupedRows, newSortStates);
  }

  // ----- Sidebar -----

  /** What the sidebar's apply button sets: the sort rules that have a field, in order, the
      pending column visibility and the pending transposition. */
  datatype SidebarApplied = SidebarApplied(sortStates: seq<SortState>, visibleColumns: set<string>, isTransposed: bool)

  /** `handleSidebarApply`. */
  function HandleSidebarApply(sortRules: seq<SortState>, pendingVisibleColumns: set<string>,
                              pendingIsTransposed: bool): (r: SidebarApplied)
    ensures IsSubseq(r.sortStates, sortRules)
    ensures forall x :: x in r.sortStates <==> x in sortRules && x.field != ""
    ensures forall x :: multiset(r.sortStates)[x] == if x.field != "" then multiset(sortRules)[x] else 0
    ensures r.visibleColumns == pendingVisibleColumns && r.isTransposed == pendingIsTransposed
  {
    SidebarApplied(ActiveRules(sortRules), pendingVisibleColumns, pendingIsTransposed)
  }

  /** The sidebar hands the table some sort keys exactly when its editor has a valid rule, and
      a blank rule never reaches the sort. */
  lemma SidebarSortsIffValid(sortRules: seq<SortState>, pending: set<string>, transposed: bool)
    ensures HandleSidebarApply(sortRules, pending, transposed).sortStates != [] <==> HasValidRules(sortRules)
    ensures BlankRule !in HandleSidebarApply(sortRules, pending, transposed).sortStates
  {
    HasValidRulesIffActive(sortRules);
  }
  // ----- The sidebar's apply callback -----

  /** What the sidebar hands to `onApply`: the filter state its filter editor built, or the
      click event, where `onApply` is itself a button's click handler ("Apply Sort" and the
      footer "Apply"). */
  datatype ApplyArgument = BuiltState(state: FilterState) | ClickEvent

  /** The table's `filterState` variable: a filter state, or an object without `filters` (a
      click event stored in its place). */
  datatype StoredFilter = StoredState(state: FilterState) | NoFilters

  /** The filter state the table filters with: `applyTaskFilters` reads an object without
      `filters` as one without clauses. */
  function Effective(stored: StoredFilter): (r: FilterState)
    ensures stored.StoredState? ==> r == stored.state
    ensures stored.NoFilters? ==> r.filters == map[]
  {
    match stored
    case StoredState(fs) => fs
    case NoFilters => FilterState(And, map[])
  }

  /** `activeFiltersCount`: the number of fields with a clause, 0 when there is no `filters`. */
  function ActiveFiltersCount(stored: StoredFilter): (n: nat)
    ensures n == 0 <==> Effective(stored).filters == map[]
    ensures stored.StoredState? ==> n == |stored.state.filters.Keys|
  {
    |Effective(stored).filters.Keys|
  }

  /** The filter part of the table's `onApply` as written: any truthy argument, a click event
      included, becomes the new filter state. */
  function OnApplyFilterAsWritten(arg: ApplyArgument, stored: StoredFilter): (r: StoredFilter)
    ensures arg.BuiltState? ==> r == StoredState(arg.state)
    ensures arg.ClickEvent? ==> r.NoFilters?
  {
    match arg
    case BuiltState(fs) => StoredState(fs)
    case ClickEvent => NoFilters
  }

  /** As written, a click on "Apply Sort" or on the footer "Apply" drops every filter clause: the
      table shows what the search and column filters alone let through, and counts no active
      filter, whatever the filter state was. */
  lemma ClickDropsFilters(tasks: seq<Task>, query: string, columnFilters: seq<ColumnFilter>, stored: StoredFilter)
    ensures var after := OnApplyFilterAsWritten(ClickEvent, stored);
      && Pipeline(tasks, query, columnFilters, Effective(after)) == ColumnPass(SearchPass(tasks, query), columnFilters)
      && ActiveFiltersCount(after) == 0
  {
  }

  /** A task of category "Finance". */
  const FinanceTask := Task("T1", "C1", "Review", "Finance", "Legal", "Contracts", High, "Ann", 0, 0, Pending)

  /** The filter "category is Legal". */
  const LegalOnly := FilterState(And, map["category" := Clause(Is, Text("Legal"))])

  /** With "category is Legal" applied, a Finance task is hidden; after a click on "Apply Sort"
      the as-written callback shows it again and the count of active filters drops from 1 to 0. */
  lemma ClickShowsFilteredTask()
    ensures Pipeline([FinanceTask], "", [], LegalOnly) == []
    ensures ActiveFiltersCount(StoredState(LegalOnly)) == 1
    ensures var after := OnApplyFilterAsWritten(ClickEvent, StoredState(LegalOnly));
      Pipeline([FinanceTask], "", [], Effective(after)) == [FinanceTask] && ActiveFiltersCount(after) == 0
  {
    var clause := LegalOnly.filters["category"];
    assert TaskField(FinanceTask, "category") == Some(Str("Finance"));
    assert FilterValueString(clause.value) == "Legal";
    assert Lower("Finance")[0] == 'f' && Lower("Legal")[0] == 'l';
    assert !ClauseHolds(FinanceTask, "category", clause);
    assert !Passes(FinanceTask, LegalOnly);
    assert LegalOnly.filters.Keys == {"category"};
  }

  /** The filter part of `onApply` as the `if (filterState)` guard intends it: a built filter
      state replaces the table's, anything else leaves it alone. */
  function OnApplyFilter(arg: ApplyArgument, stored: StoredFilter): (r: StoredFilter)
    ensures arg.BuiltState? ==> r == StoredState(arg.state)
    ensures arg.ClickEvent? ==> r == stored
  {
    match arg
    case BuiltState(fs) => StoredState(fs)
    case ClickEvent => stored
  }

  /** With the intended callback a click keeps the shown tasks and the active filter count, and
      applying a built state shows exactly what that state lets through. */
  lemma ClickKeepsFilters(tasks: seq<Task>, query: string, columnFilters: seq<ColumnFilter>,
                          stored: StoredFilter, arg: ApplyArgument)
    ensures arg.ClickEvent? ==>
      && Pipeline(tasks, query, columnFilters, Effective(OnApplyFilter(arg, stored)))
         == Pipeline(tasks, query, columnFilters, Effective(stored))
      && ActiveFiltersCount(OnApplyFilter(arg, stored)) == ActiveFiltersCount(stored)
    ensures arg.BuiltState? ==>
      forall t :: t in Pipeline(tasks, query, columnFilters, Effective(OnApplyFilter(arg, stored))) <==>
        t in tasks && PassesPipeline(t, query, columnFilters, arg.state)
  {
    if arg.BuiltState? {
      PipelineSpec(tasks, query, columnFilters, arg.state);
    }
  }

  /** What the table's `onApply` leaves behind: the filter state and the applied sidebar
      settings (the sidebar itself closes). */
  datatype SidebarOutcome = SidebarOutcome(filter: StoredFilter, applied: SidebarApplied)

  /** The table's `onApply`, with the intended filter step: the filter state is replaced only by
      a built one, and the sidebar's sort rules, visible columns and transposition are applied. */
  function SidebarOnApply(arg: ApplyArgument, stored: StoredFilter, sortRules: seq<SortState>,
                          pendingVisibleColumns: set<string>, pendingIsTransposed: bool): (r: SidebarOutcome)
    ensures arg.ClickEvent? ==> r.filter == stored
    ensures arg.BuiltState? ==> r.filter == StoredState(arg.state)
    ensures forall x :: x in r.applied.sortStates <==> x in sortRules && x.field != ""
    ensures r.applied.visibleColumns == pendingVisibleColumns && r.applied.isTransposed == pendingIsTransposed
  {
    SidebarOutcome(OnApplyFilter(arg, stored), HandleSidebarApply(sortRules, pendingVisibleColumns, pendingIsTransposed))
  }
}
