/** The filter-row editor of `components/TaskTable/TableSidebar.tsx`, which
    `components/FilterPanel/index.tsx` repeats: a list of rows (field, operator, value and, in the
    sidebar, an AND/OR link) that never becomes empty, and the builder that turns the rows into
    the field-keyed `FilterState` that `applyTaskFilters` reads. The two builders differ only in
    how they convert a row's value, which is a parameter here. */
module FilterRows {
  import opened Optional
  import opened Seqs
  import opened TaskFilters

  /** One row of the editor. `logic` is the per-row AND/OR link; the builder never reads it. */
  datatype FilterRow = FilterRow(field: string, operator: Operator, value: FilterValue, logic: Option<Condition>)

  /** The row a new line of the editor starts with: no field, `is`, an empty value. */
  const BlankRow := FilterRow("", Is, Text(""), None)

  /** `handleAddFilter`: one blank row appended after the existing ones. */
  function AddFilter(rows: seq<FilterRow>): (r: seq<FilterRow>)
    ensures |r| == |rows| + 1
    ensures r[..|rows|] == rows && r[|rows|] == BlankRow
  {
    rows + [BlankRow]
  }

  /** `handleRemoveFilter`: nothing happens to a single row; otherwise exactly the row at
      `index` goes and the others keep their order. */
  function RemoveFilter(rows: seq<FilterRow>, index: nat): (r: seq<FilterRow>)
    ensures |rows| <= 1 ==> r == rows
    ensures rows != [] ==> r != []
    ensures |rows| > 1 && index < |rows| ==>
      |r| == |rows| - 1 && forall j :: 0 <= j < |r| ==> r[j] == rows[if j < index then j else j + 1]
    ensures |rows| > 1 && index >= |rows| ==> r == rows
  {
    if |rows| > 1 then RemoveAt(rows, index) else rows
  }

  /** Removing the row just added gives the list back. */
  lemma RemoveAddedFilter(rows: seq<FilterRow>)
    requires rows != []
    ensures RemoveFilter(AddFilter(rows), |rows|) == rows
  {
    assert AddFilter(rows)[..|rows|] == rows;
  }

  /** An edit of one row: `handleFilterChange(index, name, value)` for the property `name`. */
  datatype FilterEdit =
    | SetField(field: string)
    | SetOperator(operator: Operator)
    | SetValue(value: FilterValue)
    | SetLogic(logic: Condition)

  /** `handleFilterChange`. A new link is written into the row; any other property is set on a
      copy of the row, and a new field also resets the operator to `is` and the value to empty
      (both branches of the source's numeric test choose `is`). */
  method ChangeFilter(rows: seq<FilterRow>, index: nat, edit: FilterEdit) returns (newRows: seq<FilterRow>)
    requires index < |rows|
    ensures |newRows| == |rows|
    ensures forall j :: 0 <= j < |rows| && j != index ==> newRows[j] == rows[j]
    ensures edit.SetField? ==> newRows[index] == FilterRow(edit.field, Is, Text(""), rows[index].logic)
    ensures edit.SetOperator? ==> newRows[index] == rows[index].(operator := edit.operator)
    ensures edit.SetValue? ==> newRows[index] == rows[index].(value := edit.value)
    ensures edit.SetLogic? ==> newRows[index] == rows[index].(logic := Some(edit.logic))
  {
    newRows := rows;
    var row := newRows[index];
    match edit {
      case SetLogic(l) =>
        row := row.(logic := Some(l));
      case SetField(f) =>
        row := row.(field := f);
        row := row.(operator := Is);
        row := row.(value := Text(""));
      case SetOperator(op) =>
        row := row.(operator := op);
      case SetValue(v) =>
        row := row.(value := v);
    }
    newRows := newRows[index := row];
  }

  /** `handleClearFilters`: a single blank row and the condition AND. */
  function ClearFilters(): (r: (seq<FilterRow>, Condition))
    ensures |r.0| == 1 && r.0[0].field == "" && r.1 == And
  {
    ([BlankRow], And)
  }

  /** `value` is truthy: a non-empty string, or any array. */
  predicate Truthy(v: FilterValue)
  {
    match v
    case Text(s) => s != ""
    case List(_) => true
  }

  /** The rows the builder takes: a field is chosen, and the value is given unless the operator
      needs none. */
  predicate Kept(row: FilterRow)
  {
    row.field != "" && (Truthy(row.value) || row.operator == IsEmpty || row.operator == IsNotEmpty)
  }

  /** The clauses built from `rows`, one row after the other, each kept row writing its clause
      under its field. */
  function Built(rows: seq<FilterRow>, convert: FilterRow -> FilterValue): map<string, Clause>
  {
    if rows == [] then map[]
    else
      var prev := Built(rows[..|rows| - 1], convert);
      var row := rows[|rows| - 1];
      if Kept(row) then prev[row.field := Clause(row.operator, convert(row))] else prev
  }

  /** `handleApplyFilters`: the rows are visited in order and each kept row's clause is stored
      under its field; the state carries the editor's single condition. */
  method BuildFilters(rows: seq<FilterRow>, condition: Condition, convert: FilterRow -> FilterValue)
    returns (filterState: FilterState)
    ensures filterState == FilterState(condition, Built(rows, convert))
  {
    var filters: map<string, Clause> := map[];
    for i := 0 to |rows|
      invariant filters == Built(rows[..i], convert)
    {
      assert rows[..i + 1][..i] == rows[..i];
      var row := rows[i];
      if Kept(row) {
        filters := filters[row.field := Clause(row.operator, convert(row))];
      }
    }
    assert rows[..|rows|] == rows;
    filterState := FilterState(condition, filters);
  }

  /** A field has a clause exactly when some kept row names it. */
  lemma {:induction false} BuiltKeys(rows: seq<FilterRow>, convert: FilterRow -> FilterValue, k: string)
    ensures k in Built(rows, convert) <==> exists i :: 0 <= i < |rows| && Kept(rows[i]) && rows[i].field == k
  {
    if rows != [] {
      var n := |rows| - 1;
      var init := rows[..n];
      BuiltKeys(init, convert, k);
      if k in Built(rows, convert) && !(Kept(rows[n]) && rows[n].field == k) {
        var i :| 0 <= i < |init| && Kept(init[i]) && init[i].field == k;
        assert rows[i] == init[i];
      }
      if exists i :: 0 <= i < |rows| && Kept(rows[i]) && rows[i].field == k {
        var i :| 0 <= i < |rows| && Kept(rows[i]) && rows[i].field == k;
        if i < n {
          assert init[i] == rows[i];
        }
      }
    }
  }

  /** The last kept row on a field decides its clause: later rows overwrite earlier ones. */
  lemma {:induction false} BuiltLastWins(rows: seq<FilterRow>, convert: FilterRow -> FilterValue, i: nat)
    requires i < |rows| && Kept(rows[i])
    requires forall j :: i < j < |rows| ==> !(Kept(rows[j]) && rows[j].field == rows[i].field)
    ensures rows[i].field in Built(rows, convert)
    ensures Built(rows, convert)[rows[i].field] == Clause(rows[i].operator, convert(rows[i]))
  {
    var n := |rows| - 1;
    if i < n {
      var init := rows[..n];
      assert init[i] == rows[i];
      BuiltLastWins(init, convert, i);
    }
  }

  /** The per-row links never reach the built state: rows that differ only in `logic` build the
      same clauses, for any conversion that does not look at the link. */
  lemma {:induction false} BuiltIgnoresLogic(rows: seq<FilterRow>, others: seq<FilterRow>, convert: FilterRow -> FilterValue)
    requires forall row :: convert(row) == convert(row.(logic := None))
    requires |rows| == |others|
    requires forall i :: 0 <= i < |rows| ==> rows[i].(logic := None) == others[i].(logic := None)
    ensures Built(rows, convert) == Built(others, convert)
  {
    if rows != [] {
      var n := |rows| - 1;
      BuiltIgnoresLogic(rows[..n], others[..n], convert);
      var a, b := rows[n], others[n];
      assert a.(logic := None) == b.(logic := None);
      assert convert(a) == convert(a.(logic := None)) == convert(b);
    }
  }

  /** After clearing, applying builds no clause. */
  lemma ClearedBuildsNothing(convert: FilterRow -> FilterValue)
    ensures Built(ClearFilters().0, convert) == map[]
  {
    assert ClearFilters().0 == [BlankRow];
    assert [BlankRow][..0] == [];
  }
}
