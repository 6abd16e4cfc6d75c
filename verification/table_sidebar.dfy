/** The filter half of `components/TaskTable/TableSidebar.tsx`: the operators offered per field,
    and the builder's conversion of range bounds to numbers. The sidebar's sort editor is
    `SortRules`, its field menu `FieldMenu`, its filter-row editor `FilterRows`. */
module TableSidebar {
  import opened Optional
  import opened TaskFilters
  import opened FilterRows

  /** The fields offered the numeric operator set (the counters and both ids). */
  predicate HasNumericOperators(field: string)
  {
    field == "triggeredTasks" || field == "openTasks" || field == "taskId" || field == "contractId"
  }

  const NumericOperators: seq<Operator> :=
    [Is, GreaterThan, LessThan, GreaterThanOrEqual, LessThanOrEqual, Range]

  const CategoricalOperators: seq<Operator> := [Is, IsNot, Contains, IsEmpty, IsNotEmpty]

  /** `getOperatorOptions` (the values; the captions are presentation): `range` and the order
      comparisons for the numeric set, the string tests otherwise; `is` in both. */
  function OperatorOptions(field: string): (r: seq<Operator>)
    ensures Is in r
    ensures Range in r <==> HasNumericOperators(field)
    ensures forall op :: IsComparison(op) ==> (op in r <==> HasNumericOperators(field))
    ensures forall op :: op in [IsNot, Contains, IsEmpty, IsNotEmpty] ==> (op in r <==> !HasNumericOperators(field))
    ensures Unknown !in r
  {
    if HasNumericOperators(field) then NumericOperators else CategoricalOperators
  }

  /** `Number(value[i])`: `NaN` (None) for a missing element. */
  function ElementNumber(items: seq<Scalar>, i: nat): Option<int>
  {
    if i < |items| then ScalarNumber(items[i]) else None
  }

  /** The value the sidebar's builder stores: the bounds of a range array become the numbers
      `[Number(value[0]), Number(value[1])]`; any other value is stored as it is. */
  function SidebarValue(row: FilterRow): (r: FilterValue)
    ensures !(row.operator == Range && row.value.List?) ==> r == row.value
    ensures row.operator == Range && row.value.List? ==>
      && r.List? && |r.items| == 2
      && (forall j :: 0 <= j < 2 ==> r.items[j] == SNum(ElementNumber(row.value.items, j)))
  {
    if row.operator == Range && row.value.List? then
      List([SNum(ElementNumber(row.value.items, 0)), SNum(ElementNumber(row.value.items, 1))])
    else row.value
  }

  /** Converting a range of at most two bounds to numbers leaves the bounds `applyTaskFilters`
      reads unchanged; a missing bound stays a failed (`NaN`) bound. */
  lemma RangeConversionKeepsBounds(row: FilterRow)
    requires row.operator == Range && row.value.List? && |row.value.items| <= 2
    ensures RangeBounds(SidebarValue(row)) == RangeBounds(row.value)
  {
    var items := row.value.items;
    var r := SidebarValue(row);
    if |items| == 2 {
      assert ScalarNumber(r.items[0]) == ScalarNumber(items[0]);
      assert ScalarNumber(r.items[1]) == ScalarNumber(items[1]);
    } else {
      assert ScalarNumber(r.items[1]) == None;
    }
  }

  /** `handleApplyFilters` of the sidebar: the built state holds a clause for exactly the fields
      some kept row names, range bounds converted, and only the sidebar's single condition. */
  method ApplyFilters(rows: seq<FilterRow>, condition: Condition) returns (filterState: FilterState)
    ensures filterState == FilterState(condition, Built(rows, SidebarValue))
    ensures forall k :: k in filterState.filters <==>
      exists i :: 0 <= i < |rows| && Kept(rows[i]) && rows[i].field == k
  {
    filterState := BuildFilters(rows, condition, SidebarValue);
    forall k {
      BuiltKeys(rows, SidebarValue, k);
    }
  }

  /** Editing only the per-row links changes nothing the sidebar applies. */
  lemma ApplyIgnoresLogic(rows: seq<FilterRow>, others: seq<FilterRow>)
    requires |rows| == |others|
    requires forall i :: 0 <= i < |rows| ==> rows[i].(logic := None) == others[i].(logic := None)
    ensures Built(rows, SidebarValue) == Built(others, SidebarValue)
  {
    BuiltIgnoresLogic(rows, others, SidebarValue);
  }
}
