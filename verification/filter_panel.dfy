/** The parts of `components/FilterPanel/index.tsx` that are its own: the suggestion values
    offered for a field, its numeric test and operator sets, and its builder, which passes values
    through unconverted. Its filter-row editor is `FilterRows`; its autocomplete input is
    `Autocomplete`. */
module FilterPanel {
  import opened Optional
  import opened Seqs
  import opened Text
  import opened Tasks
  import opened TaskFilters
  import opened FilterRows

  /** `data.map(item => item[field])`. */
  function FieldValues(data: seq<Task>, field: string): (r: seq<Option<Value>>)
    ensures |r| == |data|
    ensures forall i :: 0 <= i < |data| ==> r[i] == TaskField(data[i], field)
  {
    seq(|data|, i requires 0 <= i < |data| => TaskField(data[i], field))
  }

  /** `Boolean(value)`: absent, the empty string and zero are falsy. */
  predicate TruthyValue(v: Option<Value>)
  {
    match v
    case None => false
    case Some(Str(s)) => s != ""
    case Some(Num(n)) => n != 0
  }

  /** `.filter(Boolean).map(String)`: the truthy values, printed, in order. */
  function Shown(vs: seq<Option<Value>>): (r: seq<string>)
    ensures forall s :: s in r <==>
      exists i :: 0 <= i < |vs| && TruthyValue(vs[i]) && ValueString(vs[i].value) == s
  {
    if vs == [] then []
    else
      var init := vs[..|vs| - 1];
      var last := vs[|vs| - 1];
      var r := Shown(init) + (if TruthyValue(last) then [ValueString(last.value)] else []);
      assert forall i :: 0 <= i < |init| ==> init[i] == vs[i];
      r
  }

  /** All present values are strings, or all are numbers. */
  predicate SameKind(vs: seq<Option<Value>>)
  {
    forall i, j :: 0 <= i < |vs| && 0 <= j < |vs| && vs[i].Some? && vs[j].Some? ==>
      vs[i].value.Num? == vs[j].value.Num?
  }

  /** A task field is a string on every task or a number on every task. */
  lemma FieldValuesSameKind(data: seq<Task>, field: string)
    ensures SameKind(FieldValues(data, field))
  {
    var vs := FieldValues(data, field);
    forall i, j | 0 <= i < |vs| && 0 <= j < |vs| && vs[i].Some? && vs[j].Some?
      ensures vs[i].value.Num? == vs[j].value.Num?
    {
      if field == "triggeredTasks" || field == "openTasks" {
      } else {
        assert !vs[i].value.Num? && !vs[j].value.Num?;
      }
    }
  }

  /** Printing is one-to-one on values of one kind. */
  lemma ValueStringInjective(a: Value, b: Value)
    requires a.Num? == b.Num? && ValueString(a) == ValueString(b)
    ensures a == b
  {
    if a.Num? {
      IntToStringInjective(a.n, b.n);
    }
  }

  /** A truthy value of a same-kind sequence prints as something printed before exactly when it
      occurred before. */
  lemma ShownHas(vs: seq<Option<Value>>, x: Option<Value>)
    requires SameKind(vs + [x]) && TruthyValue(x)
    ensures ValueString(x.value) in Shown(vs) <==> x in vs
  {
    var all := vs + [x];
    if ValueString(x.value) in Shown(vs) {
      var i :| 0 <= i < |vs| && TruthyValue(vs[i]) && ValueString(vs[i].value) == ValueString(x.value);
      assert all[i] == vs[i] && all[|vs|] == x;
      ValueStringInjective(vs[i].value, x.value);
    }
    if x in vs {
      var i :| 0 <= i < |vs| && vs[i] == x;
    }
  }

  /** Deduplicating values and then printing the truthy ones gives the same list as printing and
      then deduplicating the strings. */
  lemma {:induction false} ShownDedup(vs: seq<Option<Value>>)
    requires SameKind(vs)
    ensures Shown(Dedup(vs)) == Dedup(Shown(vs))
    decreases |vs|
  {
    if vs != [] {
      var init := vs[..|vs| - 1];
      var x := vs[|vs| - 1];
      assert vs == init + [x];
      assert SameKind(init) by {
        forall i, j | 0 <= i < |init| && 0 <= j < |init| && init[i].Some? && init[j].Some?
          ensures init[i].value.Num? == init[j].value.Num?
        {
          assert init[i] == vs[i] && init[j] == vs[j];
        }
      }
      ShownDedup(init);
      ShownDedupStep(init, x);
    }
  }

  lemma ShownSnoc(vs: seq<Option<Value>>, x: Option<Value>)
    ensures Shown(vs + [x]) == Shown(vs) + (if TruthyValue(x) then [ValueString(x.value)] else [])
  {
    var all := vs + [x];
    assert all[..|all| - 1] == vs && all[|all| - 1] == x;
  }

  /** One more value at the end: `Dedup` and `Shown` each grow by at most that value. */
  lemma ShownDedupStep(init: seq<Option<Value>>, x: Option<Value>)
    requires SameKind(init + [x])
    requires Shown(Dedup(init)) == Dedup(Shown(init))
    ensures Shown(Dedup(init + [x])) == Dedup(Shown(init + [x]))
  {
    var d, si := Dedup(init), Shown(init);
    DedupSnoc(init, x);
    ShownSnoc(init, x);
    if TruthyValue(x) {
      var v := ValueString(x.value);
      ShownHas(init, x);
      DedupSnoc(si, v);
      if x !in init {
        ShownSnoc(d, x);
      }
    } else {
      assert Shown(init + [x]) == si;
      if x !in init {
        ShownSnoc(d, x);
      }
    }
  }

  /** `getUniqueValues`: `[...new Set(values)].filter(Boolean).map(String)`. The result is the
      distinct printed truthy values, in the order they are first seen. */
  function UniqueValues(data: seq<Task>, field: string): (r: seq<string>)
    ensures r == Dedup(Shown(FieldValues(data, field)))
    ensures Distinct(r)
    ensures forall s :: s in r <==>
      exists i :: 0 <= i < |data| && TruthyValue(TaskField(data[i], field))
                  && ValueString(TaskField(data[i], field).value) == s
  {
    var vs := FieldValues(data, field);
    FieldValuesSameKind(data, field);
    ShownDedup(vs);
    Shown(Dedup(vs))
  }

  /** Earlier suggestions were first seen earlier among the printed values. */
  lemma UniqueValuesFirstSeen(data: seq<Task>, field: string, i: nat, j: nat)
    requires i < j < |UniqueValues(data, field)|
    ensures IndexOf(Shown(FieldValues(data, field)), UniqueValues(data, field)[i]).Some?
    ensures IndexOf(Shown(FieldValues(data, field)), UniqueValues(data, field)[j]).Some?
    ensures IndexOf(Shown(FieldValues(data, field)), UniqueValues(data, field)[i]).value
          < IndexOf(Shown(FieldValues(data, field)), UniqueValues(data, field)[j]).value
  {
    DedupFirstSeenOrder(Shown(FieldValues(data, field)), i, j);
  }

  /** `isNumericField` of the panel: the two task counters only. */
  predicate IsNumericField(field: string)
  {
    field == "triggeredTasks" || field == "openTasks"
  }

  const NumericOperators: seq<Operator> := [Is, GreaterThan, LessThan, GreaterThanOrEqual, LessThanOrEqual]

  const CategoricalOperators: seq<Operator> := [Is, IsNot, Contains, IsEmpty, IsNotEmpty]

  /** `getOperatorOptions` of the panel (the values; the captions are presentation): the order
      comparisons for the counters, the string tests otherwise, `is` in both and `range` in
      neither. */
  function OperatorOptions(field: string): (r: seq<Operator>)
    ensures Is in r && Range !in r && Unknown !in r
    ensures forall op :: IsComparison(op) ==> (op in r <==> IsNumericField(field))
    ensures forall op :: op in [IsNot, Contains, IsEmpty, IsNotEmpty] ==> (op in r <==> !IsNumericField(field))
  {
    if IsNumericField(field) then NumericOperators else CategoricalOperators
  }

  /** The panel stores a row's value as it is. */
  function PanelValue(row: FilterRow): FilterValue
  {
    row.value
  }

  /** The last kept row naming `k`, when one exists. */
  function LastKept(rows: seq<FilterRow>, k: string): (i: nat)
    requires exists i :: 0 <= i < |rows| && Kept(rows[i]) && rows[i].field == k
    ensures i < |rows| && Kept(rows[i]) && rows[i].field == k
    ensures forall j :: i < j < |rows| ==> !(Kept(rows[j]) && rows[j].field == k)
  {
    var n := |rows| - 1;
    if Kept(rows[n]) && rows[n].field == k then n
    else
      var i :| 0 <= i < |rows| && Kept(rows[i]) && rows[i].field == k;
      assert i < n && rows[..n][i] == rows[i];
      LastKept(rows[..n], k)
  }

  /** `handleApplyFilters` of the panel: a clause for exactly the fields some kept row names,
      each the operator and the unconverted value of the last kept row on that field. */
  method ApplyFilters(rows: seq<FilterRow>, condition: Condition) returns (filterState: FilterState)
    ensures filterState == FilterState(condition, Built(rows, PanelValue))
    ensures forall k :: k in filterState.filters <==>
      exists i :: 0 <= i < |rows| && Kept(rows[i]) && rows[i].field == k
    ensures forall k :: k in filterState.filters ==>
      exists i :: 0 <= i < |rows| && rows[i].field == k
                  && filterState.filters[k] == Clause(rows[i].operator, rows[i].value)
  {
    filterState := BuildFilters(rows, condition, PanelValue);
    forall k
      ensures k in filterState.filters <==> exists i :: 0 <= i < |rows| && Kept(rows[i]) && rows[i].field == k
    {
      BuiltKeys(rows, PanelValue, k);
    }
    forall k | k in filterState.filters
      ensures exists i :: 0 <= i < |rows| && rows[i].field == k
                          && filterState.filters[k] == Clause(rows[i].operator, rows[i].value)
    {
      var i := LastKept(rows, k);
      BuiltLastWins(rows, PanelValue, i);
    }
  }
}
