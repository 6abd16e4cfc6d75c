/** The sort-rule editor shared, line for line, by `components/SortPanel/index.tsx` and
    `components/TaskTable/TableSidebar.tsx`: a list of rules that never becomes empty, reordered
    by dragging one rule onto another's position, and the rules it hands on when applied. */
module SortRules {
  import opened Optional
  import opened Seqs
  import opened RowSorting

  /** The rule a new row of the editor starts with: no field, ascending. */
  const BlankRule := SortState("", Asc)

  /** A rule counts once a field has been chosen (`rule.field` is truthy). */
  predicate IsActive(rule: SortState)
  {
    rule.field != ""
  }

  /** `handleAddSort`: one blank rule appended after the existing ones. */
  function AddSort(rules: seq<SortState>): (r: seq<SortState>)
    ensures |r| == |rules| + 1
    ensures r[..|rules|] == rules && r[|rules|] == BlankRule
  {
    rules + [BlankRule]
  }

  /** `handleRemoveSort`: the last remaining rule is replaced by a blank one; otherwise exactly
      the rule at `index` goes and the others keep their order. */
  function RemoveSort(rules: seq<SortState>, index: nat): (r: seq<SortState>)
    ensures |rules| == 1 ==> r == [BlankRule]
    ensures rules != [] ==> r != []
    ensures |rules| > 1 && index < |rules| ==>
      |r| == |rules| - 1 && forall j :: 0 <= j < |r| ==> r[j] == rules[if j < index then j else j + 1]
    ensures |rules| != 1 && index >= |rules| ==> r == rules
  {
    if |rules| == 1 then [BlankRule] else RemoveAt(rules, index)
  }

  /** Removing the rule just added gives the list back. */
  lemma RemoveAddedSort(rules: seq<SortState>)
    requires rules != []
    ensures RemoveSort(AddSort(rules), |rules|) == rules
  {
    assert AddSort(rules)[..|rules|] == rules;
  }

  /** An edit of one rule: its field or its direction. */
  datatype RuleEdit = SetField(field: string) | SetOrder(order: Order)

  /** `handleSortChange`: the rule at `index` gets the edited property, nothing else changes. */
  function ChangeSort(rules: seq<SortState>, index: nat, edit: RuleEdit): (r: seq<SortState>)
    requires index < |rules|
    ensures |r| == |rules|
    ensures forall j :: 0 <= j < |r| && j != index ==> r[j] == rules[j]
    ensures edit.SetField? ==> r[index].field == edit.field && r[index].order == rules[index].order
    ensures edit.SetOrder? ==> r[index].order == edit.order && r[index].field == rules[index].field
  {
    match edit
    case SetField(f) => rules[index := rules[index].(field := f)]
    case SetOrder(o) => rules[index := rules[index].(order := o)]
  }

  /** `handleClearAll`: back to a single blank rule. */
  function ClearAll(): (r: seq<SortState>)
    ensures |r| == 1 && !IsActive(r[0])
  {
    [BlankRule]
  }

  /** `handleApplySort` (and the sort half of the sidebar's apply): the rules with a field, in
      their order. */
  function ActiveRules(rules: seq<SortState>): (r: seq<SortState>)
    ensures IsSubseq(r, rules)
    ensures forall x :: x in r <==> x in rules && IsActive(x)
    ensures forall x :: multiset(r)[x] == if IsActive(x) then multiset(rules)[x] else 0
  {
    FilterIsSubseq(rules, IsActive);
    FilterCount(rules, IsActive);
    Filter(rules, IsActive)
  }

  /** `hasValidRules`: some rule has a field. */
  predicate HasValidRules(rules: seq<SortState>)
  {
    exists i :: 0 <= i < |rules| && IsActive(rules[i])
  }

  /** The apply button is enabled exactly when applying would hand on at least one rule. */
  lemma HasValidRulesIffActive(rules: seq<SortState>)
    ensures HasValidRules(rules) <==> ActiveRules(rules) != []
  {
    if HasValidRules(rules) {
      var i :| 0 <= i < |rules| && IsActive(rules[i]);
      assert rules[i] in ActiveRules(rules);
    }
    if ActiveRules(rules) != [] {
      var x := ActiveRules(rules)[0];
      assert x in rules;
      var i :| 0 <= i < |rules| && rules[i] == x;
    }
  }

  /** After clearing, nothing is left to apply. */
  lemma ClearAllHasNoValidRules()
    ensures !HasValidRules(ClearAll()) && ActiveRules(ClearAll()) == []
  {
    HasValidRulesIffActive(ClearAll());
  }

  /** Applying the applied rules again hands on the same rules. */
  lemma ActiveRulesIdempotent(rules: seq<SortState>)
    ensures ActiveRules(ActiveRules(rules)) == ActiveRules(rules)
  {
    FilterIdempotent(rules, IsActive);
  }

  /** The drag state of the editor: no rule is being dragged when `dragIndex` is None. */
  datatype DragState = DragState(isDragging: bool, dragIndex: Option<nat>, dragOverIndex: Option<nat>)

  const Idle := DragState(false, None, None)

  /** `handleDrop` on the rule at `dropIndex`: when a different rule is being dragged it is taken
      out (`splice(dragIndex, 1)`) and put back at `dropIndex` (`splice(dropIndex, 0, item)`);
      the drag state always returns to idle. The indices are those of rendered rules. */
  method DropRule(rules: seq<SortState>, drag: DragState, dropIndex: nat)
    returns (newRules: seq<SortState>, newDrag: DragState)
    requires drag.dragIndex.Some? ==> drag.dragIndex.value < |rules| && dropIndex < |rules|
    ensures newDrag == Idle
    ensures drag.dragIndex.None? || drag.dragIndex.value == dropIndex ==> newRules == rules
    ensures drag.dragIndex.Some? && drag.dragIndex.value != dropIndex ==>
      && |newRules| == |rules|
      && multiset(newRules) == multiset(rules)
      && newRules[dropIndex] == rules[drag.dragIndex.value]
      && RemoveAt(newRules, dropIndex) == RemoveAt(rules, drag.dragIndex.value)
    ensures drag.dragIndex.Some? && drag.dragIndex.value != dropIndex ==>
      newRules == Move(rules, drag.dragIndex.value, dropIndex)
  {
    newRules := rules;
    if drag.dragIndex.Some? && drag.dragIndex.value != dropIndex {
      var dragIndex := drag.dragIndex.value;
      var draggedItem := newRules[dragIndex];
      newRules := newRules[..dragIndex] + newRules[dragIndex + 1..];
      newRules := newRules[..dropIndex] + [draggedItem] + newRules[dropIndex..];
      MoveIsPermutation(rules, dragIndex, dropIndex);
    }
    newDrag := Idle;
  }
}
