/** `FIELD_OPTIONS`, the field menu of the sort editors (`components/SortPanel/index.tsx` and
    `components/TaskTable/TableSidebar.tsx` carry the same table), and the numeric test read from it. */
module FieldMenu {
  import opened Optional

  /** One entry of the field menu: the field it names and whether it is numeric (the caption
      shown beside it is presentation and left out). */
  datatype FieldOption = FieldOption(value: string, isNumeric: bool)

  /** `FIELD_OPTIONS` of the sort editors. */
  const FieldOptions: seq<FieldOption> := [
    FieldOption("taskId", true),
    FieldOption("contractId", false),
    FieldOption("obligationTitle", false),
    FieldOption("category", false),
    FieldOption("domain", false),
    FieldOption("subdomain", false),
    FieldOption("criticality", false),
    FieldOption("owner", false),
    FieldOption("triggeredTasks", true),
    FieldOption("openTasks", true),
    FieldOption("compliance", false)]

  /** The first entry from position `i` on that names `field`. */
  function FindFrom(options: seq<FieldOption>, field: string, i: nat): (r: Option<FieldOption>)
    requires i <= |options|
    ensures r.None? <==> forall j :: i <= j < |options| ==> options[j].value != field
    ensures r.Some? ==> r.value in options && r.value.value == field
    decreases |options| - i
  {
    if i == |options| then None
    else if options[i].value == field then Some(options[i])
    else FindFrom(options, field, i + 1)
  }

  /** `options.find(option => option.value === field)`. */
  function FindOption(options: seq<FieldOption>, field: string): Option<FieldOption>
  {
    FindFrom(options, field, 0)
  }

  /** The search stops at the first entry naming the field. */
  lemma {:induction false} FindFromAt(options: seq<FieldOption>, field: string, i: nat, k: nat)
    requires i <= k < |options| && options[k].value == field
    requires forall j :: i <= j < k ==> options[j].value != field
    ensures FindFrom(options, field, i) == Some(options[k])
    decreases k - i
  {
    if i < k {
      FindFromAt(options, field, i + 1, k);
    }
  }

  /** `isNumericField`: the numeric flag of the field's menu entry, false when there is none. */
  predicate IsNumericField(field: string)
  {
    match FindOption(FieldOptions, field)
    case Some(option) => option.isNumeric
    case None => false
  }

  /** Exactly the task id and the two task counters are numeric; unknown and empty names are not. */
  lemma IsNumericFieldIff(field: string)
    ensures IsNumericField(field) <==> field == "taskId" || field == "triggeredTasks" || field == "openTasks"
  {
    var options := FieldOptions;
    if field == "taskId" || field == "triggeredTasks" || field == "openTasks" {
      var k := if field == "taskId" then 0 else if field == "triggeredTasks" then 8 else 9;
      FindFromAt(options, field, 0, k);
    }
    var r := FindOption(options, field);
    if r.Some? {
      var k :| 0 <= k < |options| && options[k] == r.value;
    }
  }
}
