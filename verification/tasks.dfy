/** The records of `types/task.ts`: a task and the contract row that groups tasks, plus reading a
    field by its name as the source does with `task[field]` and `row[field]`. */
module Tasks {
  import opened Optional
  import Text

  datatype Criticality = High | Medium | Low

  datatype Compliance = Compliant | NonCompliant | Pending | AtRisk

  datatype Task = Task(
    taskId: string,
    contractId: string,
    obligationTitle: string,
    category: string,
    domain: string,
    subdomain: string,
    criticality: Criticality,
    owner: string,
    triggeredTasks: int,
    openTasks: int,
    compliance: Compliance)

  /** A contract row: the contract's attributes and its member tasks. */
  datatype TaskRow = TaskRow(
    id: string,
    contractId: string,
    category: string,
    domain: string,
    subdomain: string,
    owner: string,
    tasks: seq<Task>,
    isExpanded: bool)

  /** A field value of a task: every task field is a string or a number. */
  datatype Value = Str(s: string) | Num(n: int)

  function CriticalityName(c: Criticality): string
  {
    match c
    case High => "High"
    case Medium => "Medium"
    case Low => "Low"
  }

  function ComplianceName(c: Compliance): string
  {
    match c
    case Compliant => "Compliant"
    case NonCompliant => "Non-Compliant"
    case Pending => "Pending"
    case AtRisk => "At Risk"
  }

  /** The names of the task fields, in declaration order (the order of `Object.values(task)`). */
  const TaskFieldNames: seq<string> := [
    "taskId", "contractId", "obligationTitle", "category", "domain", "subdomain",
    "criticality", "owner", "triggeredTasks", "openTasks", "compliance"]

  /** `task[field]`: the value of the named field, or None (`undefined`) for any other name. */
  function TaskField(t: Task, field: string): (r: Option<Value>)
    ensures r.Some? <==> field in TaskFieldNames
  {
    match field
    case "taskId" => Some(Str(t.taskId))
    case "contractId" => Some(Str(t.contractId))
    case "obligationTitle" => Some(Str(t.obligationTitle))
    case "category" => Some(Str(t.category))
    case "domain" => Some(Str(t.domain))
    case "subdomain" => Some(Str(t.subdomain))
    case "criticality" => Some(Str(CriticalityName(t.criticality)))
    case "owner" => Some(Str(t.owner))
    case "triggeredTasks" => Some(Num(t.triggeredTasks))
    case "openTasks" => Some(Num(t.openTasks))
    case "compliance" => Some(Str(ComplianceName(t.compliance)))
    case _ => None
  }

  /** `Object.values(task)`. */
  function TaskValues(t: Task): (r: seq<Value>)
    ensures |r| == |TaskFieldNames|
    ensures forall i :: 0 <= i < |r| ==> TaskField(t, TaskFieldNames[i]) == Some(r[i])
  {
    seq(|TaskFieldNames|, i requires 0 <= i < |TaskFieldNames| => TaskField(t, TaskFieldNames[i]).value)
  }

  /** `String(value)`. */
  function ValueString(v: Value): string
  {
    match v
    case Str(s) => s
    case Num(n) => Text.IntToString(n)
  }

  /** `String(task[field])`, which is "undefined" for a name that is not a task field. */
  function FieldString(t: Task, field: string): string
  {
    match TaskField(t, field)
    case Some(v) => ValueString(v)
    case None => "undefined"
  }

  /** `Number(value)`: a number as it is, a string parsed (None for `NaN`). */
  function ValueNumber(v: Value): Option<int>
  {
    match v
    case Num(n) => Some(n)
    case Str(s) => Text.ParseNumber(s)
  }

  /** `row[field]` for the string-valued row fields a sort key can name: the contract's
      attributes, its id, and the expansion flag (compared through its text, "true" or "false").
      Every other name, including the task-level fields a row does not have, reads as absent. */
  function RowField(r: TaskRow, field: string): Option<string>
  {
    match field
    case "id" => Some(r.id)
    case "contractId" => Some(r.contractId)
    case "category" => Some(r.category)
    case "domain" => Some(r.domain)
    case "subdomain" => Some(r.subdomain)
    case "owner" => Some(r.owner)
    case "isExpanded" => Some(if r.isExpanded then "true" else "false")
    case _ => None
  }

  /** Whether a field is present depends on its name only, never on the row. */
  lemma RowFieldPresence(a: TaskRow, b: TaskRow, field: string)
    ensures RowField(a, field).Some? <==> RowField(b, field).Some?
  {
  }
}
