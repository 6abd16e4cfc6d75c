# Contract task table — a Dafny model

This project models the data logic behind a contract-obligation task table. The table is a
React/TypeScript application. Its core is the engine in `utils/grouping.ts`:

- grouping task records into one row per contract;
- the field-keyed AND/OR task filter;
- the stable multi-key row sort, which also re-sorts each row's member tasks by task number;
- the expand/collapse transforms.

Around the engine the model covers the list logic of the components:

- the table's search → column filter → filter state → group → sort pipeline;
- the column-filter and column-sort handlers, column drag-to-reorder, width resizing, the
  transposed view and the set toggles (`components/TaskTable/index.tsx`);
- the sort-rule editor shared by `components/SortPanel/index.tsx` and
  `components/TaskTable/TableSidebar.tsx`, with its drag reorder;
- the filter-row editor and the builder that turns filter rows into the filter state (sidebar and
  `components/FilterPanel/index.tsx`);
- the distinct-value list and the autocomplete suggestion box with its keyboard index
  (`components/FilterPanel/index.tsx`).

Modules, one per concern:

| module | file | models |
|---|---|---|
| `Optional` | optional.dfy | `null`/`undefined` as `Option` |
| `Seqs` | seqs.dfy | `filter`, `findIndex`, `splice`, `Set` first-seen order, subsequences |
| `Text` | text.dfy | `toLowerCase`, `includes`, `trim`, `String(n)`, `Number(s)`, digit extraction, `localeCompare` |
| `StableSort` | stable_sort.dfy | the stable `Array.prototype.sort` (insertion sort, proved sorted, permuting and stable) |
| `Tasks` | tasks.dfy | `TaskData` and `TaskRow` of `types/task.ts`, and field access by name |
| `Grouping` | grouping.dfy | `groupTasksByAttributes` (a loop over a dictionary) and the expand transforms |
| `TaskFilters` | task_filters.dfy | `applyTaskFilters` |
| `RowSorting` | row_sorting.dfy | `applySorting`, including the in-place member sort on the caller's array |
| `SortRules` | sort_rules.dfy | the sort-rule editor |
| `FieldMenu` | field_menu.dfy | `FIELD_OPTIONS` and `isNumericField` of the sort editors |
| `FilterRows` | filter_rows.dfy | the filter-row editor and the shared filter-state builder |
| `TableSidebar` | table_sidebar.dfy | the sidebar's operator menu and its builder (range bounds become numbers) |
| `FilterPanel` | filter_panel.dfy | distinct values, the panel's operator menu and its builder |
| `Autocomplete` | autocomplete.dfy | the suggestion box |
| `TaskTable` | task_table.dfy | the table component |

State that the source changes step by step is modelled as methods, each proved against a
specification function:

- the grouping loop with its `groupMap`;
- the in-place member sort over an `array`;
- the filter pipeline;
- the filter-state builders;
- the splice-based drops;
- the push loops of the transposition.

Pure handlers are functions. Both kinds come with lemmas: partitioning, permutation, stability,
idempotence, involution, first-seen order, bounds of the keyboard index, and so on.

Two places where the behaviour of the code, not the intent of its menus, is what is modelled:

- Rows have no `triggeredTasks`, `openTasks` or `taskId` field, so sort keys on those fields never
  order rows. Only a `taskId` key has an effect, on the member lists. See
  `RowSorting.CountKeysKeepOrder`.
- A `tasks` key, which a click on the Tasks column header sets, compares the printed member
  arrays ("[object Object],[object Object]", …). Two rows never share a member array, so the key
  always decides: rows are ordered by member count, and rows with equal counts tie, whatever keys
  follow. See `RowSorting.TasksKeyByCount` and `RowSorting.SortByMembers`.
- The per-row AND/OR link of the sidebar's filter rows is dropped by the builder. The filter only
  ever sees one global condition (`FilterRows.BuiltIgnoresLogic`).
- The sidebar's "Apply Sort" and footer "Apply" buttons call the table's `onApply` with the click
  event, which then replaces the filter state; see "## Findings".

## Model

| member | source | states |
|---|---|---|
| Tasks.TaskField | types/task.ts:1-13 | `task[field]` is defined exactly for the eleven declared task fields; a name that is neither one of them nor inherited from `Object.prototype` reads as absent |
| Tasks.TaskValues | components/TaskTable/index.tsx:178-179 | `Object.values(task)` has one value per declared field, in declaration order, each the value `task[name]` gives |
| Tasks.RowFieldPresence | types/task.ts:15-24 | whether `row[field]` is defined depends on the field name only, never on the row |
| Tasks.RowField | utils/grouping.ts:136-137 | `row[field]`: the contract attributes and id as text, the expansion flag as "true"/"false", and absent for every other name |
| Text.Lower | utils/grouping.ts:73-74 | lower-casing keeps the length and changes exactly the upper-case ASCII letters |
| Text.LowerIdempotent | utils/grouping.ts:73-74 | lower-casing an already lower-cased string changes nothing |
| Text.Contains | utils/grouping.ts:82 | `includes`: the needle is a prefix of the haystack or of some suffix of it |
| Text.ContainsAt | utils/grouping.ts:82 | `includes` holds exactly when the needle occurs at some position of the haystack |
| Text.Trim | components/TaskTable/index.tsx:175 | the trimmed string is empty exactly when every character is whitespace |
| Text.IntToString | utils/grouping.ts:73 | `String(n)` of an integer: a minus sign for negatives, then the decimal digits; never empty |
| Text.ParseNumber | utils/grouping.ts:87-94 | `Number(s)` on integers: trimmed, empty reads 0, an optional sign before decimal digits, anything else `NaN` |
| Text.ParseIntToString | utils/grouping.ts:88-94 | `Number(String(n))` gives back `n` for every integer |
| Text.IntToStringInjective | utils/grouping.ts:73-74 | two different integers never print alike |
| Text.DigitNumber | utils/grouping.ts:126 | the digits of a task id read as a number, `NaN` exactly when the id has no digit |
| Text.DigitNumberAfterPrefix | utils/grouping.ts:126 | an id made of a non-digit such as "T" and the digits of `n` reads as `n` |
| Text.LexCompare | utils/grouping.ts:153 | `localeCompare` as code-unit lexical order: -1, 0 or 1, a proper prefix first |
| Text.LexCompareAntisymmetric | utils/grouping.ts:153 | swapping the operands negates the string comparison |
| Text.LexCompareZero | utils/grouping.ts:153 | the string comparison is 0 exactly for equal strings |
| Text.LexCompareTransitive | utils/grouping.ts:153 | the string comparison is transitive |
| Text.LexCompareSharedPrefix | utils/grouping.ts:153 | a common prefix does not change the string comparison |
| Text.LexCompareProperPrefix | utils/grouping.ts:153 | a string comes before every longer string it begins |
| StableSort.SortBy | utils/grouping.ts:133 | the sorted copy is a permutation of its input |
| StableSort.SortBySorted | utils/grouping.ts:133-159 | under a total preorder the result is ordered |
| StableSort.SortByStable | utils/grouping.ts:133-159 | elements the comparator ties keep their input order (the sort is stable) |
| StableSort.SortBySortedFixpoint | utils/grouping.ts:133-159 | an already ordered input is returned unchanged |
| StableSort.SortByIdempotent | utils/grouping.ts:133-159 | sorting twice is sorting once |
| Grouping.GroupTasksByAttributes | utils/grouping.ts:10-37 | the loop over the tasks, with its `groupMap` from contract id to row, returns exactly the specified grouping `Group(tasks)` |
| Grouping.Group | utils/grouping.ts:10-37 | the rows grouping gives: each task joins the row of its contract id, or opens a new collapsed row at the end with the task's attributes |
| Grouping.GroupIds | utils/grouping.ts:14-31 | the row ids are the tasks' contract ids with repeats removed, in order of first occurrence |
| Grouping.GroupIdsDistinct | utils/grouping.ts:18-30 | no two rows share an id |
| Grouping.GroupHasRowIff | utils/grouping.ts:14-31 | a contract has a row exactly when some task carries its id |
| Grouping.GroupFirstSeenOrder | utils/grouping.ts:14-31 | rows appear in the order in which their contracts are first seen |
| Grouping.GroupRows | utils/grouping.ts:18-33 | every row has the category, domain, subdomain and owner of its contract's first task, exactly its contract's tasks in input order, and is collapsed |
| Grouping.GroupPermutation | utils/grouping.ts:33 | the member lists concatenated in row order are a permutation of the input |
| Grouping.GroupMemberCount | utils/grouping.ts:33 | the member counts add up to the number of tasks |
| Grouping.ToggleRowExpansion | utils/grouping.ts:39-46 | the flag flips exactly on rows with the given id; every other field and row is kept |
| Grouping.ToggleTwice | utils/grouping.ts:39-46 | toggling the same id twice restores the rows |
| Grouping.ExpandAllRows | utils/grouping.ts:48-50 | every row is expanded; length and every other field are kept |
| Grouping.CollapseAllRows | utils/grouping.ts:52-54 | every row is collapsed; length and every other field are kept |
| Grouping.ExpandCollapseIdempotent | utils/grouping.ts:48-54 | expanding all, or collapsing all, twice is doing it once |
| Grouping.GroupIsCollapsed | utils/grouping.ts:27 | freshly grouped rows are already collapsed |
| TaskFilters.RangeBounds | utils/grouping.ts:95-104 | a range has bounds exactly when its value is an array of two elements that both parse as numbers |
| TaskFilters.ClauseHolds | utils/grouping.ts:63-107 | one clause on one task: a missing field passes `isEmpty` only; text operators compare lower-cased strings, order operators the numbers, `range` inclusively; an unknown operator fails |
| TaskFilters.Passes | utils/grouping.ts:110-112 | AND needs every clause to hold, OR some clause |
| TaskFilters.ApplyTaskFilters | utils/grouping.ts:56-114 | no clause returns the tasks unchanged; otherwise exactly the tasks that pass, each with all its copies, as a subsequence in input order |
| TaskFilters.MissingField | utils/grouping.ts:66-71 | on a field the task lacks, only `isEmpty` holds |
| TaskFilters.EmptyOperatorsComplementary | utils/grouping.ts:66-86 | `isEmpty` and `isNotEmpty` always disagree |
| TaskFilters.IsAndIsNot | utils/grouping.ts:66-80 | on a present field `is` and `isNot` disagree; on a missing one both fail |
| TaskFilters.IsIgnoresCase | utils/grouping.ts:73-78 | `is` compares lower-cased text: a value matches itself in any ASCII casing |
| TaskFilters.IsImpliesContains | utils/grouping.ts:77-82 | whenever `is` holds, `contains` holds with the same value |
| TaskFilters.RangeOnNumbers | utils/grouping.ts:95-104 | on a numeric field, a range with two numeric bounds is an inclusive interval test |
| TaskFilters.RangeNeedsTwoNumbers | utils/grouping.ts:95-104 | a range without two parsable bounds rejects every task |
| TaskFilters.GreaterThanOnNumbers | utils/grouping.ts:87-88 | `greaterThan` against a number written as text compares the numbers |
| TaskFilters.ComparisonWithNaN | utils/grouping.ts:87-94 | an order comparison with a value that is not a number rejects every task |
| TaskFilters.AndResultSatisfiesAll | utils/grouping.ts:110-112 | under AND every returned task satisfies every clause |
| TaskFilters.AndWithinOr | utils/grouping.ts:110-112 | with the same clauses, the AND result is a subsequence of the OR result |
| TaskFilters.OrIsUnion | utils/grouping.ts:110-112 | under OR a task survives exactly when it survives some single clause |
| TaskFilters.SingleClauseConditionIrrelevant | utils/grouping.ts:110-112 | with one clause AND and OR give the same tasks |
| TaskFilters.ApplyTaskFiltersIdempotent | utils/grouping.ts:56-114 | filtering twice with the same state is filtering once |
| RowSorting.MembersText | utils/grouping.ts:136-153 | a non-empty member array prints as a non-empty string |
| RowSorting.MembersTextIsJoin | utils/grouping.ts:153 | `String(row.tasks)` is `n` copies of "[object Object]" joined by commas |
| RowSorting.MembersTextOrder | utils/grouping.ts:153 | printed member arrays compare in the order of their lengths |
| RowSorting.OneMemberFirst | utils/grouping.ts:153 | a one-member array prints before any longer one |
| RowSorting.SameOnKeyIffText | utils/grouping.ts:136-153 | two rows are alike on a key (equal values; equal member counts for `tasks`) exactly when the key prints alike on both |
| RowSorting.CompareRows | utils/grouping.ts:133-159 | the row comparator's sign; its meaning is stated by the lemmas below |
| RowSorting.Consulted | utils/grouping.ts:134-157 | the keys the comparator can read: all of them, or up to and including the first `tasks` key |
| RowSorting.FieldTextDiffers | utils/grouping.ts:136-139 | two row values that differ still differ once printed |
| RowSorting.FirstDecidingKey | utils/grouping.ts:134-156 | the first key the rows differ on, or the first `tasks` key, decides by string comparison, negated for `desc`; a key they differ on gives a nonzero result |
| RowSorting.CompareRowsZero | utils/grouping.ts:134-158 | two rows compare equal exactly when they are alike on every key up to the first `tasks` key, which never falls through |
| RowSorting.CompareRowsAntisymmetric | utils/grouping.ts:133-159 | swapping the rows negates the comparison |
| RowSorting.KeyTransitive | utils/grouping.ts:153-156 | one key read in its direction orders printed values transitively |
| RowSorting.KeyStrictTransitive | utils/grouping.ts:153-156 | a strict chain on one key has distinct ends |
| RowSorting.CompareRowsTransitive | utils/grouping.ts:133-159 | the row comparison is transitive |
| RowSorting.RowLeTotalPreorder | utils/grouping.ts:133-159 | the row comparator is a total preorder, as the sort requires |
| RowSorting.TaskIdKey | utils/grouping.ts:122 | `find` returns the first key on `taskId`, and none exactly when no key names it |
| RowSorting.TaskIdLeTotalPreorder | utils/grouping.ts:125-129 | on tasks whose ids contain digits, the member comparator is a total preorder |
| RowSorting.TaskIdsCompareByNumber | utils/grouping.ts:126-128 | "T" ids compare by their numbers ascending, reversed for `desc` |
| RowSorting.TextOrderDiffers | utils/grouping.ts:153 | plain string order would put "T10" before "T2", unlike the number order |
| RowSorting.SortMembersOrdered | utils/grouping.ts:124-130 | a re-sorted member list is a permutation of the old one, ordered by task number in the key's direction |
| RowSorting.SortMembersStable | utils/grouping.ts:125-129 | members with the same task number keep their relative order |
| RowSorting.MembersSorted | utils/grouping.ts:121-131 | with a `taskId` key every row's members are re-sorted by the first such key; otherwise the rows are as given |
| RowSorting.SortRows | utils/grouping.ts:116-159 | no keys returns the rows; otherwise a permutation of the rows after the member step |
| RowSorting.SortMembersInPlace | utils/grouping.ts:123-130 | every slot of the caller's array gets its own row with re-sorted members |
| RowSorting.ApplySorting | utils/grouping.ts:116-160 | the caller's array ends up with re-sorted members, and the result is the sorted copy `SortRows` |
| RowSorting.SortedRowsSpec | utils/grouping.ts:133-159 | the sorted rows are a permutation, ordered by the keys, and stable |
| RowSorting.EquivalentIffAgree | utils/grouping.ts:134-158 | rows the sort ties are exactly the rows alike on every key the comparator reads |
| RowSorting.SortRowsIdempotent | utils/grouping.ts:133-159 | sorting sorted rows again changes nothing |
| RowSorting.CountKeysKeepOrder | utils/grouping.ts:143-145 | keys naming only `triggeredTasks`/`openTasks` leave the rows unchanged, since rows lack those fields |
| RowSorting.TasksKeyByCount | utils/grouping.ts:133-156 | under a `tasks` key rows compare by member count, fewer first for `asc` and last for `desc`; equal counts tie whatever keys follow |
| RowSorting.SortByMembers | components/TaskTable/index.tsx:209-212 | sorting by the Tasks column gives a permutation of the rows ordered by member count in the key's direction, the rows of each count in their old order |
| RowSorting.OrderedByCount | utils/grouping.ts:133-159 | rows sorted by a `tasks` key list their member counts in the key's direction |
| RowSorting.SameCountKeepsOrder | utils/grouping.ts:133-159 | under a `tasks` key the stable sort keeps the rows of each member count in order |
| SortRules.AddSort | components/SortPanel/index.tsx:47-49 | one blank ascending rule is appended and the old rules are kept (same code in TableSidebar.tsx:142-144) |
| SortRules.RemoveSort | components/SortPanel/index.tsx:51-58 | the list never becomes empty: one rule resets to a blank rule, otherwise exactly the given index goes (TableSidebar.tsx:145-151) |
| SortRules.RemoveAddedSort | components/SortPanel/index.tsx:47-58 | removing the rule just added gives the list back |
| SortRules.ChangeSort | components/SortPanel/index.tsx:60-64 | only the rule at the index changes, and only in the edited property (TableSidebar.tsx:152-156) |
| SortRules.ClearAll | components/SortPanel/index.tsx:130-132 | a single rule without a field remains |
| SortRules.ActiveRules | components/SortPanel/index.tsx:119-123 | exactly the rules with a field, each with all its copies, in their order |
| SortRules.HasValidRules | components/SortPanel/index.tsx:136 | `hasValidRules`: some rule has a field |
| SortRules.HasValidRulesIffActive | components/SortPanel/index.tsx:119-136 | the apply button is enabled exactly when applying would hand on some rule |
| SortRules.ClearAllHasNoValidRules | components/SortPanel/index.tsx:130-136 | after clearing there is no valid rule and nothing to apply |
| SortRules.ActiveRulesIdempotent | components/SortPanel/index.tsx:119-123 | applying the applied rules again hands on the same rules |
| SortRules.DropRule | components/SortPanel/index.tsx:92-109 | no-op when nothing is dragged or it is dropped on itself; otherwise a permutation with the dragged rule at the drop index and the others in order; the drag state always returns to idle (TableSidebar.tsx:170-181) |
| FieldMenu.FindFrom | components/SortPanel/index.tsx:125-128 | `find` returns an option of the table whose value is the field, and none exactly when there is no such option |
| FieldMenu.FindFromAt | components/SortPanel/index.tsx:125-128 | `find` returns the first option whose value is the field |
| FieldMenu.IsNumericField | components/SortPanel/index.tsx:125-128 | `isNumericField` of the sort editors: the numeric flag of the field's menu entry, false when there is none (TableSidebar.tsx:185-188) |
| FieldMenu.IsNumericFieldIff | components/SortPanel/index.tsx:125-128 | over the field table of lines 23-35, a field is numeric exactly for `taskId`, `triggeredTasks`, `openTasks`; unknown and empty fields are not (TableSidebar.tsx:185-188) |
| FilterRows.AddFilter | components/TaskTable/TableSidebar.tsx:210 | one blank row is appended and the old rows are kept (FilterPanel/index.tsx:221-223) |
| FilterRows.RemoveFilter | components/TaskTable/TableSidebar.tsx:211-213 | a last remaining row is never removed; otherwise exactly the given index goes (FilterPanel/index.tsx:225-230) |
| FilterRows.RemoveAddedFilter | components/TaskTable/TableSidebar.tsx:210-213 | removing the row just added gives the rows back |
| FilterRows.ChangeFilter | components/TaskTable/TableSidebar.tsx:214-226 | a new field resets the operator to `is` and the value to empty; any other edit changes only that property of that row (FilterPanel/index.tsx:232-242) |
| FilterRows.ClearFilters | components/TaskTable/TableSidebar.tsx:227-230 | one blank row and the AND condition (FilterPanel/index.tsx:244-247) |
| FilterRows.Truthy | components/TaskTable/TableSidebar.tsx:234 | a filter value is truthy when it is a non-empty string or any array |
| FilterRows.Kept | components/TaskTable/TableSidebar.tsx:234 | a row is built when it names a field and has a truthy value or the operator `isEmpty`/`isNotEmpty` (FilterPanel/index.tsx:256) |
| FilterRows.Built | components/TaskTable/TableSidebar.tsx:233-243 | the clauses the rows build, visited in order, each kept row writing its operator and value under its field (FilterPanel/index.tsx:255-261) |
| FilterRows.BuildFilters | components/TaskTable/TableSidebar.tsx:231-246 | the loop fills the filter map exactly as the specified `Built` of the rows, under the global condition |
| FilterRows.BuiltKeys | components/TaskTable/TableSidebar.tsx:233-234 | a field gets a clause exactly when some row names it with a value, or with `isEmpty`/`isNotEmpty` |
| FilterRows.BuiltLastWins | components/TaskTable/TableSidebar.tsx:233-243 | the last such row on a field decides that field's clause |
| FilterRows.BuiltIgnoresLogic | components/TaskTable/TableSidebar.tsx:231-246 | rows that differ only in their AND/OR link build the same filter map |
| FilterRows.ClearedBuildsNothing | components/TaskTable/TableSidebar.tsx:227-246 | cleared rows build no clause |
| TableSidebar.OperatorOptions | components/TaskTable/TableSidebar.tsx:190-209 | `triggeredTasks`, `openTasks`, `taskId`, `contractId` get `is`, the comparisons and `range`; every other field gets the text operators; no unknown operator is offered |
| TableSidebar.SidebarValue | components/TaskTable/TableSidebar.tsx:235-238 | a range array becomes the two numbers of its first two elements; other values pass unchanged |
| TableSidebar.RangeConversionKeepsBounds | components/TaskTable/TableSidebar.tsx:236-238 | converting a range array of at most two elements never changes which bounds the filter reads |
| TableSidebar.ApplyFilters | components/TaskTable/TableSidebar.tsx:231-246 | the built state carries the global condition and a clause for exactly the fields of kept rows |
| TableSidebar.ApplyIgnoresLogic | components/TaskTable/TableSidebar.tsx:231-246 | the per-row AND/OR link never reaches the filter state |
| FilterPanel.FieldValues | components/FilterPanel/index.tsx:180 | one value per record, the record's value of the field |
| FilterPanel.Shown | components/FilterPanel/index.tsx:180 | the printed truthy values, and only those |
| FilterPanel.ShownDedup | components/FilterPanel/index.tsx:180 | removing repeats before printing (the `Set` of raw values) equals removing them after |
| FilterPanel.UniqueValues | components/FilterPanel/index.tsx:179-181 | distinct printed values, exactly the truthy values of the field in the data |
| FilterPanel.UniqueValuesFirstSeen | components/FilterPanel/index.tsx:179-181 | values are listed in the order of their first occurrence |
| FilterPanel.IsNumericField | components/FilterPanel/index.tsx:197-199 | the panel's `isNumericField`: exactly `triggeredTasks` and `openTasks` |
| FilterPanel.OperatorOptions | components/FilterPanel/index.tsx:197-219 | only `triggeredTasks`/`openTasks` get the comparisons, never `range`; every other field gets the text operators |
| FilterPanel.ApplyFilters | components/FilterPanel/index.tsx:249-265 | the built state carries the global condition, a clause for exactly the fields of kept rows, each equal to some row's operator and unconverted value |
| Autocomplete.FilterSuggestions | components/FilterPanel/index.tsx:43-53 | empty input shows nothing; otherwise the matching suggestions in order, cut at ten |
| Autocomplete.Matches | components/FilterPanel/index.tsx:46 | a suggestion matches when, lower-cased, it contains the lower-cased input |
| Autocomplete.SuggestionsMatch | components/FilterPanel/index.tsx:43-53 | every shown suggestion is a suggestion that contains the input ignoring case, in original order |
| Autocomplete.Refresh | components/FilterPanel/index.tsx:43-53 | recomputing the list resets the index to -1 and keeps the state valid |
| Autocomplete.InputChange | components/FilterPanel/index.tsx:66-70 | typing reports the new value and opens the list |
| Autocomplete.SuggestionClick | components/FilterPanel/index.tsx:99-104 | a click reports the suggestion, closes the list and resets the index |
| Autocomplete.KeyDown | components/FilterPanel/index.tsx:72-97 | the index stays within -1 and the last item; keys do nothing on a closed or empty list; Enter selects only from an index of 0 or more; Escape closes and resets |
| Autocomplete.UpUndoesDown | components/FilterPanel/index.tsx:76-83 | ArrowUp undoes an ArrowDown that moved |
| Autocomplete.Presses | components/FilterPanel/index.tsx:72-97 | any number of presses of one key keeps the state valid |
| Autocomplete.DownStopsAtLast | components/FilterPanel/index.tsx:76-79 | from -1, `n` ArrowDown presses reach index `n - 1`, stopping at the last item |
| Autocomplete.DownFrom | components/FilterPanel/index.tsx:76-79 | from any index, `n` ArrowDown presses add `n`, stopping at the last item |
| TaskTable.SearchPass | components/TaskTable/index.tsx:174-182 | a query blank after trimming keeps every task; otherwise exactly the matching tasks, each with all its copies, in order |
| TaskTable.SearchMatchesField | components/TaskTable/index.tsx:176-181 | a task matches exactly when some field, printed and lower-cased, contains the lower-cased query |
| TaskTable.ColumnPass | components/TaskTable/index.tsx:184-195 | exactly the tasks passing every column filter, each with all its copies, in order; no filters keep all |
| TaskTable.TasksColumnFiltersPass | components/TaskTable/index.tsx:188-190 | filters on the `tasks` column never remove a task |
| TaskTable.Pipeline | components/TaskTable/index.tsx:171-199 | the shown tasks: the search, then the column filters, then `applyTaskFilters` |
| TaskTable.PipelineSpec | components/TaskTable/index.tsx:171-199 | the shown tasks are the input tasks passing search, column filters and filter state, each as often as in the input, as a subsequence |
| TaskTable.RunPipeline | components/TaskTable/index.tsx:171-207 | the effect's step-by-step filtering yields the specified pipeline, and the rows are its grouping, sorted only by the sort keys |
| TaskTable.HandleColumnFilter | components/TaskTable/index.tsx:161-169 | the update adds at most one filter |
| TaskTable.HandleColumnFilterOn | components/TaskTable/index.tsx:161-169 | on any field, the update keeps the surviving old filters and then the new one |
| TaskTable.NoneLeftOnField | components/TaskTable/index.tsx:163 | no old filter on the edited field survives |
| TaskTable.OthersKept | components/TaskTable/index.tsx:163 | filters on other fields survive, in order |
| TaskTable.HandleColumnFilterAt | components/TaskTable/index.tsx:161-169 | on the edited field exactly the new filter remains (none for an empty value); other fields keep theirs |
| TaskTable.HandleColumnFilterSpec | components/TaskTable/index.tsx:161-169 | other fields are untouched, the field holds only the new filter, and at most one filter per field is preserved |
| TaskTable.HandleColumnSort | components/TaskTable/index.tsx:133-143 | clicking the sorted field goes asc → desc → none; any other field starts ascending |
| TaskTable.ColumnSortCycle | components/TaskTable/index.tsx:133-143 | none → asc → desc → none on one field |
| TaskTable.ColumnSortPeriod | components/TaskTable/index.tsx:133-143 | three clicks on one field return to the starting state |
| TaskTable.Toggled | components/TaskTable/index.tsx:96-106 | exactly the given id changes membership |
| TaskTable.ToggledTwice | components/TaskTable/index.tsx:149-159 | toggling twice restores the set |
| TaskTable.HandleToggle | components/TaskTable/index.tsx:149-159 | the copied set with the id deleted or added is the toggled set (also lines 96-106 and TableSidebar.tsx:69-76) |
| TaskTable.HandleResizing | components/TaskTable/index.tsx:390-397 | only the resized column changes, to start plus travel but never below 80; no resize leaves all columns |
| TaskTable.ResizeLastMoveWins | components/TaskTable/index.tsx:390-397 | each move starts from the same width, so the last move decides |
| TaskTable.FindColumn | components/TaskTable/index.tsx:267-268 | the first position of the id, or -1 exactly when no column has it |
| TaskTable.SpliceStart | components/TaskTable/index.tsx:270-271 | where `splice` acts: a negative start counts from the end, -1 is the last position |
| TaskTable.ColumnDrop | components/TaskTable/index.tsx:260-277 | no-op without a dragged column or on itself; otherwise a permutation with the dragged column at the target's old index and the others in order, and the drag ends |
| TaskTable.DataColumns | components/TaskTable/index.tsx:301-302 | every column but `expand`, in order |
| TaskTable.BuildHeaderRow | components/TaskTable/index.tsx:285-298 | the push loop builds the specified header row |
| TaskTable.BuildDataRow | components/TaskTable/index.tsx:304-331 | the push loop builds the specified row of one column |
| TaskTable.DataRowsStep | components/TaskTable/index.tsx:301-302 | one more column adds its row exactly when it is not `expand` |
| TaskTable.BuildDataRows | components/TaskTable/index.tsx:301-332 | the column loop builds one row per data column, in order |
| TaskTable.TransposeData | components/TaskTable/index.tsx:279-335 | the method returns the specified transposed table |
| TaskTable.Transposed | components/TaskTable/index.tsx:279-335 | the transposed table: nothing for no rows; otherwise the header row, then one row per non-`expand` column |
| TaskTable.DataRowsAt | components/TaskTable/index.tsx:301-332 | the k-th data row belongs to the k-th data column |
| TaskTable.TransposedCells | components/TaskTable/index.tsx:279-335 | one header row plus one row per non-`expand` column, each `rows + 1` long; cell `i + 1` shows row `i`'s value for the column (the member count for `tasks`) and carries its tasks and index |
| TaskTable.SortCopy | components/TaskTable/index.tsx:204 | `applySorting` on a fresh array returns the specified sorted rows |
| TaskTable.ColumnSortEffect | components/TaskTable/index.tsx:209-216 | with a column sort the rows are sorted by that one key; without one the filtered tasks are regrouped |
| TaskTable.HandleApplyFilters | components/TaskTable/index.tsx:226-240 | the new state filters the original tasks, without search or column filters, then groups and sorts |
| TaskTable.HandleApplySort | components/TaskTable/index.tsx:242-248 | the current rows sorted by the new keys, a permutation of them after the member step |
| TaskTable.HandleSidebarApply | components/TaskTable/index.tsx:407-411 | only rules with a field are handed on, each with all its copies, in order; visibility and transposition are taken as pending |
| TaskTable.SidebarSortsIffValid | components/TaskTable/index.tsx:407-411 | some sort key is handed on exactly when the editor has a valid rule; a blank rule never is |
| TaskTable.Effective | utils/grouping.ts:57 | a stored object without `filters` filters like a state without clauses |
| TaskTable.ActiveFiltersCount | components/TaskTable/index.tsx:130 | the count is the number of fields with a clause, and 0 exactly when there is none |
| TaskTable.OnApplyFilterAsWritten | components/TaskTable/index.tsx:1239-1240 | as written, a built state is stored and a click event replaces the state with an object without `filters` |
| TaskTable.ClickDropsFilters | components/TaskTable/TableSidebar.tsx:380-382 | as written, after a click on "Apply Sort" or "Apply" the table shows what search and column filters alone let through, and counts no active filter |
| TaskTable.ClickShowsFilteredTask | components/TaskTable/TableSidebar.tsx:610-612 | a Finance task hidden by "category is Legal" is shown again after the click, and the active filter count drops from 1 to 0 |
| TaskTable.OnApplyFilter | components/TaskTable/index.tsx:1239-1240 | intended: a built state is stored, a click leaves the stored state as it was |
| TaskTable.ClickKeepsFilters | components/TaskTable/index.tsx:1239-1240 | with the intended callback a click keeps the shown tasks and the filter count; a built state shows exactly what it lets through |
| TaskTable.SidebarOnApply | components/TaskTable/index.tsx:1239-1243 | the callback stores only a built filter state and applies the sidebar's sort rules with a field, visibility and transposition |

## Left out

- Rendering (JSX, styles, hover and focus handlers, modals) and DOM plumbing (`dataTransfer`, `preventDefault`, window and document listeners, click-outside detection) have no contract and are not modelled.
- Captions and labels of options and columns are kept only where they reach data (column captions in the transposed view); operator and field option labels are dropped.
- The drag-start, drag-over, drag-leave and drag-end handlers only record the drag state; the drops take that state (or the dragged id) as a parameter.
- `handleResizeStart` and `handleResizeEnd` (index.tsx:379-405) only record the start width and the column index in refs; `TaskTable.HandleResizing` takes them as parameters. Widths are integers of pixels instead of "160px" strings, so the `parseInt` of the width is not modelled.
- React effect scheduling: the two effects that both write the grouped rows (index.tsx:171-216) are modelled as separate steps, not their interleaving.
- The pending-state effects and `handleSidebarReset` (index.tsx:85-94, 413-418), `handleApplyColumnVisibility` (108-111) and the counters other than `activeFiltersCount` (128-131) only copy state and are not modelled.
- `Text.ParseNumber`: `Number()` is modelled on integers only (optional sign, decimal digits, surrounding whitespace, empty is 0); decimals, exponents, hex and `Infinity` read as `NaN`.
- `Text.Lower`, `Text.Trim`: only ASCII letters are lower-cased and only ASCII whitespace is trimmed; Unicode case mapping and whitespace are not modelled.
- `Text.LexCompare`: `localeCompare` is modelled as comparison by character code, a fixed total order in place of the locale's collation.
- `Text.DigitNumber`: `parseInt` is exact on arbitrarily long digit strings; the loss of precision of large numbers in floating point is not modelled.
- `RowSorting.SortMembersOrdered`: requires every member id to contain a digit; a digit-free id makes the source comparator return `NaN`, which is not a consistent order.
- `RowSorting.MembersSorted`, `RowSorting.ApplySorting`: on member lists with a digit-free id the comparator is inconsistent and the engine's order is implementation-defined; the exact member order these state for such lists is the model's choice (the stable insertion sort reading `NaN` as 0).
- `RowSorting.CompareRows`: the identity test `aValue === bValue` is modelled as value equality of the string fields and as never holding for `tasks` (distinct rows never share a member array); `isExpanded` is compared through its printed text.
- `RowSorting.ApplySorting`: the member re-sort writes the caller's row objects; the model writes the caller's array slots, so sharing of row objects between arrays (the `groupMap` aliases, React state) is not modelled.
- `SortRules.DropRule`: requires both indices to be in range, as only rendered rules can be dragged or dropped on.
- `SortRules.ChangeSort`: the generic `[field]: value` write is modelled as two edits, of the field or of the order; other property names are not modelled.
- `FilterRows.ChangeFilter`: the sidebar writes `logic` into the row object shared with the previous array; the model has values only, so that aliasing is not captured.
- `TaskFilters.ApplyTaskFilters`: takes a filter state that has a map; a stored object without `filters`, which the table's `onApply` can produce, is read through `TaskTable.Effective` as a state without clauses, which is what the `!filterState.filters` test does.
- `Grouping.GroupTasksByAttributes`: `groupMap` is a plain object, so a contract id that names a member of `Object.prototype` ("constructor", "toString", "__proto__") is found as an inherited value and the push at grouping.ts:33 throws; the model assumes contract ids are not such names.
- `Tasks.TaskField`: `task[field]` on a name inherited from `Object.prototype` ("constructor", "toString") reads a function, not `undefined`; the model reads every non-field name as absent, so `TaskFilters.MissingField` covers only names that are not such members.
- `Tasks.Task`: `triggeredTasks` and `openTasks` are TypeScript `number`s, modelled as integers; a fractional count, which would print and compare differently, is not modelled.
- `TaskTable.ColumnDrop`: requires at least one column; the table always has its seven.
- `Autocomplete.KeyDown`: the index set by hovering a suggestion (FilterPanel/index.tsx:164) is not modelled.
- `FilterPanel.UniqueValues`: the panel's `data` is modelled as task records; other record shapes are not modelled.

## Findings

| source | as written | input that shows it | evidently intended | confidence | as-written member | corrected member |
|---|---|---|---|---|---|---|
| components/TaskTable/index.tsx:1239-1241 | `onApply` stores any truthy argument as the filter state, and the sidebar's "Apply Sort" and footer "Apply" buttons pass it the click event (TableSidebar.tsx:382, 612); the event has no `filters`, so every filter clause is dropped and the active filter count becomes 0 | filter "category is Legal" active over a task of category Finance; click "Apply Sort" | a call without a built filter state leaves the filter state alone, as the `if (filterState)` guard shows | not executed; high | TaskTable.OnApplyFilterAsWritten (shown by TaskTable.ClickDropsFilters and TaskTable.ClickShowsFilteredTask) | TaskTable.OnApplyFilter (proved by TaskTable.ClickKeepsFilters; used by TaskTable.SidebarOnApply) |
