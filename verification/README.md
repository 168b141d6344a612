# Task and project client — a Dafny model of its data logic

The task tracker's React front end keeps a list of projects and a table of
tasks. This project models the decision logic under its views:

- the task/project utilities (`frontend/lib/taskProjectUtils.js`):
  - the priority codec `valueToPriority` and its swapped inverse `priorityToValue`;
  - project lookup by id;
  - the id-keyed task map that `fetchTasks` builds;
  - `formatTasks`, which filters that map by project and turns raw tasks
    into table rows;
- the project page (`frontend/src/pages/ProjectPage.jsx`):
  - the sort toggle and its comparator;
  - deleting by id, and the delete-confirmation dialog;
  - creating a task;
  - the formatting and loading done on mount;
- the sign-up form (`frontend/src/pages/Registration.jsx`): the
  password-match check, as a state machine driven by field edits, and the
  submit guard.

Every handler is a pure function from the state before, the handler's input
and the outcome of its request to the state after. A request's outcome is a
`Response`: a status with a body that may fail to parse, or a network error.
DOM field values are explicit inputs.

The JavaScript semantics the code relies on are modelled explicitly:

- `JsValues`: primitive values, truthiness, ToString, the string `<`.
- `JsObject`: plain objects with the property order that `Object.values`
  and `Object.entries` enumerate. Array-index keys come first in ascending
  order, then the other keys in creation order (section 10.1.11.1 of
  ECMA-262). Also `Object.fromEntries`.
- `Seqs`: `Array.prototype.filter`.
- `Sorting`: a comparator-driven sort. The engine is an insertion sort.
  Its output is a permutation. It is sorted whenever the comparator is a
  total preorder, and it is stable within every group of tied elements.
  With a strict comparator it is the unique strictly sorted permutation.
  For a consistent comparator, as ECMA-262 defines it for
  `Array.prototype.sort`, every conforming engine shares the first three
  facts. The text comparator is never consistent, because it answers 1 when
  an element is compared with itself. For it, the standard leaves the order
  to the engine, and the facts describe the insertion sort modelled here.
  The uniqueness fact also holds for any engine that returns a strictly
  ordered arrangement.

Three points where the code's behaviour is easy to misread:

- `formatTasks` filters and looks projects up by the task's `projectId`,
  while the page's mount code reads `project_id`. A raw task carries both fields.
- The text-column comparator never returns 0. Equal keys compare as 1 both
  ways, so their relative order is not defined.
- A failed auth check does not stop every load on the project page. It
  fetches projects without that check, and only the task load is gated
  (`ProjectPage.ProjectsLoadWithoutAuth`).

## Model

| member | source | states |
|---|---|---|
| `TaskProjectUtils.ValueToPriorityValid` | frontend/lib/taskProjectUtils.js:46-51 | the literal's keys are the numerals "0"-"3", array indices enumerated in ascending order |
| `TaskProjectUtils.PriorityLabel` | frontend/lib/taskProjectUtils.js:72 | `valueToPriority[task.priority]`, the lookup under the priority's property key, `None` for `undefined`; it has no contract of its own, and what it means is stated by `PriorityLabelOfNumber`, `PriorityLabelDomain` and `FormatTaskLabel` |
| `TaskProjectUtils.PriorityLabelOfNumber` | frontend/lib/taskProjectUtils.js:46-51 | a number has a label exactly when it is 0..3, and 0, 1, 2, 3 give No Priority, Low, Medium, High |
| `TaskProjectUtils.PriorityLabelDomain` | frontend/lib/taskProjectUtils.js:46-51 | the values with a label are exactly the numbers 0..3 and the strings "0"-"3" |
| `TaskProjectUtils.PriorityLabelsDistinct` | frontend/lib/taskProjectUtils.js:46-51 | the four labels are No Priority, Low, Medium and High, and distinct keys have distinct labels |
| `TaskProjectUtils.SwapEntries` | frontend/lib/taskProjectUtils.js:53 | each entry [k, v] becomes [v, k], in the same positions |
| `TaskProjectUtils.PriorityToValue` | frontend/lib/taskProjectUtils.js:53 | the swapped object is a well-formed object |
| `TaskProjectUtils.InvertEntriesForward` | frontend/lib/taskProjectUtils.js:53 | for an object with distinct values, the swapped object maps each value back to its key |
| `TaskProjectUtils.InvertEntriesBackward` | frontend/lib/taskProjectUtils.js:53 | every key of the swapped object is a value of the original, found at the key it maps to |
| `TaskProjectUtils.PriorityToValueInverts` | frontend/lib/taskProjectUtils.js:53 | `priorityToValue` and `valueToPriority` are inverse on each other's keys, in both directions |
| `TaskProjectUtils.PriorityToValueKeys` | frontend/lib/taskProjectUtils.js:53 | the keys of `priorityToValue` are exactly the four labels |
| `TaskProjectUtils.PriorityCodecRoundTrip` | frontend/lib/taskProjectUtils.js:46-53 | for v in 0..3 the label of v maps back to v's numeral; every label maps to a numeral whose label is that label |
| `TaskProjectUtils.GetProject` | frontend/lib/taskProjectUtils.js:55 | none exactly when no project has the id; otherwise the first project with that id |
| `TaskProjectUtils.GetProjectName` | frontend/lib/taskProjectUtils.js:57-60 | the first matching project's name, 'Unknown Project' when none matches |
| `TaskProjectUtils.TaskEntries` | frontend/lib/taskProjectUtils.js:39 | one entry [id as key, task] per task, in order |
| `TaskProjectUtils.BuildTaskMap` | frontend/lib/taskProjectUtils.js:39 | the map is a well-formed object |
| `TaskProjectUtils.TaskMapContents` | frontend/lib/taskProjectUtils.js:39 | keys are exactly the tasks' ids; each key holds one of the tasks with that id; a task with no later duplicate id is the one stored (the last wins) |
| `TaskProjectUtils.FetchTasks` | frontend/lib/taskProjectUtils.js:33-44 | the setter gets the task map exactly when the response is ok and its body parses |
| `TaskProjectUtils.FetchProjects` | frontend/lib/taskProjectUtils.js:13-23 | the setter gets the parsed projects exactly when the response is ok and its body parses |
| `TaskProjectUtils.AuthAndFetchProjects` | frontend/lib/taskProjectUtils.js:25-31 | a non-ok auth response redirects; a failed auth request rejects; only an ok one goes on to fetch projects |
| `TaskProjectUtils.FormatPriority` | frontend/lib/taskProjectUtils.js:72 | the priority cell is a label string or `undefined`, `undefined` exactly when there is no label, and a label decodes back through `priorityToValue` to the string of the priority it came from |
| `TaskProjectUtils.FormatTask` | frontend/lib/taskProjectUtils.js:65-73 | the id and title are copied; completed iff status is 1; the project is the matching name or 'Unknown Project'; the due date falls back to 'No Due Date'; the priority is undefined or a string, undefined exactly when it has no label, and any label decodes back, through `priorityToValue`, to the string of the priority it came from |
| `TaskProjectUtils.FormatTaskLabel` | frontend/lib/taskProjectUtils.js:72 | a priority 0..3, given as a number or as its numeral, formats to No Priority, Low, Medium or High |
| `TaskProjectUtils.FormatTasks` | frontend/lib/taskProjectUtils.js:62-75 | one formatted record per task that passes the filter, at increasing positions of the map's value order |
| `TaskProjectUtils.FormatTasksUnselected` | frontend/lib/taskProjectUtils.js:62-65 | with no selected project, record i formats the map's i-th value, one per entry |
| `TaskProjectUtils.FormatTasksSelected` | frontend/lib/taskProjectUtils.js:64 | with a selected project, an entry is kept iff its `projectId` equals the selection's id, and every record carries the name `getProjectName` finds in `projects` for the selection's id, 'Unknown Project' if none |
| `JsObject.Put` | frontend/lib/taskProjectUtils.js:39 | storing a property keeps the object well formed: an existing key keeps its place, a new non-index key goes last |
| `JsObject.Values` | frontend/lib/taskProjectUtils.js:63 | `Object.values`: the values in key enumeration order |
| `JsObject.Entries` | frontend/lib/taskProjectUtils.js:53 | `Object.entries`: the [key, value] pairs in key enumeration order |
| `JsObject.FromEntries` | frontend/lib/taskProjectUtils.js:39 | `Object.fromEntries` builds a well-formed object, its entries put one after another; its keys, values and last-wins rule are stated by `FromEntriesKeys`, `FromEntriesValues` and `FromEntriesLastWins` |
| `JsObject.FromEntriesKeys` | frontend/lib/taskProjectUtils.js:39 | `Object.fromEntries` has exactly the entries' keys |
| `JsObject.FromEntriesValues` | frontend/lib/taskProjectUtils.js:39 | each property holds a value paired with its key in the entries |
| `JsObject.FromEntriesLastWins` | frontend/lib/taskProjectUtils.js:39 | an entry with no later entry of the same key is the one stored |
| `Seqs.Filter` | frontend/src/pages/ProjectPage.jsx:144 | `filter` keeps exactly the elements that pass, and no more of them than there were |
| `Seqs.FilterAtPositions` | frontend/src/pages/ProjectPage.jsx:144 | the filtered list is the elements at the passing positions, in increasing order |
| `Seqs.FilterCounts` | frontend/src/pages/ProjectPage.jsx:144 | filtering keeps every occurrence of a passing element and none of a failing one |
| `Seqs.FilterDropsOne` | frontend/src/pages/ProjectPage.jsx:144 | when exactly one element fails, the result is one shorter |
| `Sorting.InsertBy` | frontend/src/pages/ProjectPage.jsx:160 | one step of the engine: inserting an element gives one more element and adds exactly it to the multiset |
| `Sorting.SortBy` | frontend/src/pages/ProjectPage.jsx:160-167 | the sorted copy is a permutation of the list |
| `Sorting.SortSorted` | frontend/src/pages/ProjectPage.jsx:160-167 | with a comparator that is a total preorder on the list, every pair of the output is in order |
| `Sorting.InsertStable` | frontend/src/pages/ProjectPage.jsx:160 | an insertion lands behind every member of a group that does not sort strictly after the inserted element, so the group's order is kept |
| `Sorting.SortStable` | frontend/src/pages/ProjectPage.jsx:160-167 | the members of any group of mutually tied elements leave the sort in the order they came |
| `Sorting.SortUnique` | frontend/src/pages/ProjectPage.jsx:160-167 | with a strict comparator, any strictly sorted permutation equals the output, so every engine that returns a strictly sorted arrangement returns this one |
| `TaskSort.PriorityRank` | frontend/src/pages/ProjectPage.jsx:10-14 | `priorityOrder[x]` under the priority's property key, `None` for `undefined`; it has no contract of its own, and what it means is stated by `PriorityRankNames` |
| `TaskSort.PriorityRankNames` | frontend/src/pages/ProjectPage.jsx:10-14 | only Low, Medium and High have a rank, 1, 2 and 3 |
| `TaskSort.Compare` | frontend/src/pages/ProjectPage.jsx:160-166 | the comparator of `handleSort`; it has no contract of its own, so that the sorting proofs do not unfold it, and what it means is stated by `CompareText`, `ComparePriority`, `EqualTextUnordered` and `DescendingFlipsAscending` |
| `TaskSort.CompareText` | frontend/src/pages/ProjectPage.jsx:166 | on a text column the comparator gives only -1 or 1, and -1 iff `<` puts a first (ascending) or b first (descending) |
| `TaskSort.ComparePriority` | frontend/src/pages/ProjectPage.jsx:161-165 | on priorities the comparator is the rank difference in the chosen direction, and 0 (NaN read as +0) when a rank is undefined |
| `TaskSort.EqualTextUnordered` | frontend/src/pages/ProjectPage.jsx:166 | records with equal keys compare as 1 both ways |
| `TaskSort.SortTasks` | frontend/src/pages/ProjectPage.jsx:160-167 | the sorted list has the same length and the same records |
| `TaskSort.DescendingFlipsAscending` | frontend/src/pages/ProjectPage.jsx:161-166 | descending compares as ascending with the arguments swapped |
| `TaskSort.PriorityPreorder` | frontend/src/pages/ProjectPage.jsx:161-165 | on ranked records the priority comparator is a total preorder |
| `TaskSort.SortByPriority` | frontend/src/pages/ProjectPage.jsx:160-165 | with every priority ranked, ascending output is non-decreasing and descending non-increasing in rank |
| `TaskSort.SortByPriorityStable` | frontend/src/pages/ProjectPage.jsx:160-165 | sorting by priority keeps the input order among the rows of each rank, and among the rows without a rank |
| `TaskSort.TextStrictOrder` | frontend/src/pages/ProjectPage.jsx:166 | on records with distinct keys the text comparator is a strict total order |
| `TaskSort.SortByText` | frontend/src/pages/ProjectPage.jsx:160-167 | with distinct keys, ascending output is strictly increasing and descending strictly decreasing under `<` |
| `TaskSort.SortTextUnique` | frontend/src/pages/ProjectPage.jsx:160-167 | with distinct keys, every strictly ordered permutation is the computed one |
| `TaskSort.DescendingReversesAscending` | frontend/src/pages/ProjectPage.jsx:153-167 | with distinct keys, sorting the ascending list descending reverses it |
| `ProjectPage.NextDirection` | frontend/src/pages/ProjectPage.jsx:154-157 | descending iff the clicked key is the current key and the current direction is ascending |
| `ProjectPage.HandleSort` | frontend/src/pages/ProjectPage.jsx:153-169 | the stored key is the clicked one; the direction is as above; the rows are permuted; nothing else changes |
| `ProjectPage.HandleSortOrdersText` | frontend/src/pages/ProjectPage.jsx:153-168 | with distinct keys the rows end strictly ordered by the clicked text column in the stored direction |
| `ProjectPage.HandleSortOrdersPriority` | frontend/src/pages/ProjectPage.jsx:153-168 | with every priority ranked the rows end ordered by rank in the stored direction |
| `ProjectPage.HandleSortTwice` | frontend/src/pages/ProjectPage.jsx:153-168 | clicking a column twice gives ascending, then descending, the second the reverse of the first when keys are distinct |
| `ProjectPage.DeleteTask` | frontend/src/pages/ProjectPage.jsx:140-151 | on an ok response exactly the rows with another id remain; otherwise nothing changes; nothing but the rows ever changes |
| `ProjectPage.DeleteTaskKeepsOrder` | frontend/src/pages/ProjectPage.jsx:144 | the survivors are the rows at the increasing positions whose id differs |
| `ProjectPage.DeleteTaskCount` | frontend/src/pages/ProjectPage.jsx:144 | with unique ids, deleting a present id removes one row and an absent id none |
| `ProjectPage.DeleteTaskMultiset` | frontend/src/pages/ProjectPage.jsx:144 | after an ok delete each row with the id occurs zero times and every other row as often as before |
| `ProjectPage.OpenDeletePopup` | frontend/src/pages/ProjectPage.jsx:276 | the dialog opens on the row's id and nothing else changes |
| `ProjectPage.HandleDeletePopup` | frontend/src/pages/ProjectPage.jsx:43-48 | the dialog always ends closed with a null id; rows go only for "delete" with an ok response |
| `ProjectPage.DeleteDialogFlow` | frontend/src/pages/ProjectPage.jsx:43-48 | opening on a row and confirming removes every row with its id, and keeps every other row; any other answer keeps the rows |
| `ProjectPage.SelectValue` | frontend/src/pages/ProjectPage.jsx:186-195 | assigning a value to the project select keeps it exactly when some option, whose value is its project's name, has it; otherwise the select reads "" |
| `ProjectPage.ResetTaskFields` | frontend/src/pages/ProjectPage.jsx:97-105 | edit mode on, title empty; the project select reads "1" if a project is named "1" and "" otherwise; the other controls are "", "Low", "Never", ""; nothing else changes |
| `ProjectPage.NewTaskPayload` | frontend/src/pages/ProjectPage.jsx:108-113 | the posted task takes the title, the description and the project from the page, with status 1 |
| `ProjectPage.ResetThenPayload` | frontend/src/pages/ProjectPage.jsx:97-113 | posting right after a reset sends an empty task with status 1, of project "1" only when a project is named "1" and of project "" otherwise |
| `ProjectPage.ResetThenPayloadInitial` | frontend/src/pages/ProjectPage.jsx:27-34 | with the initial project list, whose one project is not named "1", a reset followed by a post names project "" |
| `ProjectPage.FormatCreatedTask` | frontend/src/pages/ProjectPage.jsx:124-132 | the created task's id, name and project are copied; completed iff status is 1; due date "TBD"; priority "Medium" |
| `ProjectPage.AddNewTask` | frontend/src/pages/ProjectPage.jsx:107-138 | on an ok, parsed response exactly one record is appended and the earlier rows are kept; otherwise nothing changes |
| `ProjectPage.CreatedTaskRanked` | frontend/src/pages/ProjectPage.jsx:131 | the appended record ranks as Medium, so a ranked list stays ranked |
| `ProjectPage.FormatServerTask` | frontend/src/pages/ProjectPage.jsx:76-83 | the project is "Project " followed by `project_id`; a falsy due date becomes 'No Due Date'; the priority is always truthy, kept when truthy and 'Medium' otherwise |
| `ProjectPage.FalsyPriorityIsMedium` | frontend/src/pages/ProjectPage.jsx:82 | 0, "", null, undefined and false all become 'Medium' |
| `ProjectPage.FormatServerTasks` | frontend/src/pages/ProjectPage.jsx:76-83 | one formatted row per server task, in order |
| `ProjectPage.LoadTasksAsWritten` | frontend/src/pages/ProjectPage.jsx:66-91 | the rows never change; it redirects exactly when the auth response is not ok |
| `ProjectPage.LoadTasks` | frontend/src/pages/ProjectPage.jsx:66-91 | it redirects exactly when the auth response is not ok; past the gate, an ok parsed response replaces the rows by the formatted tasks |
| `ProjectPage.TasksNeverLoad` | frontend/src/pages/ProjectPage.jsx:73 | with auth ok and an empty task list, the as-written loader keeps the placeholder row while the intended one shows none |
| `ProjectPage.LoadProjects` | frontend/src/pages/ProjectPage.jsx:52-64 | an ok parsed response replaces the projects; otherwise nothing changes |
| `ProjectPage.Mount` | frontend/src/pages/ProjectPage.jsx:50-95 | the mount effect as written never changes the rows, loads the projects whatever `/auth` answers, redirects exactly on a non-ok auth response, and touches nothing else |
| `ProjectPage.MountIntended` | frontend/src/pages/ProjectPage.jsx:50-95 | with the intended task loader the mount replaces the rows as that loader does and the projects as the project loader does, touching nothing else |
| `ProjectPage.ProjectsLoadWithoutAuth` | frontend/src/pages/ProjectPage.jsx:93-94 | a refused auth check still loads the projects, while it redirects and leaves the rows, in the page as written and with the intended loader |
| `ProjectPage.MountsDiffer` | frontend/src/pages/ProjectPage.jsx:73 | the two mounts agree on the redirect and the projects; past the gate with an ok task response only the intended one shows the fetched tasks, and otherwise they are equal |
| `Registration.ApplyEvent` | frontend/src/pages/Registration.jsx:19-26 | each handler stores its field; editing the confirm field also marks it dirty |
| `Registration.Validate` | frontend/src/pages/Registration.jsx:43-54 | while dirty, the error shows iff the passwords differ, with the red or green class; while not dirty nothing changes |
| `Registration.Step` | frontend/src/pages/Registration.jsx:43-54 | an edit followed by the validation effect, which runs only when `checkPassword`, its one dependency, changed; it has no contract of its own, and what it means is stated by `ConfirmEdit` and `OtherEditsKeepValidation` |
| `Registration.MismatchMessageShown` | frontend/src/pages/Registration.jsx:79 | the message shows when the error flag is set and the confirm field is dirty; it has no contract of its own, and `Reachable` states that in reachable states it is the error flag alone |
| `Registration.HandleSubmit` | frontend/src/pages/Registration.jsx:28-37 | registration is attempted, with the email and password, iff the two password fields are equal |
| `Registration.ConfirmEdit` | frontend/src/pages/Registration.jsx:23-54 | a confirm edit stores the value and sets dirty; a changed value re-validates against the password, an unchanged one does not |
| `Registration.OtherEditsKeepValidation` | frontend/src/pages/Registration.jsx:43-54 | editing the password or email leaves the error flag, the class and the dirty flag as they were |
| `Registration.DirtyStays` | frontend/src/pages/Registration.jsx:23-26 | once dirty, always dirty; any confirm edit makes it dirty |
| `Registration.NoConfirmEditNoValidation` | frontend/src/pages/Registration.jsx:43-54 | a run without confirm edits changes nothing about validation |
| `Registration.StepConsistent` | frontend/src/pages/Registration.jsx:11-54 | each step keeps the state consistent: neutral until dirty, error iff red class |
| `Registration.RunConsistent` | frontend/src/pages/Registration.jsx:11-54 | every run from a consistent state ends consistent |
| `Registration.Reachable` | frontend/src/pages/Registration.jsx:11-79 | every state reachable from the initial one is consistent, and the message shows iff the error flag is set |
| `Registration.StaleAfterPasswordEdit` | frontend/src/pages/Registration.jsx:43-54 | after matching passwords and a new password, no message and the green class show while the fields differ and submit is refused |
| `Registration.PasswordEditLeavesStaleMatch` | frontend/src/pages/Registration.jsx:43-54 | from any consistent, dirty state showing a match, editing the password to another value shows no message and keeps the green class while submit is refused |

## Left out

- Network I/O: `fetch`, `fetchWithJson`, `post`, `put`, JSON encoding and
  parsing. Each request's outcome is a parameter.
- `window.location.replace('/login')` and `console` logging: a redirect is
  a flag in the result, and logging is dropped.
- The DOM. The control values that `resetTaskFields` writes and `addNewTask`
  reads are a plain record. An option's value is taken to be its project's
  name; the whitespace stripping a browser applies to option text is not modelled.
- The request URL of the page's task load. It names an undeclared
  variable, so no URL is modelled.
- Async ordering and races between handlers. Each handler is applied as
  one step.
- JSX rendering, styling and routing. `frontend/components/ProjectAccordion.jsx`,
  `frontend/components/NavButton.jsx`, `task-tracker/src/main/java/com/demo/model/Task.java`
  and `backend/auth-service/src/test/java/piesarentsquare/rest/CheckmateAutomationTest.java`
  are not part of this model. They are presentation, a getter/setter class
  and browser automation.
- Numbers are integers. There is no NaN, no fractions, and no
  exponent-form numerals from `toString` (at 1e21 and above).
- Strings compare by character. JavaScript compares UTF-16 code units, which
  differs only for characters outside the Basic Multilingual Plane.
- Inherited prototype properties (`valueToPriority['toString']`) are not
  modelled. Lookups see own properties only.
- `handleSort` is modelled for the three columns the header passes: title,
  due date and priority.
- `TaskSort.SortByPriority`: states the rank order only for lists in which
  every priority is Low, Medium or High. A row without a rank compares as 0
  with every row, so the comparator is not consistent in the sense of
  ECMA-262 and the standard leaves the result to the engine. For the
  modelled engine, `TaskSort.SortByPriorityStable` states what stays
  fixed: the order within each rank and among the unranked rows.
- Raw task fields: a task's `name` and `dueDate` are taken to be strings,
  and a null or absent due date is read as `None`. Two behaviours of
  non-string values are therefore not modelled. A truthy non-string due
  date would survive `task.dueDate || 'No Due Date'`. Non-string titles or
  dates would make the comparator's `<` compare numerically.
- The GitHub sign-up button and the email field's `required` attribute:
  they only log or are enforced by the browser.

## Findings

| source | as written | input that shows it | evidently intended | confidence | as-written member | corrected member |
|---|---|---|---|---|---|---|
| frontend/src/pages/ProjectPage.jsx:73 | the task request builds its URL from `taskID`, which is declared nowhere, so evaluating it throws a ReferenceError that the surrounding `catch` swallows | `/auth` answers 200 and the server holds no tasks: the table keeps the placeholder "Complete report" row | after a passed auth check, the fetched tasks are formatted and replace the rows | not executed | `ProjectPage.LoadTasksAsWritten`, used by `ProjectPage.Mount` (exhibited by `ProjectPage.TasksNeverLoad`) | `ProjectPage.LoadTasks`, used by `ProjectPage.MountIntended` |
