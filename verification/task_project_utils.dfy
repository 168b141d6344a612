/** The pure data layer under the task views (frontend/lib/taskProjectUtils.js):
    the priority codec, project lookup, the id-keyed task map built from a
    fetch, and the formatting of raw tasks into table rows. */
module TaskProjectUtils {
  import opened Wrappers
  import opened Decimal
  import opened JsValues
  import opened JsObject
  import opened Seqs

  datatype Project = Project(id: JsValue, name: string, description: string)

  /** A task as the server sends it. The formatting code reads `projectId`
      while the page's mount code reads `project_id`, so both are fields. */
  datatype RawTask = RawTask(
    id: JsValue,
    name: string,
    status: JsValue,
    projectId: JsValue,
    project_id: JsValue,
    dueDate: Option<string>,
    priority: JsValue)

  /** A row of the task table. */
  datatype TaskView = TaskView(
    id: JsValue,
    completed: bool,
    title: string,
    project: JsValue,
    dueDate: string,
    priority: JsValue)

  // ---------------------------------------------------------------------
  // Priority codec

  /** The object literal `valueToPriority`; its numeric keys become the strings "0"-"3". */
  const ValueToPriority: Object<string> :=
    Object(["0", "1", "2", "3"], map["0" := "No Priority", "1" := "Low", "2" := "Medium", "3" := "High"])

  /** The literal is a well-formed object: its keys are array indices in ascending order. */
  lemma ValueToPriorityValid()
    ensures Valid(ValueToPriority)
  {
    var keys := ValueToPriority.keys;
    assert DecimalValue("0") == 0 && DecimalValue("1") == 1;
    assert DecimalValue("2") == 2 && DecimalValue("3") == 3;
    assert forall i :: 0 <= i < 4 ==> IsArrayIndex(keys[i]) && DecimalValue(keys[i]) == i;
  }

  /** `([k, v]) => [v, k]` applied to every entry. */
  function SwapEntries(es: seq<(string, string)>): (swapped: seq<(string, string)>)
    ensures |swapped| == |es|
    ensures forall i :: 0 <= i < |es| ==> swapped[i] == (es[i].1, es[i].0)
  {
    seq(|es|, i requires 0 <= i < |es| => (es[i].1, es[i].0))
  }

  /** `priorityToValue`: the entries of `valueToPriority` with key and value swapped. */
  function PriorityToValue(): (inv: Object<string>)
    ensures Valid(inv)
  {
    ValueToPriorityValid();
    FromEntries(SwapEntries(Entries(ValueToPriority)))
  }

  /** Values of o at distinct keys differ. */
  ghost predicate InjectiveValues(o: Object<string>)
    requires Valid(o)
  {
    forall i, j :: 0 <= i < j < |o.keys| ==> o.props[o.keys[i]] != o.props[o.keys[j]]
  }

  /** Swapping the keys and values of an object whose values are distinct
      maps each value back to its key. */
  lemma InvertEntriesForward(o: Object<string>)
    requires Valid(o) && InjectiveValues(o)
    ensures var inv := FromEntries(SwapEntries(Entries(o)));
            forall k :: k in o.props ==> o.props[k] in inv.props && inv.props[o.props[k]] == k
  {
    var es := SwapEntries(Entries(o));
    forall k | k in o.props
      ensures o.props[k] in FromEntries(es).props && FromEntries(es).props[o.props[k]] == k
    {
      var i :| 0 <= i < |o.keys| && o.keys[i] == k;
      assert es[i] == (o.props[k], k);
      forall j | i < j < |es|
        ensures es[j].0 != es[i].0
      {
        assert es[j].0 == o.props[o.keys[j]];
      }
      FromEntriesLastWins(es, i);
    }
  }

  /** Every key of the swapped object is a value of o, at the key it maps to. */
  lemma InvertEntriesBackward(o: Object<string>)
    requires Valid(o)
    ensures var inv := FromEntries(SwapEntries(Entries(o)));
            forall l :: l in inv.props ==> inv.props[l] in o.props && o.props[inv.props[l]] == l
  {
    var es := SwapEntries(Entries(o));
    var inv := FromEntries(es);
    FromEntriesValues(es);
    forall l | l in inv.props
      ensures inv.props[l] in o.props && o.props[inv.props[l]] == l
    {
      var i :| 0 <= i < |es| && es[i] == (l, inv.props[l]);
      assert o.keys[i] == inv.props[l];
    }
  }

  /** `valueToPriority[v]`: the lookup converts v to a property key first. */
  function PriorityLabel(v: JsValue): Option<string> {
    var key := ToJsString(v);
    if key in ValueToPriority.props then Some(ValueToPriority.props[key]) else None
  }

  /** A number has a label exactly when it is 0, 1, 2 or 3, and the four labels
      are No Priority, Low, Medium and High. */
  lemma PriorityLabelOfNumber(n: int)
    ensures PriorityLabel(Num(n)).Some? <==> 0 <= n <= 3
    ensures n == 0 ==> PriorityLabel(Num(n)) == Some("No Priority")
    ensures n == 1 ==> PriorityLabel(Num(n)) == Some("Low")
    ensures n == 2 ==> PriorityLabel(Num(n)) == Some("Medium")
    ensures n == 3 ==> PriorityLabel(Num(n)) == Some("High")
  {
    assert NatToDecimal(0) == "0" && NatToDecimal(1) == "1";
    assert NatToDecimal(2) == "2" && NatToDecimal(3) == "3";
    var key := IntToString(n);
    if key == "0" { SmallNumeral(n, 0); }
    else if key == "1" { SmallNumeral(n, 1); }
    else if key == "2" { SmallNumeral(n, 2); }
    else if key == "3" { SmallNumeral(n, 3); }
  }

  /** Which JavaScript values have a label at all: the numbers 0-3 and the
      strings "0"-"3". */
  lemma PriorityLabelDomain(v: JsValue)
    ensures PriorityLabel(v).Some? <==>
              (v.Num? && 0 <= v.n <= 3) || (v.Str? && v.s in {"0", "1", "2", "3"})
  {
    if v.Num? {
      PriorityLabelOfNumber(v.n);
    }
  }

  /** The four labels are pairwise distinct. */
  lemma PriorityLabelsDistinct()
    ensures ValueToPriority.props.Values == {"No Priority", "Low", "Medium", "High"}
    ensures forall a, b :: a in ValueToPriority.props && b in ValueToPriority.props && a != b ==>
              ValueToPriority.props[a] != ValueToPriority.props[b]
  {
    var m := ValueToPriority.props;
    assert m["0"] == "No Priority" && m["1"] == "Low" && m["2"] == "Medium" && m["3"] == "High";
  }

  /** Swapping `valueToPriority`'s entries inverts it, since its labels are distinct. */
  lemma PriorityToValueInverts()
    ensures forall k :: k in ValueToPriority.props ==>
              ValueToPriority.props[k] in PriorityToValue().props &&
              PriorityToValue().props[ValueToPriority.props[k]] == k
    ensures forall l :: l in PriorityToValue().props ==>
              PriorityToValue().props[l] in ValueToPriority.props &&
              ValueToPriority.props[PriorityToValue().props[l]] == l
  {
    PriorityLabelsDistinct();
    ValueToPriorityValid();
    var o := ValueToPriority;
    forall i, j | 0 <= i < j < |o.keys|
      ensures o.props[o.keys[i]] != o.props[o.keys[j]]
    {
      assert o.keys[i] in o.props && o.keys[j] in o.props;
    }
    InvertEntriesForward(o);
    InvertEntriesBackward(o);
  }

  /** The keys of `priorityToValue` are the four labels. */
  lemma PriorityToValueKeys()
    ensures PriorityToValue().props.Keys == {"No Priority", "Low", "Medium", "High"}
  {
    PriorityToValueInverts();
    PriorityLabelsDistinct();
    InverseKeys(ValueToPriority.props, PriorityToValue().props);
  }

  lemma InverseKeys(o: map<string, string>, inv: map<string, string>)
    requires o == map["0" := "No Priority", "1" := "Low", "2" := "Medium", "3" := "High"]
    requires forall k :: k in o ==> o[k] in inv
    requires forall l :: l in inv ==> inv[l] in o && o[inv[l]] == l
    ensures inv.Keys == {"No Priority", "Low", "Medium", "High"}
  {
    forall l | l in inv
      ensures l in {"No Priority", "Low", "Medium", "High"}
    {
      var k := inv[l];
      assert o[k] == l;
    }
    assert o["0"] in inv && o["1"] in inv && o["2"] in inv && o["3"] in inv;
  }

  /** `priorityToValue` is the exact inverse of `valueToPriority`: each value
      0-3 comes back as its numeral through its label, and every label comes
      back as itself through its numeral. */
  lemma PriorityCodecRoundTrip()
    ensures forall v :: 0 <= v <= 3 ==>
              PriorityLabel(Num(v)).Some? &&
              PriorityLabel(Num(v)).value in PriorityToValue().props &&
              PriorityToValue().props[PriorityLabel(Num(v)).value] == IntToString(v)
    ensures forall l :: l in PriorityToValue().props ==>
              PriorityLabel(Str(PriorityToValue().props[l])) == Some(l)
  {
    PriorityToValueInverts();
    forall v | 0 <= v <= 3
      ensures PriorityLabel(Num(v)).Some?
      ensures PriorityLabel(Num(v)).value in PriorityToValue().props
      ensures PriorityToValue().props[PriorityLabel(Num(v)).value] == IntToString(v)
    {
      PriorityLabelOfNumber(v);
    }
  }

  // ---------------------------------------------------------------------
  // Project lookup

  /** i is the first position whose project has the given id. */
  ghost predicate FirstMatch(projects: seq<Project>, id: JsValue, i: int) {
    0 <= i < |projects| && projects[i].id == id &&
    forall j :: 0 <= j < i ==> projects[j].id != id
  }

  /** `getProject`: `projects.find(project => project.id === projectId)`. */
  function GetProject(projects: seq<Project>, id: JsValue): (r: Option<Project>)
    ensures r.None? <==> forall j :: 0 <= j < |projects| ==> projects[j].id != id
    ensures forall i :: FirstMatch(projects, id, i) ==> r == Some(projects[i])
  {
    if |projects| == 0 then None
    else if projects[0].id == id then Some(projects[0])
    else
      var r := GetProject(projects[1..], id);
      assert forall i :: FirstMatch(projects, id, i) ==> i > 0 && FirstMatch(projects[1..], id, i - 1);
      r
  }

  /** `getProjectName`: the first matching project's name, else 'Unknown Project'. */
  function GetProjectName(projects: seq<Project>, id: JsValue): (name: string)
    ensures (forall j :: 0 <= j < |projects| ==> projects[j].id != id) ==> name == "Unknown Project"
    ensures forall i :: FirstMatch(projects, id, i) ==> name == projects[i].name
  {
    match GetProject(projects, id)
    case Some(p) => p.name
    case None => "Unknown Project"
  }

  // ---------------------------------------------------------------------
  // The task map of `fetchTasks`

  /** The property key a task is stored under. */
  function TaskKey(t: RawTask): string {
    ToJsString(t.id)
  }

  function TaskEntries(tasks: seq<RawTask>): (es: seq<(string, RawTask)>)
    ensures |es| == |tasks|
    ensures forall i :: 0 <= i < |tasks| ==> es[i] == (TaskKey(tasks[i]), tasks[i])
  {
    seq(|tasks|, i requires 0 <= i < |tasks| => (TaskKey(tasks[i]), tasks[i]))
  }

  /** `Object.fromEntries(tasks.map(task => [task.id, task]))`. */
  function BuildTaskMap(tasks: seq<RawTask>): (m: Object<RawTask>)
    ensures Valid(m)
  {
    FromEntries(TaskEntries(tasks))
  }

  /** The task map is keyed by task id, every key holds a task with that id,
      and when ids repeat the later task wins. */
  lemma TaskMapContents(tasks: seq<RawTask>)
    ensures var m := BuildTaskMap(tasks);
            forall k :: k in m.props <==> exists i :: 0 <= i < |tasks| && TaskKey(tasks[i]) == k
    ensures var m := BuildTaskMap(tasks);
            forall k :: k in m.props ==> TaskKey(m.props[k]) == k && m.props[k] in tasks
    ensures var m := BuildTaskMap(tasks);
            forall i :: 0 <= i < |tasks| && (forall j :: i < j < |tasks| ==> TaskKey(tasks[j]) != TaskKey(tasks[i])) ==>
              TaskKey(tasks[i]) in m.props && m.props[TaskKey(tasks[i])] == tasks[i]
  {
    var es := TaskEntries(tasks);
    var m := BuildTaskMap(tasks);
    FromEntriesKeys(es);
    FromEntriesValues(es);
    forall k | k in m.props
      ensures TaskKey(m.props[k]) == k && m.props[k] in tasks
    {
      var i :| 0 <= i < |es| && es[i] == (k, m.props[k]);
      assert tasks[i] == m.props[k];
    }
    forall i | 0 <= i < |tasks| && (forall j :: i < j < |tasks| ==> TaskKey(tasks[j]) != TaskKey(tasks[i]))
      ensures TaskKey(tasks[i]) in m.props && m.props[TaskKey(tasks[i])] == tasks[i]
    {
      FromEntriesLastWins(es, i);
    }
  }

  /** `fetchTasks`: the setter receives the task map only when the response
      is ok and its body parses; otherwise the error is logged and nothing is set. */
  function FetchTasks(response: Response<seq<RawTask>>): (stored: Option<Object<RawTask>>)
    ensures stored.Some? <==> response.IsOk() && response.body.Some?
    ensures stored.Some? ==> Valid(stored.value) && stored.value == BuildTaskMap(response.body.value)
  {
    if response.IsOk() && response.body.Some? then Some(BuildTaskMap(response.body.value)) else None
  }

  /** `fetchProjects`: the setter receives the parsed projects only on an ok response. */
  function FetchProjects(response: Response<seq<Project>>): (stored: Option<seq<Project>>)
    ensures stored.Some? <==> response.IsOk() && response.body.Some?
    ensures stored.Some? ==> stored == response.body
  {
    if response.IsOk() && response.body.Some? then response.body else None
  }

  /** What `authAndFetchProjects` does: redirect to the login page, reject
      (the auth request itself failed and nothing catches it), or go on to
      `fetchProjects`, whose result is the setter call it makes, if any. */
  datatype AuthOutcome<T> = RedirectToLogin | AuthRejected | Fetched(stored: Option<T>)

  function AuthAndFetchProjects(auth: Response<()>, projects: Response<seq<Project>>): (r: AuthOutcome<seq<Project>>)
    ensures r.RedirectToLogin? <==> auth.Response? && !auth.IsOk()
    ensures r.AuthRejected? <==> auth.NetworkError?
    ensures r.Fetched? <==> auth.IsOk()
    ensures r.Fetched? ==> r.stored == FetchProjects(projects)
  {
    if auth.NetworkError? then AuthRejected
    else if !auth.IsOk() then RedirectToLogin
    else Fetched(FetchProjects(projects))
  }

  // ---------------------------------------------------------------------
  // formatTasks

  /** `task.dueDate || ...` is taken when the due date is a non-empty string. */
  predicate HasDueDate(d: Option<string>) {
    d.Some? && d.value != ""
  }

  /** `valueToPriority[task.priority]`: the label, or `undefined` when the
      priority names no property. A label decodes back, through
      `priorityToValue`, to the string of the priority it came from. */
  function FormatPriority(v: JsValue): (r: JsValue)
    ensures r == Undefined <==> PriorityLabel(v).None?
    ensures r == Undefined || r.Str?
    ensures v.Num? ==> (r == Undefined <==> !(0 <= v.n <= 3))
    ensures v.Num? && 0 <= v.n <= 3 ==>
              r.Str? && r.s in PriorityToValue().props &&
              PriorityToValue().props[r.s] == IntToString(v.n)
    ensures r.Str? ==>
              r.s in PriorityToValue().props &&
              PriorityToValue().props[r.s] == ToJsString(v)
  {
    PriorityLabelOfNumber(if v.Num? then v.n else 0);
    PriorityCodecRoundTrip();
    PriorityToValueInverts();
    match PriorityLabel(v) case Some(l) => Str(l) case None => Undefined
  }

  /** The record `formatTasks` builds for one task. */
  function FormatTask(projects: seq<Project>, t: RawTask): (r: TaskView)
    ensures r.id == t.id && r.title == t.name
    ensures r.completed <==> t.status == Num(1)
    ensures (forall j :: 0 <= j < |projects| ==> projects[j].id != t.projectId) ==> r.project == Str("Unknown Project")
    ensures forall i :: FirstMatch(projects, t.projectId, i) ==> r.project == Str(projects[i].name)
    ensures HasDueDate(t.dueDate) ==> r.dueDate == t.dueDate.value
    ensures !HasDueDate(t.dueDate) ==> r.dueDate == "No Due Date"
    ensures r.priority == Undefined <==> PriorityLabel(t.priority).None?
    ensures r.priority == Undefined || r.priority.Str?
    ensures t.priority.Num? ==> (r.priority == Undefined <==> !(0 <= t.priority.n <= 3))
    ensures t.priority.Num? && 0 <= t.priority.n <= 3 ==>
              r.priority.Str? && r.priority.s in PriorityToValue().props &&
              PriorityToValue().props[r.priority.s] == IntToString(t.priority.n)
    ensures r.priority.Str? ==>
              r.priority.s in PriorityToValue().props &&
              PriorityToValue().props[r.priority.s] == ToJsString(t.priority)
  {
    TaskView(
      t.id,
      t.status == Num(1),
      t.name,
      Str(GetProjectName(projects, t.projectId)),
      if HasDueDate(t.dueDate) then t.dueDate.value else "No Due Date",
      FormatPriority(t.priority))
  }

  /** The priorities 0..3, as numbers or as their numerals, format to the
      labels of `valueToPriority`: No Priority, Low, Medium and High. */
  lemma FormatTaskLabel(projects: seq<Project>, t: RawTask, k: int)
    requires 0 <= k <= 3 && (t.priority == Num(k) || t.priority == Str(IntToString(k)))
    ensures FormatTask(projects, t).priority == Str(["No Priority", "Low", "Medium", "High"][k])
  {
    PriorityLabelOfNumber(k);
    assert ToJsString(t.priority) == ToJsString(Num(k));
    assert PriorityLabel(t.priority) == PriorityLabel(Num(k));
  }

  /** The filter of `formatTasks`: every task when nothing is selected, else
      those whose `projectId` is the selected project's id. */
  predicate InSelection(selected: Option<Project>, t: RawTask) {
    selected.None? || t.projectId == selected.value.id
  }

  function SelectionFilter(selected: Option<Project>): RawTask -> bool {
    t => InSelection(selected, t)
  }

  /** `formatTasks(taskMap, projects, selectedProject)`: the records of the
      selected tasks, in the map's enumeration order. */
  function FormatTasks(taskMap: Object<RawTask>, projects: seq<Project>, selected: Option<Project>): (r: seq<TaskView>)
    requires Valid(taskMap)
    ensures var ps := Positions(Values(taskMap), SelectionFilter(selected));
            |r| == |ps| &&
            forall i :: 0 <= i < |r| ==> r[i] == FormatTask(projects, taskMap.props[taskMap.keys[ps[i]]])
  {
    var kept := Filter(Values(taskMap), SelectionFilter(selected));
    FilterAtPositions(Values(taskMap), SelectionFilter(selected));
    seq(|kept|, i requires 0 <= i < |kept| => FormatTask(projects, kept[i]))
  }

  /** With no selection, one record per map entry, in the map's value order. */
  lemma FormatTasksUnselected(taskMap: Object<RawTask>, projects: seq<Project>)
    requires Valid(taskMap)
    ensures |FormatTasks(taskMap, projects, None)| == |taskMap.keys|
    ensures forall i :: 0 <= i < |taskMap.keys| ==>
              FormatTasks(taskMap, projects, None)[i] == FormatTask(projects, taskMap.props[taskMap.keys[i]])
  {
    var vs := Values(taskMap);
    var ps := Positions(vs, SelectionFilter(None));
    AllPositions(vs, SelectionFilter(None));
  }

  /** When every element passes, the passing positions are 0, 1, ..., |s|-1. */
  lemma {:induction false} AllPositions<T(!new)>(s: seq<T>, keep: T -> bool)
    requires forall i :: 0 <= i < |s| ==> keep(s[i])
    ensures |Positions(s, keep)| == |s|
    ensures forall i :: 0 <= i < |s| ==> Positions(s, keep)[i] == i
  {
    if |s| > 0 {
      AllPositions(s[..|s| - 1], keep);
    }
  }

  /** With a selection, the records are those of exactly the tasks whose
      `projectId` equals the selected id: each such entry yields one record,
      in enumeration order, and every record carries the name that
      `getProjectName` finds in `projects` for the selected id, which is
      'Unknown Project' when no project has it. */
  lemma FormatTasksSelected(taskMap: Object<RawTask>, projects: seq<Project>, p: Project)
    requires Valid(taskMap)
    ensures var r := FormatTasks(taskMap, projects, Some(p));
            forall i :: 0 <= i < |r| ==> r[i].project == Str(GetProjectName(projects, p.id))
    ensures var r := FormatTasks(taskMap, projects, Some(p));
            (forall j :: 0 <= j < |projects| ==> projects[j].id != p.id) ==>
              forall i :: 0 <= i < |r| ==> r[i].project == Str("Unknown Project")
    ensures var ps := Positions(Values(taskMap), SelectionFilter(Some(p)));
            forall j :: 0 <= j < |taskMap.keys| ==>
              (j in ps <==> taskMap.props[taskMap.keys[j]].projectId == p.id)
  {
  }
}
