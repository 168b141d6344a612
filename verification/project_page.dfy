/** The state of the project page (frontend/src/pages/ProjectPage.jsx) and
    its handlers as pure transitions: the state before, the handler's input
    and the outcome of its request in, the state after out. DOM field values
    are explicit inputs; a request's outcome is a `Response`. */
module ProjectPage {
  import opened Wrappers
  import opened JsValues
  import opened Seqs
  import opened TaskProjectUtils
  import opened TaskSort

  /** `sortConfig`; a key of None is the initial `null`. */
  datatype SortConfig = SortConfig(key: Option<SortKey>, direction: Direction)

  /** `deletePopup`: whether the confirmation dialog is open, and for which task id. */
  datatype DeletePopup = DeletePopup(isOpen: bool, taskId: JsValue)

  /** The component's `useState` cells. */
  datatype PageState = PageState(
    tasks: seq<TaskView>,
    projects: seq<Project>,
    sortConfig: SortConfig,
    currentTaskTitle: string,
    editMode: bool,
    deletePopup: DeletePopup)

  const InitialTasks: seq<TaskView> :=
    [TaskView(Str("task-1"), false, "Complete report", Str("1"), "2024-10-20", Str("High"))]

  const InitialProjects: seq<Project> :=
    [Project(Num(1), "Not my first rodeo", "this description just got updated")]

  const Initial: PageState :=
    PageState(InitialTasks, InitialProjects, SortConfig(None, Asc), "Task Title", false, DeletePopup(false, Null))

  // ---------------------------------------------------------------------
  // handleSort

  /** The direction `handleSort` picks: descending only on a second click of
      the column currently sorted ascending. */
  function NextDirection(config: SortConfig, key: SortKey): (dir: Direction)
    ensures dir == Desc <==> config.key == Some(key) && config.direction == Asc
  {
    if config.key == Some(key) && config.direction == Asc then Desc else Asc
  }

  /** `handleSort(key)`: store the clicked key with the new direction and
      replace the list by its sorted copy. */
  function HandleSort(st: PageState, key: SortKey): (r: PageState)
    ensures r.sortConfig.key == Some(key)
    ensures r.sortConfig.direction == Desc <==> st.sortConfig.key == Some(key) && st.sortConfig.direction == Asc
    ensures |r.tasks| == |st.tasks| && multiset(r.tasks) == multiset(st.tasks)
    ensures r.(tasks := st.tasks, sortConfig := st.sortConfig) == st
  {
    var dir := NextDirection(st.sortConfig, key);
    st.(sortConfig := SortConfig(Some(key), dir), tasks := SortTasks(key, dir, st.tasks))
  }

  /** Clicking a text column orders the rows by it: strictly increasing
      under `<` when ascending, strictly decreasing when descending, as long
      as no two rows share the key. */
  lemma HandleSortOrdersText(st: PageState, key: SortKey)
    requires key != Priority && DistinctText(key, st.tasks)
    ensures var r := HandleSort(st, key);
            (r.sortConfig.direction == Asc ==>
               forall i, j :: 0 <= i < j < |r.tasks| ==> StrLess(Text(key, r.tasks[i]), Text(key, r.tasks[j]))) &&
            (r.sortConfig.direction == Desc ==>
               forall i, j :: 0 <= i < j < |r.tasks| ==> StrLess(Text(key, r.tasks[j]), Text(key, r.tasks[i])))
  {
    SortByText(key, NextDirection(st.sortConfig, key), st.tasks);
  }

  /** Clicking the priority column orders ranked rows by `priorityOrder`. */
  lemma HandleSortOrdersPriority(st: PageState)
    requires AllRanked(st.tasks)
    ensures var r := HandleSort(st, Priority);
            AllRanked(r.tasks) &&
            (r.sortConfig.direction == Asc ==> forall i, j :: 0 <= i < j < |r.tasks| ==>
               PriorityRank(r.tasks[i].priority).value <= PriorityRank(r.tasks[j].priority).value) &&
            (r.sortConfig.direction == Desc ==> forall i, j :: 0 <= i < j < |r.tasks| ==>
               PriorityRank(r.tasks[i].priority).value >= PriorityRank(r.tasks[j].priority).value)
  {
    SortByPriority(NextDirection(st.sortConfig, Priority), st.tasks);
  }

  /** Clicking a text column that is not already ascending sorts ascending;
      clicking it again sorts descending, which reverses the list when no
      two rows share the key. */
  lemma HandleSortTwice(st: PageState, key: SortKey)
    requires key != Priority && DistinctText(key, st.tasks)
    requires st.sortConfig.key != Some(key) || st.sortConfig.direction == Desc
    ensures var once := HandleSort(st, key);
            var twice := HandleSort(once, key);
            once.sortConfig == SortConfig(Some(key), Asc) &&
            twice.sortConfig == SortConfig(Some(key), Desc) &&
            twice.tasks == Reverse(once.tasks)
  {
    DescendingReversesAscending(key, st.tasks);
  }

  // ---------------------------------------------------------------------
  // deleteTask and the confirmation dialog

  /** The filter `task => task.id !== taskId`. */
  function OtherIds(taskId: JsValue): TaskView -> bool {
    (t: TaskView) => t.id != taskId
  }

  /** `deleteTask(taskId)` with the outcome of the DELETE request: on an ok
      response the rows with that id go; otherwise nothing changes. */
  function DeleteTask(st: PageState, taskId: JsValue, response: Response<()>): (r: PageState)
    ensures !response.IsOk() ==> r == st
    ensures response.IsOk() ==> forall t :: t in r.tasks <==> t in st.tasks && t.id != taskId
    ensures r.(tasks := st.tasks) == st
  {
    if response.IsOk() then st.(tasks := Filter(st.tasks, OtherIds(taskId))) else st
  }

  /** The survivors of a delete keep their relative order: they are the rows
      at the increasing positions whose id differs. */
  lemma DeleteTaskKeepsOrder(st: PageState, taskId: JsValue, response: Response<()>)
    requires response.IsOk()
    ensures var r := DeleteTask(st, taskId, response);
            var ps := Positions(st.tasks, OtherIds(taskId));
            |r.tasks| == |ps| &&
            (forall i :: 0 <= i < |ps| ==> r.tasks[i] == st.tasks[ps[i]]) &&
            (forall j :: 0 <= j < |st.tasks| ==> (j in ps <==> st.tasks[j].id != taskId))
  {
    FilterAtPositions(st.tasks, OtherIds(taskId));
  }

  /** When ids are unique, deleting an id in the list removes exactly one row;
      deleting an id not in the list removes none. */
  lemma DeleteTaskCount(st: PageState, taskId: JsValue, response: Response<()>)
    requires response.IsOk()
    requires forall i, j :: 0 <= i < j < |st.tasks| ==> st.tasks[i].id != st.tasks[j].id
    ensures (exists k :: 0 <= k < |st.tasks| && st.tasks[k].id == taskId) ==>
              |DeleteTask(st, taskId, response).tasks| == |st.tasks| - 1
    ensures (forall k :: 0 <= k < |st.tasks| ==> st.tasks[k].id != taskId) ==>
              DeleteTask(st, taskId, response).tasks == st.tasks
  {
    if k :| 0 <= k < |st.tasks| && st.tasks[k].id == taskId {
      FilterDropsOne(st.tasks, OtherIds(taskId), k);
    } else {
      FilterKeepsAll(st.tasks, OtherIds(taskId));
    }
  }

  /** An ok delete removes every copy of a row with the id and keeps every
      other row as often as it occurred, duplicates or not. */
  lemma DeleteTaskMultiset(st: PageState, taskId: JsValue, response: Response<()>)
    requires response.IsOk()
    ensures forall t :: multiset(DeleteTask(st, taskId, response).tasks)[t] ==
              if t.id != taskId then multiset(st.tasks)[t] else 0
  {
    FilterCounts(st.tasks, OtherIds(taskId));
  }

  /** The trash button of a row: `setDeletePopup({isOpen: true, taskId: task.id})`. */
  function OpenDeletePopup(st: PageState, task: TaskView): (r: PageState)
    ensures r.deletePopup.isOpen && r.deletePopup.taskId == task.id
    ensures r.(deletePopup := st.deletePopup) == st
  {
    st.(deletePopup := DeletePopup(true, task.id))
  }

  /** `handleDeletePopup(action, taskId)`: the dialog closes whatever the
      action, and only "delete" goes on to `deleteTask`. */
  function HandleDeletePopup(st: PageState, action: string, taskId: JsValue, response: Response<()>): (r: PageState)
    ensures r.deletePopup == DeletePopup(false, Null)
    ensures action != "delete" ==> r.tasks == st.tasks
    ensures action == "delete" && !response.IsOk() ==> r.tasks == st.tasks
    ensures action == "delete" && response.IsOk() ==>
              forall t :: t in r.tasks <==> t in st.tasks && t.id != taskId
    ensures r.(tasks := st.tasks, deletePopup := st.deletePopup) == st
  {
    var closed := st.(deletePopup := DeletePopup(false, Null));
    if action == "delete" then DeleteTask(closed, taskId, response) else closed
  }

  /** The whole flow: open the dialog on a row, then answer it with the id it
      holds. Confirming removes every row with that id on an ok response;
      any other answer leaves the rows alone; either way the dialog ends closed. */
  lemma DeleteDialogFlow(st: PageState, row: TaskView, action: string, response: Response<()>)
    ensures var shown := OpenDeletePopup(st, row);
            var r := HandleDeletePopup(shown, action, shown.deletePopup.taskId, response);
            r.deletePopup == DeletePopup(false, Null) &&
            (action == "delete" && response.IsOk() ==>
               (forall t :: t in r.tasks ==> t.id != row.id) &&
               (forall t :: t in st.tasks && t.id != row.id ==> t in r.tasks)) &&
            (action != "delete" || !response.IsOk() ==> r.tasks == st.tasks) &&
            r.(tasks := st.tasks, deletePopup := st.deletePopup) == st
  {
  }

  // ---------------------------------------------------------------------
  // Creating a task

  /** The values of the side panel's form controls. */
  datatype TaskForm = TaskForm(project: string, date: string, priority: string, repeat: string, description: string)

  /** Whether the project select has an option of value `v`. Its options
      carry no value attribute, so each one's value is its text: the project's name. */
  predicate HasOption(projects: seq<Project>, v: string) {
    exists i :: 0 <= i < |projects| && projects[i].name == v
  }

  /** Assigning `v` to the project select's value: an option of that value
      becomes selected, and with none the select has no selection and reads "". */
  function SelectValue(projects: seq<Project>, v: string): (r: string)
    ensures HasOption(projects, v) ==> r == v
    ensures !HasOption(projects, v) ==> r == ""
  {
    if HasOption(projects, v) then v else ""
  }

  /** `resetTaskFields`: the panel enters edit mode with an empty title, and
      the controls are set to no date, Low, Never and no description; the
      project select is set to "1", which holds only if a project is named "1". */
  function ResetTaskFields(st: PageState): (r: (PageState, TaskForm))
    ensures r.0.editMode && r.0.currentTaskTitle == ""
    ensures r.0.(editMode := st.editMode, currentTaskTitle := st.currentTaskTitle) == st
    ensures HasOption(st.projects, "1") ==> r.1.project == "1"
    ensures !HasOption(st.projects, "1") ==> r.1.project == ""
    ensures r.1.date == "" && r.1.priority == "Low"
    ensures r.1.repeat == "Never" && r.1.description == ""
  {
    (st.(editMode := true, currentTaskTitle := ""), TaskForm(SelectValue(st.projects, "1"), "", "Low", "Never", ""))
  }

  /** The body `addNewTask` posts. */
  datatype NewTask = NewTask(name: string, description: string, status: int, project_id: string)

  /** `newTask`: the title from state, the description and project from the form, status 1. */
  function NewTaskPayload(st: PageState, form: TaskForm): (p: NewTask)
    ensures p.name == st.currentTaskTitle && p.description == form.description
    ensures p.project_id == form.project && p.status == 1
  {
    NewTask(st.currentTaskTitle, form.description, 1, form.project)
  }

  /** Posting straight after a reset sends an empty task with status 1,
      whose project is "1" when a project is named "1" and "" otherwise. */
  lemma ResetThenPayload(st: PageState)
    ensures var (r, form) := ResetTaskFields(st);
            var p := NewTaskPayload(r, form);
            p.name == "" && p.description == "" && p.status == 1 &&
            (HasOption(st.projects, "1") ==> p.project_id == "1") &&
            (!HasOption(st.projects, "1") ==> p.project_id == "")
  {
  }

  /** With the initial project list, whose one project is not named "1", a
      reset leaves the select empty and the post names project "". */
  lemma ResetThenPayloadInitial()
    ensures var (r, form) := ResetTaskFields(Initial);
            NewTaskPayload(r, form).project_id == ""
  {
    assert InitialProjects[0].name != "1";
  }

  /** The record `addNewTask` appends for the task the server created. */
  function FormatCreatedTask(created: RawTask): (t: TaskView)
    ensures t.id == created.id && t.title == created.name && t.project == created.project_id
    ensures t.completed <==> created.status == Num(1)
    ensures t.dueDate == "TBD" && t.priority == Str("Medium")
  {
    TaskView(created.id, created.status == Num(1), created.name, created.project_id, "TBD", Str("Medium"))
  }

  /** `addNewTask` with the outcome of the POST: on an ok response whose body
      parses, one record is appended; otherwise nothing changes. */
  function AddNewTask(st: PageState, response: Response<RawTask>): (r: PageState)
    ensures response.IsOk() && response.body.Some? ==>
              |r.tasks| == |st.tasks| + 1 && r.tasks[..|st.tasks|] == st.tasks &&
              r.tasks[|st.tasks|] == FormatCreatedTask(response.body.value)
    ensures !(response.IsOk() && response.body.Some?) ==> r == st
    ensures r.(tasks := st.tasks) == st
  {
    if response.IsOk() && response.body.Some? then
      st.(tasks := st.tasks + [FormatCreatedTask(response.body.value)])
    else st
  }

  /** A created record is always ranked Medium, so it takes part in sorting
      by priority. */
  lemma CreatedTaskRanked(st: PageState, response: Response<RawTask>)
    requires AllRanked(st.tasks)
    ensures AllRanked(AddNewTask(st, response).tasks)
    ensures response.IsOk() && response.body.Some? ==>
              PriorityRank(AddNewTask(st, response).tasks[|st.tasks|].priority) == Some(2)
  {
    PriorityRankNames(Str("Medium"));
  }

  // ---------------------------------------------------------------------
  // Loading on mount

  /** The record the mount code builds for a server task: the project is the
      text "Project " followed by `project_id`, and falsy due dates and
      priorities fall back to 'No Due Date' and 'Medium'. */
  function FormatServerTask(t: RawTask): (r: TaskView)
    ensures r.id == t.id && r.title == t.name
    ensures r.completed <==> t.status == Num(1)
    ensures r.project.Str? && r.project.s == "Project " + ToJsString(t.project_id)
    ensures HasDueDate(t.dueDate) ==> r.dueDate == t.dueDate.value
    ensures !HasDueDate(t.dueDate) ==> r.dueDate == "No Due Date"
    ensures Truthy(r.priority)
    ensures Truthy(t.priority) ==> r.priority == t.priority
    ensures !Truthy(t.priority) ==> r.priority == Str("Medium")
  {
    TaskView(
      t.id,
      t.status == Num(1),
      t.name,
      Str("Project " + ToJsString(t.project_id)),
      if HasDueDate(t.dueDate) then t.dueDate.value else "No Due Date",
      if Truthy(t.priority) then t.priority else Str("Medium"))
  }

  /** A zero, empty, null or missing priority all become Medium. */
  lemma FalsyPriorityIsMedium(t: RawTask)
    requires t.priority in {Num(0), Str(""), Null, Undefined, Bool(false)}
    ensures FormatServerTask(t).priority == Str("Medium")
  {
  }

  function FormatServerTasks(data: seq<RawTask>): (rows: seq<TaskView>)
    ensures |rows| == |data|
    ensures forall i :: 0 <= i < |data| ==> rows[i] == FormatServerTask(data[i])
  {
    seq(|data|, i requires 0 <= i < |data| => FormatServerTask(data[i]))
  }

  /** What the mount-time task loader did: whether it sent the browser to
      the login page, and the state it left. */
  datatype Loaded = Loaded(state: PageState, redirected: bool)

  /** `fetchTasks` as written: a non-ok `/auth` redirects; otherwise the
      request URL names the undeclared `taskID`, whose ReferenceError the
      `catch` swallows, so the rows are never replaced. */
  function LoadTasksAsWritten(st: PageState, auth: Response<()>): (r: Loaded)
    ensures r.state == st
    ensures r.redirected <==> auth.Response? && !auth.IsOk()
  {
    if auth.NetworkError? then Loaded(st, false)
    else if !auth.IsOk() then Loaded(st, true)
    else Loaded(st, false)
  }

  /** `fetchTasks` with the request going out: past the auth gate, an ok
      response whose body parses replaces the rows by the formatted tasks. */
  function LoadTasks(st: PageState, auth: Response<()>, response: Response<seq<RawTask>>): (r: Loaded)
    ensures r.redirected <==> auth.Response? && !auth.IsOk()
    ensures auth.IsOk() && response.IsOk() && response.body.Some? ==>
              r.state == st.(tasks := FormatServerTasks(response.body.value))
    ensures !(auth.IsOk() && response.IsOk() && response.body.Some?) ==> r.state == st
  {
    if auth.NetworkError? then Loaded(st, false)
    else if !auth.IsOk() then Loaded(st, true)
    else if response.IsOk() && response.body.Some? then
      Loaded(st.(tasks := FormatServerTasks(response.body.value)), false)
    else Loaded(st, false)
  }

  /** The as-written loader keeps the placeholder row even when the server
      answers with an empty list, which the intended loader shows as empty. */
  lemma TasksNeverLoad()
    ensures var auth: Response<()> := Response(200, Some(()));
            var response: Response<seq<RawTask>> := Response(200, Some([]));
            LoadTasksAsWritten(Initial, auth).state.tasks == InitialTasks &&
            LoadTasks(Initial, auth, response).state.tasks == [] &&
            LoadTasksAsWritten(Initial, auth) != LoadTasks(Initial, auth, response)
  {
  }

  /** The project loader of the mount effect: an ok response whose body
      parses replaces the projects; it runs whatever `/auth` answered. */
  function LoadProjects(st: PageState, response: Response<seq<Project>>): (r: PageState)
    ensures response.IsOk() && response.body.Some? ==> r.projects == response.body.value
    ensures !(response.IsOk() && response.body.Some?) ==> r.projects == st.projects
    ensures r.(projects := st.projects) == st
  {
    match FetchProjects(response)
    case Some(ps) => st.(projects := ps)
    case None => st
  }

  /** The mount effect as written: the task loader, which never replaces
      the rows, and the project loader; they write different cells, so their
      order does not matter. */
  function Mount(st: PageState, auth: Response<()>, projects: Response<seq<Project>>): (r: Loaded)
    ensures r.redirected <==> auth.Response? && !auth.IsOk()
    ensures r.state.projects == LoadProjects(st, projects).projects
    ensures r.state.tasks == st.tasks
    ensures r.state.(projects := st.projects) == st
  {
    var t := LoadTasksAsWritten(st, auth);
    Loaded(LoadProjects(t.state, projects), t.redirected)
  }

  /** The mount effect with the intended task loader: past the auth gate an
      ok task response replaces the rows. */
  function MountIntended(st: PageState, auth: Response<()>, tasks: Response<seq<RawTask>>, projects: Response<seq<Project>>): (r: Loaded)
    ensures r.redirected <==> auth.Response? && !auth.IsOk()
    ensures r.state.projects == LoadProjects(st, projects).projects
    ensures r.state.tasks == LoadTasks(st, auth, tasks).state.tasks
    ensures r.state.(tasks := st.tasks, projects := st.projects) == st
  {
    var t := LoadTasks(st, auth, tasks);
    Loaded(LoadProjects(t.state, projects), t.redirected)
  }

  /** Projects load even when `/auth` refuses: the gate guards only the tasks,
      in the page as written and with the intended loader alike. */
  lemma ProjectsLoadWithoutAuth(st: PageState, tasks: Response<seq<RawTask>>, projects: Response<seq<Project>>)
    requires projects.IsOk() && projects.body.Some?
    ensures var r := Mount(st, Response(401, None), projects);
            r.redirected && r.state.projects == projects.body.value && r.state.tasks == st.tasks
    ensures var r := MountIntended(st, Response(401, None), tasks, projects);
            r.redirected && r.state.projects == projects.body.value && r.state.tasks == st.tasks
  {
  }

  /** The two mounts differ exactly in the rows: with `/auth` passed and the
      task request answered ok, the intended mount shows the fetched tasks
      while the page as written keeps the rows it had. */
  lemma MountsDiffer(st: PageState, auth: Response<()>, tasks: Response<seq<RawTask>>, projects: Response<seq<Project>>)
    ensures MountIntended(st, auth, tasks, projects).redirected == Mount(st, auth, projects).redirected
    ensures MountIntended(st, auth, tasks, projects).state.projects == Mount(st, auth, projects).state.projects
    ensures auth.IsOk() && tasks.IsOk() && tasks.body.Some? ==>
              Mount(st, auth, projects).state.tasks == st.tasks &&
              MountIntended(st, auth, tasks, projects).state.tasks == FormatServerTasks(tasks.body.value)
    ensures !(auth.IsOk() && tasks.IsOk() && tasks.body.Some?) ==>
              MountIntended(st, auth, tasks, projects) == Mount(st, auth, projects)
  {
  }
}
