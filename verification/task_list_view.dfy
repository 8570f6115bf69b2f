/**
  The task list component (src/components/TaskList.jsx) without its
  network calls: the request bodies its buttons send, the edit-mode state
  machine over `editIndex`, `editTitle` and `editDescription`, and what each
  row shows.  Each event handler is a function from the component state
  before the event to the state after it.
 */
module TaskListView {
  import opened Domain
  import TaskStore

  /** The component's state hooks. `editIndex` is a row position, not a task id. */
  datatype ListState = ListState(
    tasks: seq<TaskRecord>,
    editIndex: Option<int>,
    editTitle: string,
    editDescription: string)

  /** The state on first render: no rows, no row being edited, empty edit fields. */
  const Initial := ListState([], None, "", "")

  /** The row at `editIndex` exists, so its Save and Cancel buttons are on screen. */
  predicate Editing(st: ListState)
  {
    st.editIndex.Some? && 0 <= st.editIndex.value < |st.tasks|
  }

  /** The JSON body of the Complete/Undo request: the row as fetched with `completed` flipped. */
  function TogglePayload(row: TaskRecord): (body: TaskRecord)
    ensures body.id == row.id
    ensures body.task.title == row.task.title && body.task.description == row.task.description
    ensures body.task.completed != row.task.completed
  {
    TaskRecord(row.id, row.task.(completed := !row.task.completed))
  }

  /** Toggling the toggled row gives the row back. */
  lemma ToggleTwice(row: TaskRecord)
    ensures TogglePayload(TogglePayload(row)) == row
  {
  }

  /** The JSON body of the Save request for `row`: the edit fields and the row's own `completed`. */
  function SavePayload(st: ListState, row: TaskRecord): (body: Task)
    ensures body.title == st.editTitle && body.description == st.editDescription
    ensures body.completed == row.task.completed
  {
    Task(st.editTitle, st.editDescription, row.task.completed)
  }

  /** Edit on row `index`: that row enters edit mode with its current title and description. */
  function PressEdit(st: ListState, index: int): (next: ListState)
    requires 0 <= index < |st.tasks|
    requires st.editIndex != Some(index)
    ensures Editing(next) && next.editIndex == Some(index)
    ensures next.editTitle == st.tasks[index].task.title
    ensures next.editDescription == st.tasks[index].task.description
    ensures next.tasks == st.tasks
  {
    st.(editIndex := Some(index), editTitle := st.tasks[index].task.title,
        editDescription := st.tasks[index].task.description)
  }

  /** Cancel: leave edit mode; rows and edit text stay as they are. */
  function PressCancel(st: ListState): (next: ListState)
    requires Editing(st)
    ensures !Editing(next) && next.editIndex == None
    ensures next.tasks == st.tasks
    ensures next.editTitle == st.editTitle && next.editDescription == st.editDescription
  {
    st.(editIndex := None)
  }

  /** Typing in the title input of the edited row. */
  function TypeTitle(st: ListState, text: string): (next: ListState)
    requires Editing(st)
    ensures next.editTitle == text
    ensures next.tasks == st.tasks && next.editIndex == st.editIndex
    ensures next.editDescription == st.editDescription
  {
    st.(editTitle := text)
  }

  /** Typing in the description input of the edited row. */
  function TypeDescription(st: ListState, text: string): (next: ListState)
    requires Editing(st)
    ensures next.editDescription == text
    ensures next.tasks == st.tasks && next.editIndex == st.editIndex
    ensures next.editTitle == st.editTitle
  {
    st.(editDescription := text)
  }

  /**
    Save on the edited row, once its request has settled.  `fetch` throws
    only when no response arrives: then the handler skips the rest and edit
    mode stays on.  Any response, an error status included, clears
    `editIndex`.  The reply pairs the request (row id and body) with the
    next state.
   */
  function PressSave(st: ListState, thrown: bool): (r: (int, Task, ListState))
    requires Editing(st)
    ensures r.0 == st.tasks[st.editIndex.value].id
    ensures r.1 == SavePayload(st, st.tasks[st.editIndex.value])
    ensures thrown ==> r.2 == st
    ensures !thrown ==> r.2.editIndex == None && !Editing(r.2)
    ensures r.2.tasks == st.tasks && r.2.editTitle == st.editTitle && r.2.editDescription == st.editDescription
  {
    var row := st.tasks[st.editIndex.value];
    var next := if thrown then st else st.(editIndex := None);
    (row.id, SavePayload(st, row), next)
  }

  /** A successful refetch replaces the rows; `editIndex` keeps its position. */
  function TasksFetched(st: ListState, rows: seq<TaskRecord>): (next: ListState)
    ensures next.tasks == rows
    ensures next.editIndex == st.editIndex
    ensures next.editTitle == st.editTitle && next.editDescription == st.editDescription
  {
    st.(tasks := rows)
  }

  /** What one list item shows. */
  datatype RowView =
    | EditingRow(titleInput: string, descriptionInput: string)
    | ViewingRow(text: string, decoration: string, toggleLabel: string)

  /** What the list shows: the placeholder, or one item per row. */
  datatype ListView = Placeholder(text: string) | Rows(rows: seq<RowView>)

  /** The placeholder text as the file spells it: a check mark whose UTF-8 bytes were decoded as Windows-1252. */
  const PlaceholderText := "No tasks yet. \U{00E2}\U{0153}\U{2026}"

  /**
    One list item: the edit inputs exactly when this is the row at
    `editIndex`; otherwise the title and description, struck through and
    labelled "Undo" exactly when the task is completed.
   */
  function ViewRow(st: ListState, index: int, row: TaskRecord): (v: RowView)
    ensures v.EditingRow? <==> st.editIndex == Some(index)
    ensures v.EditingRow? ==> v.titleInput == st.editTitle && v.descriptionInput == st.editDescription
    ensures v.ViewingRow? ==> v.text == row.task.title + " - " + row.task.description
    ensures v.ViewingRow? ==> (v.decoration == "line-through" <==> row.task.completed)
    ensures v.ViewingRow? ==> (v.decoration == "none" <==> !row.task.completed)
    ensures v.ViewingRow? ==> (v.toggleLabel == "Undo" <==> row.task.completed)
    ensures v.ViewingRow? ==> (v.toggleLabel == "Complete" <==> !row.task.completed)
  {
    if st.editIndex == Some(index) then EditingRow(st.editTitle, st.editDescription)
    else ViewingRow(
      row.task.title + " - " + row.task.description,
      if row.task.completed then "line-through" else "none",
      if row.task.completed then "Undo" else "Complete")
  }

  /** The rendered list. */
  function Render(st: ListState): (v: ListView)
    ensures v.Placeholder? <==> |st.tasks| == 0
    ensures v.Placeholder? ==> v.text == PlaceholderText
    ensures v.Rows? ==> |v.rows| == |st.tasks|
    ensures v.Rows? ==> forall i :: 0 <= i < |v.rows| ==>
      (v.rows[i].EditingRow? <==> st.editIndex == Some(i))
    ensures v.Rows? ==> forall i :: 0 <= i < |v.rows| && v.rows[i].ViewingRow? ==>
      && (v.rows[i].decoration == "line-through" <==> st.tasks[i].task.completed)
      && (v.rows[i].toggleLabel == "Undo" <==> st.tasks[i].task.completed)
    ensures v.Rows? ==> forall i :: 0 <= i < |v.rows| && v.rows[i].EditingRow? ==>
      v.rows[i] == EditingRow(st.editTitle, st.editDescription)
  {
    if |st.tasks| == 0 then Placeholder(PlaceholderText)
    else Rows(seq(|st.tasks|, i requires 0 <= i < |st.tasks| => ViewRow(st, i, st.tasks[i])))
  }

  /** The first render shows the placeholder, and no row is in edit mode. */
  lemma InitialRender()
    ensures Render(Initial) == Placeholder(PlaceholderText)
    ensures !Editing(Initial)
  {
  }

  /** At most one row is in edit mode, and none when `editIndex` names no row. */
  lemma AtMostOneEditingRow(st: ListState, i: int, j: int)
    requires Render(st).Rows?
    requires 0 <= i < |Render(st).rows| && Render(st).rows[i].EditingRow?
    requires 0 <= j < |Render(st).rows| && Render(st).rows[j].EditingRow?
    ensures i == j
    ensures Editing(st)
  {
  }

  /** Saving right after Edit, without typing, sends the row's fields back unchanged. */
  lemma EditThenSaveUnchanged(st: ListState, index: int, thrown: bool)
    requires 0 <= index < |st.tasks|
    requires st.editIndex != Some(index)
    ensures PressSave(PressEdit(st, index), thrown).0 == st.tasks[index].id
    ensures PressSave(PressEdit(st, index), thrown).1 == st.tasks[index].task
  {
  }

  /** Edit then Cancel returns to viewing every row, with the rows untouched. */
  lemma EditThenCancel(st: ListState, index: int)
    requires 0 <= index < |st.tasks|
    requires st.editIndex != Some(index)
    ensures PressCancel(PressEdit(st, index)).tasks == st.tasks
    ensures Render(PressCancel(PressEdit(st, index))) == Render(st.(editIndex := None))
  {
  }

  /** The server's reading of a JSON body that sends all three fields (any extra `id` is ignored). */
  function AsRequest(t: Task): TaskStore.TaskRequest
  {
    TaskStore.TaskRequest(t.title, Some(t.description), Some(t.completed))
  }

  /**
    Sent to the backend, the toggle request flips `completed` of the stored
    row and changes nothing else; toggling the updated row again restores
    the store.
   */
  lemma ToggleOnServer(s: TaskStore.Store, row: TaskRecord)
    requires TaskStore.ValidStore(s)
    requires row.id in s && s[row.id] == row.task
    ensures
      var once := TaskStore.Update(s, row.id, AsRequest(TogglePayload(row).task));
      && once.reply.Ok?
      && once.store[row.id] == row.task.(completed := !row.task.completed)
      && TaskStore.Update(once.store, row.id, AsRequest(TogglePayload(once.reply.value).task)).store == s
  {
  }
}
