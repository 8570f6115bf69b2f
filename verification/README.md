# Task Manager — a verified model of its sequential logic

The Task Manager is a small web application. A FastAPI backend (`main.py`) keeps tasks in a
SQLite table and asks a language model for new tasks and for recommendations. A React front end
lists, edits, completes and deletes tasks and shows the recommendations. This project models the
parts of it that are plain sequential logic, in Dafny:

- **The backend task store** (`TaskStore`, `task_store.dfy`). The `tasks` table is a
  `map<int, Task>`. The writing handlers are pure functions from the store before the request to
  an `Outcome`: the store afterwards plus a reply, which is either a value or an `HttpError`
  (404 "Task not found", or a 500). They are POST `/tasks` (`Create`), PUT `/tasks/{task_id}`
  (`Update`), DELETE `/tasks/{task_id}` (`Delete`) and POST `/generate_task` after the model has
  answered (`GenerateTask`). The two reading handlers do not change the store. GET `/tasks` is
  the method `List`, which returns the rows as a sequence. GET `/recommendations` is the function
  `Recommendations`, which takes such a listing and returns the reply body. The request schema's
  defaults are modelled too: an omitted description is `""` and an omitted `completed` is false.
- **The task list component** (`TaskListView`, `task_list_view.dfy`). It covers the JSON bodies
  the Complete/Undo and Save buttons send. It covers the edit-mode state machine over
  `editIndex`, `editTitle` and `editDescription` (Edit, Cancel, typing, Save resolved or thrown,
  refetch). It also covers what each row shows: the edit inputs, or the text with its
  strike-through and its Undo/Complete label.
- **The recommendations panel** (`RecommendationView`, `recommendation_view.dfy`). The reply is
  split at newlines. Every `**` is deleted from each line, left to right, and a leading `- `
  then becomes `• `.
- **Shared pieces.** `Domain` (`domain.dfy`) holds the records. `Text` (`text.dfy`) holds
  Python's `"\n".join` and JavaScript's `split('\n')`, with both round trips proved.

The database chooses new ids. So the creating handlers take the id as a parameter that must not
already be in the store. `TaskStore.NextRowId` is one allocator that meets this: SQLite's rowid
rule, one more than the largest id, or 1 for an empty table. GET `/tasks` returns rows in an
order nothing specifies. `TaskStore.List` therefore picks keys in an arbitrary order, and any
result meeting `IsListing` (every row exactly once) is a valid listing. The language model is a
parameter: a function `model` for recommendations, and the parsed reply (`ParsedReply`) for task
generation.

Three behaviours of the code are modelled as written:

- The path id of PUT and DELETE is any Python integer, but SQLite compares only 64-bit integers.
  An id outside that range cannot be bound into the query. The driver raises, nothing catches
  the error, and the framework answers a bare 500, not 404. Every key of a real store is a 64-bit
  row id (`ValidStore`), and the creating handlers preserve that.
- `generate_task` only catches `JSONDecodeError`. A reply that is valid JSON but not an object,
  such as a list or a number, makes `task_data.get` raise. The framework answers that with a bare
  500 "Internal Server Error", and nothing is stored (`ParsedReply.NotAnObject`).
- The empty-list placeholder in `src/components/TaskList.jsx` is written in the file as the
  characters `âœ…`. These are a check mark's UTF-8 bytes read as Windows-1252.
  `TaskListView.PlaceholderText` holds those three characters.

## Model

| member | source | states |
|---|---|---|
| `TaskStore.FromRequest` | main.py:36-39 | The title is the request's. An omitted description becomes `""` and an omitted `completed` becomes false. Fields that are sent are kept. |
| `TaskStore.Create` | main.py:74-80 | Replies with the new row under the fresh id. The store gains exactly that key, holding the request's fields. Every other row is unchanged, the store grows by one, and a store of 64-bit keys stays one. |
| `TaskStore.Update` | main.py:82-92 | Succeeds exactly when the id is a 64-bit integer and is stored. On success all three fields are replaced and the id is kept. A stored-range id that is absent gets 404 "Task not found", an id outside 64 bits gets a bare 500, and both leave the store as it was. Other rows never change. |
| `TaskStore.Delete` | main.py:94-101 | Succeeds exactly when the id is a 64-bit integer and is stored. On success it replies "Task deleted" and removes exactly that key. A stored-range id that is absent gets 404, an id outside 64 bits gets a bare 500, and both leave the store as it was. Surviving rows keep their fields. |
| `TaskStore.List` | main.py:69-72 | Returns every stored row exactly once, with its fields, in some order. |
| `TaskStore.NextRowId` | main.py:27 | SQLite's choice of a new primary key. It is not in the table, it is at least 1, and it is larger than every stored id. It is either 1 or one more than a stored id. |
| `TaskStore.ListingSize` | main.py:69-72 | A listing has exactly as many entries as the store has rows. |
| `TaskStore.CreateThenList` | test_main.py:30-47 | After a create, every listing contains the new row and has one entry more than before. |
| `TaskStore.DeleteThenList` | test_main.py:70-87 | After a successful delete, no listing mentions the deleted id, and it has one entry fewer. |
| `TaskStore.CreateThenDelete` | main.py:74-101 | Deleting the row just created succeeds and restores the original store. |
| `TaskStore.DeleteTwice` | main.py:94-98 | A second delete of the same id fails and changes nothing. For a 64-bit id the failure is a 404. |
| `TaskStore.UpdateIdempotent` | main.py:82-92 | Repeating an update with the same body gives the same store and reply. |
| `TaskStore.UpdateResetsOmitted` | main.py:83-89 | An update writes all three fields. A body that omits description and completed resets them to `""` and false. |
| `TaskStore.GenerateTask` | main.py:157-176 | A reply that is not JSON gives a 500 whose detail names the content. A JSON value that is not an object gives a bare 500 "Internal Server Error". Neither stores anything. An object stores one new, not completed task under the fresh id. Its title is `"title"` or "Untitled Task", and its description is `"description"` or `""`. |
| `TaskStore.Recommendations` | main.py:106-137 | With no rows it gives the fixed "No tasks available for recommendations." message and does not consult the model. Otherwise it gives the model's answer to the summary of the rows. |
| `TaskStore.RecommendationsOnStore` | main.py:108-111 | The fixed message is returned exactly when the store is empty. |
| `TaskStore.SummaryLineShape` | main.py:113-115 | A summary line starts with `- ` and the title. It ends in `True)` exactly when the task is completed, and in `False)` exactly when it is not. |
| `TaskStore.SummaryLine` | main.py:114 | A summary line opens with `- ` and contains a newline exactly when the title does. |
| `TaskStore.Summary` | main.py:113-115 | The summary is empty exactly when there are no tasks, and it opens with the first task's line. When no title contains a newline, it has one newline fewer than there are tasks. |
| `TaskStore.SummaryRoundTrip` | main.py:113-115 | When titles hold no newline, splitting the summary at newlines gives back one line per task, in order. |
| `Text.Join` | main.py:113 | Python's `"\n".join`. No parts give `""`, and otherwise the text opens with the first part. Separator-free parts give one separator fewer than parts. |
| `Text.Split` | src/components/Recommendations.jsx:12 | JavaScript's `split('\n')`. There is one piece more than there are separators, and no piece contains the separator. |
| `Text.JoinSplit` | src/components/Recommendations.jsx:12 | Joining the split pieces with the separator restores the text. |
| `Text.SplitJoin` | main.py:113-115 | Splitting one or more separator-free parts joined by the separator gives the parts back. |
| `TaskListView.TogglePayload` | src/components/TaskList.jsx:35-41 | The Complete/Undo body is the row with `completed` negated. The id, title and description are unchanged. |
| `TaskListView.ToggleTwice` | src/components/TaskList.jsx:40 | Toggling twice gives the original row back. |
| `TaskListView.ToggleOnServer` | src/components/TaskList.jsx:37-40 | The backend, given the toggle body, flips `completed` of that stored row only. Toggling the updated row again restores the store. |
| `TaskListView.SavePayload` | src/components/TaskList.jsx:54-58 | The Save body takes title and description from the edit fields and `completed` from the row. |
| `TaskListView.PressEdit` | src/components/TaskList.jsx:101-106 | Edit on row `index` puts exactly that row in edit mode. It seeds the edit fields with the row's title and description and leaves the rows alone. |
| `TaskListView.PressCancel` | src/components/TaskList.jsx:86 | Cancel leaves edit mode. The rows and the edit text are unchanged. |
| `TaskListView.TypeTitle` | src/components/TaskList.jsx:77-80 | Typing in the title input changes only the edit title. |
| `TaskListView.TypeDescription` | src/components/TaskList.jsx:81-84 | Typing in the description input changes only the edit description. |
| `TaskListView.PressSave` | src/components/TaskList.jsx:49-66 | The request targets the edited row's id and carries the Save body. If fetch throws, the state is unchanged and edit mode stays on. Otherwise `editIndex` is cleared, and the rows and edit text are kept. |
| `TaskListView.TasksFetched` | src/components/TaskList.jsx:9-17 | A refetch replaces the rows and keeps `editIndex` and the edit text. |
| `TaskListView.ViewRow` | src/components/TaskList.jsx:75-110 | A row shows the edit inputs, holding the edit fields, exactly when its index equals `editIndex`. Otherwise it shows "title - description". It is struck through and labelled "Undo" exactly when the task is completed, and shows "none" and "Complete" exactly when it is not. |
| `TaskListView.Render` | src/components/TaskList.jsx:68-116 | An empty list shows only the placeholder. Otherwise there is one item per row. A row shows the edit inputs exactly when its index equals `editIndex`. Otherwise it is struck through, and labelled "Undo", exactly when it is completed. |
| `TaskListView.InitialRender` | src/components/TaskList.jsx:4-7 | With the initial state (no rows, no `editIndex`, empty edit text) the list shows the placeholder and no row is in edit mode. |
| `TaskListView.AtMostOneEditingRow` | src/components/TaskList.jsx:75 | At most one row is in edit mode, and only when `editIndex` names an existing row. |
| `TaskListView.EditThenSaveUnchanged` | src/components/TaskList.jsx:54-58 | Saving straight after Edit, without typing, sends the row's own fields to its own id. |
| `TaskListView.EditThenCancel` | src/components/TaskList.jsx:86 | Edit followed by Cancel renders the same as the list with no row in edit mode. |
| `RecommendationView.StripBold` | src/components/Recommendations.jsx:13 | Deleting `**` leaves no `**` and never lengthens the line. A line that does not start with `*` keeps its first character. |
| `RecommendationView.StripBoldRemovesStarPairs` | src/components/Recommendations.jsx:13 | Only asterisks are removed, always an even number of them. The other characters survive in order. |
| `RecommendationView.StripBoldSplitsAtNonStar` | src/components/Recommendations.jsx:13 | No match spans a character other than `*`. Removal on `a + [c] + b` is removal on `a`, then `c`, then removal on `b`. |
| `RecommendationView.StripBoldStarRun` | src/components/Recommendations.jsx:13 | A run of `n` asterisks becomes `n % 2` asterisks. With the row above, this fixes the result on every line: each maximal run of `*` shrinks to its length mod 2, and nothing else changes. |
| `RecommendationView.StripBoldFixedPoints` | src/components/Recommendations.jsx:13 | `**` removal leaves a line unchanged exactly when the line contains no `**`. |
| `RecommendationView.ReplaceLeadingDash` | src/components/Recommendations.jsx:13 | Only the first character can change, and it becomes `•` exactly when the line starts with `- `. Otherwise the line is unchanged. |
| `RecommendationView.Clean` | src/components/Recommendations.jsx:13 | A cleaned line contains no `**`. When the line after `**` removal starts with `- `, its first character becomes `•` and the rest is kept. Otherwise the cleaned line is the removal's output. |
| `RecommendationView.CleanIdempotent` | src/components/Recommendations.jsx:13 | Cleaning a cleaned line changes nothing. |
| `RecommendationView.StarRunExamples` | src/components/Recommendations.jsx:13 | Matches do not overlap: `***` becomes `*` and `****` becomes the empty line. |
| `RecommendationView.BoldBeforeDashExample` | src/components/Recommendations.jsx:13 | Removal runs first, so `**- x` becomes `• x`. |
| `RecommendationView.LaterDashExample` | src/components/Recommendations.jsx:13 | Only the leading dash is replaced: `- a - b` becomes `• a - b`. |
| `RecommendationView.Render` | src/components/Recommendations.jsx:10-14 | An empty reply renders nothing. Otherwise there is one paragraph per line, as many as the reply's newlines plus one, and each is the cleaned line. |
| `RecommendationView.RenderParagraphsClean` | src/components/Recommendations.jsx:12-13 | Every paragraph is a single line free of `**`. |
| `RecommendationView.RenderPlainReply` | src/components/Recommendations.jsx:12-13 | A reply with no `**` and no line starting with `- ` is shown verbatim: its paragraphs joined by newlines give the reply back. |

## Left out

- FastAPI routing, the CORS middleware, session injection and SQLAlchemy commits and refreshes (main.py:46-67). The store is only the abstract map.
- Request validation by the framework: a body without a title is rejected with 422 before any handler runs. `TaskRequest` always carries a title.
- The creating handlers take an id the database supplies, so they require it to be a fresh 64-bit row id. The lemmas that start from an existing row assume a store of 64-bit keys (`ValidStore`), the only kind the database can hold.
- TaskStore.NextRowId: SQLite's random fallback once the largest rowid reaches 2^63-1 is not modelled. It also compares the largest id with 0, which differs from SQLite only for tables holding only non-positive ids; this application never creates those.
- The language-model calls, the prompt wording and `json.loads` (main.py:117-137, main.py:146-162). They are foreign and non-deterministic. Their results are inputs: `model` for recommendations, `ParsedReply` for task generation.
- TaskStore.GenerateTask: object fields whose value is not a string (a number, null, a nested object) are not modelled. `ParsedReply.JsonObject` carries string values only.
- The order of GET `/tasks`: nothing fixes it, so `List` returns the rows in an arbitrary order.
- All `fetch` calls, `console.error`, `alert`, `useEffect` timing and JSX markup beyond the row content, strike-through, labels and placeholder.
- TaskListView.PressSave: treats the press and the settled request as one step. Edits typed while the request is in flight are not modelled.
- The consequences of `editIndex` being a position and not an id after a refetch. `TasksFetched` keeps the position as the component does, but nothing further is stated about which task the edit then applies to.
- The Delete button: it only sends the row's id and triggers a refetch, so it has no local logic to model.
- src/App.jsx, src/components/TaskForm.jsx and src/components/GeneratedTasksForm.jsx are not part of this model. They only send requests and refresh.
