/**
  The backend's task store (main.py) as a pure state machine.  The SQLite
  table becomes a map from row id to task; each request handler becomes a
  function from the store before the request to the store afterwards and
  the reply.  The database assigns fresh ids, so the creating handlers take
  the id as a parameter that must not be in use yet; `NextRowId` is one
  allocator meeting that demand.
 */
module TaskStore {
  import opened Domain
  import Text

  /** The `tasks` table: row id to the row's fields. */
  type Store = map<int, Task>

  /** SQLite stores integers in 64 bits; a row id, or a path id it can compare, lies in this range. */
  predicate IsRowId(id: int)
  {
    -0x8000_0000_0000_0000 <= id < 0x8000_0000_0000_0000
  }

  /** Every key of a store the database can hold is a 64-bit row id. */
  predicate ValidStore(s: Store)
  {
    forall id :: id in s ==> IsRowId(id)
  }

  /** The body of a POST/PUT: `description` and `completed` may be omitted. */
  datatype TaskRequest = TaskRequest(title: string, description: Option<string>, completed: Option<bool>)

  /** A handler's answer: a value or an HTTP error. */
  datatype Reply<T> = Ok(value: T) | Err(error: HttpError)

  /** A handler's effect: the store after the request together with the reply. */
  datatype Outcome<T> = Outcome(store: Store, reply: Reply<T>)

  const NotFound := HttpError(404, "Task not found")
  const DeletedMessage := "Task deleted"
  const DefaultTitle := "Untitled Task"
  const NotJsonPrefix := "LLM response is not valid JSON: "
  /** The framework's reply to an exception the handler does not catch. */
  const UncaughtError := HttpError(500, "Internal Server Error")
  const NoTasksMessage := "No tasks available for recommendations."

  /** The request schema's defaults: omitted description is empty, omitted completed is false. */
  function FromRequest(req: TaskRequest): (t: Task)
    ensures t.title == req.title
    ensures req.description.Some? ==> t.description == req.description.value
    ensures req.description.None? ==> t.description == ""
    ensures t.completed <==> req.completed == Some(true)
  {
    Task(
      req.title,
      match req.description case Some(d) => d case None => "",
      match req.completed case Some(c) => c case None => false)
  }

  /** POST /tasks: store the request's fields under the fresh id and return the new row. */
  function Create(s: Store, id: int, req: TaskRequest): (r: Outcome<TaskRecord>)
    requires id !in s && IsRowId(id)
    ensures ValidStore(s) ==> ValidStore(r.store)
    ensures r.reply == Ok(TaskRecord(id, FromRequest(req)))
    ensures r.store.Keys == s.Keys + {id}
    ensures r.store[id] == FromRequest(req)
    ensures forall k :: k in s ==> r.store[k] == s[k]
    ensures |r.store| == |s| + 1
  {
    var t := FromRequest(req);
    Outcome(s[id := t], Ok(TaskRecord(id, t)))
  }

  /**
    PUT /tasks/{task_id}: replace all three fields of an existing row, or
    404.  A path id outside 64 bits cannot be bound into the query: the
    driver raises, nothing catches it, and the framework answers 500.
   */
  function Update(s: Store, taskId: int, req: TaskRequest): (r: Outcome<TaskRecord>)
    ensures r.reply.Ok? <==> IsRowId(taskId) && taskId in s
    ensures !IsRowId(taskId) ==> r == Outcome(s, Err(UncaughtError))
    ensures IsRowId(taskId) && taskId !in s ==> r == Outcome(s, Err(NotFound))
    ensures r.reply.Ok? ==> r.reply.value == TaskRecord(taskId, FromRequest(req))
    ensures r.reply.Ok? ==> r.store.Keys == s.Keys && r.store[taskId] == FromRequest(req)
    ensures forall k :: k in s && k != taskId ==> k in r.store && r.store[k] == s[k]
    ensures r.store.Keys == s.Keys
  {
    if !IsRowId(taskId) then Outcome(s, Err(UncaughtError))
    else if taskId !in s then Outcome(s, Err(NotFound))
    else
      var t := FromRequest(req);
      Outcome(s[taskId := t], Ok(TaskRecord(taskId, t)))
  }

  /**
    DELETE /tasks/{task_id}: remove exactly that row and confirm, or 404;
    a path id outside 64 bits is a 500 as for `Update`.
   */
  function Delete(s: Store, taskId: int): (r: Outcome<string>)
    ensures r.reply.Ok? <==> IsRowId(taskId) && taskId in s
    ensures !IsRowId(taskId) ==> r == Outcome(s, Err(UncaughtError))
    ensures IsRowId(taskId) && taskId !in s ==> r == Outcome(s, Err(NotFound))
    ensures r.reply.Ok? ==> r.reply.value == DeletedMessage
    ensures r.reply.Ok? ==> r.store.Keys == s.Keys - {taskId} && |r.store| == |s| - 1
    ensures forall k :: k in r.store ==> k in s && r.store[k] == s[k]
  {
    if !IsRowId(taskId) then Outcome(s, Err(UncaughtError))
    else if taskId !in s then Outcome(s, Err(NotFound))
    else Outcome(s - {taskId}, Ok(DeletedMessage))
  }

  /** `tasks` lists every row of `s` exactly once, in some order. */
  predicate IsListing(s: Store, tasks: seq<TaskRecord>)
  {
    && (forall i :: 0 <= i < |tasks| ==> tasks[i].id in s && s[tasks[i].id] == tasks[i].task)
    && (forall id :: id in s ==> exists i :: 0 <= i < |tasks| && tasks[i].id == id)
    && (forall i, j :: 0 <= i < j < |tasks| ==> tasks[i].id != tasks[j].id)
  }

  /** A non-empty set of ids has a member to pick. */
  lemma HasMember(r: set<int>)
    requires r != {}
    ensures exists x :: x in r
  {
    if forall x :: x !in r {
      assert false;
    }
  }

  /** GET /tasks: every stored row once; the order is whatever the database yields. */
  method List(s: Store) returns (tasks: seq<TaskRecord>)
    ensures IsListing(s, tasks)
  {
    tasks := [];
    var rest := s.Keys;
    while rest != {}
      invariant rest <= s.Keys
      invariant forall i :: 0 <= i < |tasks| ==> tasks[i].id in s && tasks[i].id !in rest && s[tasks[i].id] == tasks[i].task
      invariant forall id :: id in s && id !in rest ==> exists i :: 0 <= i < |tasks| && tasks[i].id == id
      invariant forall i, j :: 0 <= i < j < |tasks| ==> tasks[i].id != tasks[j].id
      decreases rest
    {
      HasMember(rest);
      var id :| id in rest;
      var listed := tasks + [TaskRecord(id, s[id])];
      forall other | other in s && other !in rest - {id}
        ensures exists i :: 0 <= i < |listed| && listed[i].id == other
      {
        if other == id {
          assert listed[|tasks|].id == id;
        } else {
          var i :| 0 <= i < |tasks| && tasks[i].id == other;
          assert listed[i] == tasks[i];
        }
      }
      tasks := listed;
      rest := rest - {id};
    }
  }

  /**
    SQLite's choice of a new rowid: one more than the largest id in the
    table, or 1 for an empty table.  The ids this application creates are
    all positive, so the largest id is compared against 0.
   */
  method NextRowId(s: Store) returns (id: int)
    ensures id !in s
    ensures id >= 1
    ensures forall k :: k in s ==> k < id
    ensures id == 1 || id - 1 in s
  {
    var largest := 0;
    var rest := s.Keys;
    while rest != {}
      invariant rest <= s.Keys
      invariant largest >= 0
      invariant largest == 0 || largest in s
      invariant forall k :: k in s && k !in rest ==> k <= largest
      decreases rest
    {
      HasMember(rest);
      var k :| k in rest;
      if k > largest {
        largest := k;
      }
      rest := rest - {k};
    }
    id := largest + 1;
  }

  /** The outcome of `json.loads` on the model's reply. */
  datatype ParsedReply =
    | NotJson(content: string)                  // JSONDecodeError
    | NotAnObject                               // valid JSON without a `get` (a list, a number, ...)
    | JsonObject(fields: map<string, string>)   // a JSON object with string values

  /** `dict.get(key, default)`. */
  function FieldOr(fields: map<string, string>, key: string, default: string): string
  {
    if key in fields then fields[key] else default
  }

  /**
    POST /generate_task after the model has replied: a reply that is not
    JSON is a 500 naming the content; a JSON value that is not an object
    makes `task_data.get` raise, which the framework turns into a bare 500;
    an object becomes a new, not completed task.
   */
  function GenerateTask(s: Store, id: int, parsed: ParsedReply): (r: Outcome<TaskRecord>)
    requires id !in s && IsRowId(id)
    ensures ValidStore(s) ==> ValidStore(r.store)
    ensures r.reply.Ok? <==> parsed.JsonObject?
    ensures r.reply.Err? ==> r.store == s && r.reply.error.status == 500
    ensures parsed.NotJson? ==> r.reply.error.detail == NotJsonPrefix + parsed.content
    ensures parsed.NotAnObject? ==> r.reply.error == UncaughtError
    ensures r.reply.Ok? ==>
      && r.reply.value.id == id
      && r.store.Keys == s.Keys + {id}
      && r.store[id] == r.reply.value.task
      && !r.reply.value.task.completed
      && (forall k :: k in s ==> r.store[k] == s[k])
    ensures parsed.JsonObject? ==>
      && r.reply.value.task.title == (if "title" in parsed.fields then parsed.fields["title"] else DefaultTitle)
      && r.reply.value.task.description == (if "description" in parsed.fields then parsed.fields["description"] else "")
  {
    match parsed
    case NotJson(content) => Outcome(s, Err(HttpError(500, NotJsonPrefix + content)))
    case NotAnObject => Outcome(s, Err(UncaughtError))
    case JsonObject(fields) =>
      var t := Task(FieldOr(fields, "title", DefaultTitle), FieldOr(fields, "description", ""), false);
      Outcome(s[id := t], Ok(TaskRecord(id, t)))
  }

  /** Python's `str(b)` for a bool. */
  function PyBool(b: bool): string
  {
    if b then "True" else "False"
  }

  /**
    One line of the summary sent to the model: `- <title> (Completed: True|False)`.
    It opens with `- ` and breaks only where the title does.
   */
  function SummaryLine(t: TaskRecord): (line: string)
    ensures |line| >= 2 && line[..2] == "- "
    ensures '\n' in line <==> '\n' in t.task.title
  {
    var suffix := " (Completed: " + PyBool(t.task.completed) + ")";
    assert '\n' !in suffix;
    assert "- " + t.task.title + suffix == "- " + (t.task.title + suffix);
    assert ('\n' in "- " + (t.task.title + suffix)) <==> '\n' in t.task.title + suffix;
    "- " + t.task.title + suffix
  }

  function SummaryLines(tasks: seq<TaskRecord>): seq<string>
  {
    seq(|tasks|, i requires 0 <= i < |tasks| => SummaryLine(tasks[i]))
  }

  /**
    The summary: the lines of the tasks joined by newlines.  It is empty
    exactly when there are no tasks, opens with the first task's line, and,
    when no title breaks, has one newline fewer than tasks.
   */
  function Summary(tasks: seq<TaskRecord>): (r: string)
    ensures r == "" <==> |tasks| == 0
    ensures |tasks| > 0 ==> |SummaryLine(tasks[0])| <= |r| && r[..|SummaryLine(tasks[0])|] == SummaryLine(tasks[0])
    ensures |tasks| > 0 && (forall i :: 0 <= i < |tasks| ==> '\n' !in tasks[i].task.title) ==>
      Text.Count(r, '\n') == |tasks| - 1
  {
    var lines := SummaryLines(tasks);
    assert |tasks| > 0 ==> lines[0] == SummaryLine(tasks[0]);
    assert (forall i :: 0 <= i < |tasks| ==> '\n' !in tasks[i].task.title) ==>
      forall i :: 0 <= i < |lines| ==> '\n' !in lines[i];
    Text.Join(lines, '\n')
  }

  /** The body of GET /recommendations. */
  datatype RecommendationBody = Message(message: string) | Recommendation(recommendation: string)

  /**
    GET /recommendations over the listed rows: with no rows, a fixed
    message and the model is not consulted; otherwise the model's answer to
    the summary of the rows.  The model is the parameter `model`.
   */
  function Recommendations(tasks: seq<TaskRecord>, model: string -> string): (r: RecommendationBody)
    ensures r.Message? <==> |tasks| == 0
    ensures r.Message? ==> r.message == NoTasksMessage
    ensures r.Recommendation? ==> r.recommendation == model(Summary(tasks))
  {
    if |tasks| == 0 then Message(NoTasksMessage)
    else Recommendation(model(Summary(tasks)))
  }

  /** A listing has exactly one entry per stored row. */
  lemma {:induction false} ListingSize(s: Store, tasks: seq<TaskRecord>)
    requires IsListing(s, tasks)
    ensures |tasks| == |s|
  {
    if |tasks| == 0 {
      if s != map[] {
        HasMember(s.Keys);
        assert false;
      }
    } else {
      var n := |tasks| - 1;
      var front := tasks[..n];
      var rest := s - {tasks[n].id};
      forall id | id in rest
        ensures exists i :: 0 <= i < |front| && front[i].id == id
      {
        var i :| 0 <= i < |tasks| && tasks[i].id == id;
        assert i != n;
        assert front[i] == tasks[i];
      }
      assert IsListing(rest, front);
      ListingSize(rest, front);
    }
  }

  /** The recommendations endpoint answers with the fixed message exactly when the store is empty. */
  lemma RecommendationsOnStore(s: Store, tasks: seq<TaskRecord>, model: string -> string)
    requires IsListing(s, tasks)
    ensures Recommendations(tasks, model).Message? <==> s == map[]
  {
    ListingSize(s, tasks);
  }

  /** After a create, every listing holds the new row and one entry more than before. */
  lemma CreateThenList(s: Store, id: int, req: TaskRequest, tasks: seq<TaskRecord>)
    requires id !in s && IsRowId(id)
    requires IsListing(Create(s, id, req).store, tasks)
    ensures exists i :: 0 <= i < |tasks| && tasks[i] == TaskRecord(id, FromRequest(req))
    ensures |tasks| == |s| + 1
  {
    ListingSize(Create(s, id, req).store, tasks);
  }

  /** After a successful delete, no listing mentions the deleted id, and it is one entry shorter. */
  lemma DeleteThenList(s: Store, taskId: int, tasks: seq<TaskRecord>)
    requires ValidStore(s) && taskId in s
    requires IsListing(Delete(s, taskId).store, tasks)
    ensures forall i :: 0 <= i < |tasks| ==> tasks[i].id != taskId
    ensures |tasks| == |s| - 1
  {
    ListingSize(Delete(s, taskId).store, tasks);
  }

  /** Deleting a row just created restores the store and succeeds. */
  lemma CreateThenDelete(s: Store, id: int, req: TaskRequest)
    requires id !in s && IsRowId(id)
    ensures Delete(Create(s, id, req).store, id) == Outcome(s, Ok(DeletedMessage))
  {
  }

  /** A second delete of the same id fails and changes nothing: a 404 for a 64-bit id. */
  lemma DeleteTwice(s: Store, taskId: int)
    ensures var first := Delete(s, taskId).store;
      && Delete(first, taskId).store == first
      && Delete(first, taskId).reply.Err?
      && (IsRowId(taskId) ==> Delete(first, taskId).reply.error == NotFound)
  {
  }

  /** Repeating an update with the same body gives the same store and reply. */
  lemma UpdateIdempotent(s: Store, taskId: int, req: TaskRequest)
    ensures Update(Update(s, taskId, req).store, taskId, req) == Update(s, taskId, req)
  {
  }

  /** An update sends every field, so omitting a field resets it to its default. */
  lemma UpdateResetsOmitted(s: Store, taskId: int, title: string)
    requires ValidStore(s) && taskId in s
    ensures Update(s, taskId, TaskRequest(title, None, None)).store[taskId] == Task(title, "", false)
  {
  }

  /** A summary line opens with the bullet and title and closes with Python's spelling of the flag. */
  lemma SummaryLineShape(t: TaskRecord)
    ensures var line := SummaryLine(t);
      && line[..2 + |t.task.title|] == "- " + t.task.title
      && (t.task.completed <==> line[|line| - 5..] == "True)")
      && (!t.task.completed <==> line[|line| - 6..] == "False)")
  {
    var line := SummaryLine(t);
    var flag := PyBool(t.task.completed);
    assert line == ("- " + t.task.title) + (" (Completed: " + flag + ")");
    if t.task.completed {
      assert line[|line| - 5..] == "True)";
      assert line[|line| - 6..] != "False)" by {
        assert line[|line| - 6..][1] == 'T';
      }
    } else {
      assert line[|line| - 6..] == "False)";
      assert line[|line| - 5..] != "True)" by {
        assert line[|line| - 5..][0] == 'a';
      }
    }
  }

  /**
    The summary of tasks whose titles are single lines splits back into
    exactly one line per task, in order.
   */
  lemma SummaryRoundTrip(tasks: seq<TaskRecord>)
    requires |tasks| > 0
    requires forall i :: 0 <= i < |tasks| ==> '\n' !in tasks[i].task.title
    ensures Text.Split(Summary(tasks), '\n') == SummaryLines(tasks)
    ensures |Text.Split(Summary(tasks), '\n')| == |tasks|
  {
    var lines := SummaryLines(tasks);
    assert forall i :: 0 <= i < |lines| ==> lines[i] == SummaryLine(tasks[i]);
    Text.SplitJoin(lines, '\n');
  }
}
