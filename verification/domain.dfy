/**
  Records shared by the backend store and the browser components of the
  task manager: the task fields, a task together with its server-assigned
  id, and the HTTP error a request handler raises.
 */
module Domain {

  /** An optional value: a request field that may be omitted, or a nullable UI state. */
  datatype Option<T> = None | Some(value: T)

  /** The three user-visible fields of a task (the `Task` request schema). */
  datatype Task = Task(title: string, description: string, completed: bool)

  /** A stored task as the API returns it: the fields plus the row id (the `TaskDB` schema). */
  datatype TaskRecord = TaskRecord(id: int, task: Task)

  /** An `HTTPException`: a status code and its detail text. */
  datatype HttpError = HttpError(status: int, detail: string)
}
