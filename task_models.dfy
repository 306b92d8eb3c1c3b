/** The task record and the validation the task schema applies when a task
    is first saved. */
module TaskModels {
  import opened Wrappers
  import opened Tables

  /** A point in time, in milliseconds since 1970-01-01T00:00:00Z; the
      schema stores both dates as dates, so they compare chronologically. */
  type Date = int

  const TaskValidationFailed := "Task validation failed"

  /** A stored task document. */
  datatype TaskDoc = TaskDoc(name: string, description: string, status: string,
                             dateFrom: Date, dateTo: Date, color: int, members: seq<string>)

  /** A task as the repository hands it out. */
  datatype Task = Task(id: Id, name: string, description: string, status: string,
                       dateFrom: Date, dateTo: Date, color: int, members: seq<string>)

  function TaskOf(id: Id, d: TaskDoc): Task
  {
    Task(id, d.name, d.description, d.status, d.dateFrom, d.dateTo, d.color, d.members)
  }

  /** Creating a task document: the name, the description and the status
      are required (non-empty); the dates and the colour are always present
      here, and the members may be empty. */
  function NewTaskDoc(name: string, description: string, status: string,
                      dateFrom: Date, dateTo: Date, color: int, members: seq<string>): (r: Result<TaskDoc>)
    ensures r.Ok? <==> name != "" && description != "" && status != ""
    ensures r.Ok? ==> r.value == TaskDoc(name, description, status, dateFrom, dateTo, color, members)
    ensures r.Err? ==> r.error == TaskValidationFailed
  {
    if name == "" || description == "" || status == "" then Err(TaskValidationFailed)
    else Ok(TaskDoc(name, description, status, dateFrom, dateTo, color, members))
  }
}
