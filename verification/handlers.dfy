/**
 The five request handlers of the task service, each a pure transition from a table and
 a request to the next table and the HTTP response.

 What the handlers take from libraries is a parameter here: whether gin's
 `ShouldBindJSON` could bind the body (`Binding`), and which store statements fail on
 this request (`Faults`). A path id that is not an integer is `None`; it matches no row.
 */
module Handlers {
  import opened Wrappers
  import opened FullDate
  import opened TaskStore

  const StatusOK: int := 200
  const StatusCreated: int := 201
  const StatusBadRequest: int := 400
  const StatusNotFound: int := 404
  const StatusInternalServerError: int := 500

  /** The outcome of binding a JSON body to a `Task`. */
  datatype Binding = Bound(payload: Task) | Malformed

  /**
   Which store statements fail during this request: a `SELECT` (`query`), the one
   write (`exec`), the `SELECT` after an update (`reread`), or decoding a listed row
   (`scan`). `stepFailsAfter` is `Some(k)` when advancing the listing's cursor fails
   after k rows: the handler never asks the cursor for its error, so the listing just
   stops there.
   */
  datatype Faults = Faults(query: bool, exec: bool, reread: bool, scan: bool, stepFailsAfter: Option<nat>)

  const NoFaults: Faults := Faults(false, false, false, false, None)

  datatype Body =
    | TaskJson(task: Task)
    | TaskListJson(tasks: seq<Task>)
    | MessageJson(message: string)
    | ErrorJson(error: string)

  datatype Response = Response(status: int, body: Body)

  datatype Transition = Transition(store: Store, response: Response)

  function Failure(status: int, error: string): Response {
    Response(status, ErrorJson(error))
  }

  const InvalidPayload: Response := Failure(StatusBadRequest, "Invalid request payload")
  const InvalidDueDate: Response := Failure(StatusBadRequest, "Invalid due_date format")
  const TaskNotFound: Response := Failure(StatusNotFound, "Task not found")
  const CreateFailed: Response := Failure(StatusInternalServerError, "Failed to create task")
  const UpdateFailed: Response := Failure(StatusInternalServerError, "Failed to update task")
  const RereadFailed: Response := Failure(StatusInternalServerError, "Failed to retrieve updated task details")
  const DeleteFailed: Response := Failure(StatusInternalServerError, "Failed to delete task")
  const QueryFailed: Response := Failure(StatusInternalServerError, "Failed to retrieve tasks")
  const ScanFailed: Response := Failure(StatusInternalServerError, "Failed to scan tasks")
  const Deleted: Response := Response(StatusOK, MessageJson("Task deleted successfully"))
  const NoTasks: Response := Response(StatusOK, MessageJson("No tasks found"))

  /** The path id names a stored row. */
  predicate Present(st: Store, key: Option<int>) {
    key.Some? && key.value in st.rows
  }

  /** `SELECT ... WHERE id = ?` and its `Scan`: the row, or an error when none matches or the query fails. */
  function SelectTask(st: Store, key: Option<int>, fails: bool): (r: Option<Task>)
    ensures r.Some? <==> !fails && key.Some? && key.value in st.rows
    ensures r.Some? ==> r.value.id == key.value && RowOf(r.value) == st.rows[key.value]
  {
    if !fails && Present(st, key) then Some(AsTask(key.value, st.rows[key.value])) else None
  }

  /**
   POST /MANAGEMENT. A body that does not bind, or a due date the date parser refuses,
   is a 400 and writes nothing. Otherwise the row is inserted under the next
   AUTOINCREMENT id, whatever id the client sent, and echoed back with that id.
   */
  function CreateTask(st: Store, body: Binding, faults: Faults): (t: Transition)
    ensures body.Malformed? ==> t == Transition(st, InvalidPayload)
    ensures body.Bound? && !ValidFullDate(body.payload.dueDate) ==> t == Transition(st, InvalidDueDate)
    ensures t.response.status == StatusCreated <==>
              body.Bound? && ValidFullDate(body.payload.dueDate) && !faults.exec && st.nextId <= MaxRowId
    ensures body.Bound? && ValidFullDate(body.payload.dueDate) && (faults.exec || st.nextId > MaxRowId) ==>
              t == Transition(st, CreateFailed)
    ensures t.response.status != StatusCreated ==> t.store == st
    ensures t.response.status == StatusCreated ==>
              && t.response.body == TaskJson(body.payload.(id := st.nextId))
              && t.store == Store(st.rows[st.nextId := RowOf(body.payload)], st.nextId + 1)
    ensures t.response.status == StatusCreated && Valid(st) ==>
              && (forall id :: id in st.rows ==> id < st.nextId)
              && |t.store.rows| == |st.rows| + 1
    ensures Valid(st) ==> Valid(t.store)
  {
    match body
    case Malformed => Transition(st, InvalidPayload)
    case Bound(payload) =>
      match ParseFullDate(payload.dueDate)
      case None => Transition(st, InvalidDueDate)
      case Some(due) =>
        var task := payload.(dueDate := FormatFullDate(due));
        if faults.exec || st.nextId > MaxRowId then
          Transition(st, CreateFailed)
        else
          var id := st.nextId;
          Transition(Store(st.rows[id := RowOf(task)], id + 1), Response(StatusCreated, TaskJson(task.(id := id))))
  }

  /** GET /MANAGEMENT/:id. The stored row under that id, or 404; never a write. */
  function RetrieveTask(st: Store, key: Option<int>, faults: Faults): (t: Transition)
    ensures t.store == st
    ensures t.response.status == StatusOK <==> !faults.query && Present(st, key)
    ensures t.response.status == StatusOK ==> t.response.body == TaskJson(AsTask(key.value, st.rows[key.value]))
    ensures t.response.status != StatusOK ==> t.response == TaskNotFound
  {
    match SelectTask(st, key, faults.query)
    case None => Transition(st, TaskNotFound)
    case Some(task) => Transition(st, Response(StatusOK, TaskJson(task)))
  }

  /**
   PUT /MANAGEMENT/:id. The body must bind (400) and the row must exist (404) before
   anything is written. Then every column but the id is overwritten with the payload,
   the due date unchecked, and the row is read back for the response.
   */
  function UpdateTask(st: Store, key: Option<int>, body: Binding, faults: Faults): (t: Transition)
    ensures body.Malformed? ==> t == Transition(st, InvalidPayload)
    ensures body.Bound? && (faults.query || !Present(st, key)) ==> t == Transition(st, TaskNotFound)
    ensures body.Bound? && !faults.query && Present(st, key) && faults.exec ==> t == Transition(st, UpdateFailed)
    ensures t.response.status == StatusOK <==>
              body.Bound? && !faults.query && Present(st, key) && !faults.exec && !faults.reread
    ensures t.store != st ==> body.Bound? && !faults.query && Present(st, key) && !faults.exec
    ensures t.store.nextId == st.nextId && t.store.rows.Keys == st.rows.Keys
    ensures body.Bound? && !faults.query && Present(st, key) && !faults.exec ==>
              && t.store.rows[key.value] == RowOf(body.payload)
              && (forall id :: id in st.rows && id != key.value ==> t.store.rows[id] == st.rows[id])
              && (faults.reread ==> t.response == RereadFailed)
    ensures t.response.status == StatusOK ==>
              && t.response.body == TaskJson(AsTask(key.value, t.store.rows[key.value]))
              && t.response.body == TaskJson(body.payload.(id := key.value))
    ensures Valid(st) ==> Valid(t.store)
  {
    match body
    case Malformed => Transition(st, InvalidPayload)
    case Bound(payload) =>
      match SelectTask(st, key, faults.query)
      case None => Transition(st, TaskNotFound)
      case Some(_) =>
        if faults.exec then
          Transition(st, UpdateFailed)
        else
          var written := st.(rows := st.rows[key.value := RowOf(payload)]);
          match SelectTask(written, key, faults.reread)
          case None => Transition(written, RereadFailed)
          case Some(task) => Transition(written, Response(StatusOK, TaskJson(task)))
  }

  /**
   DELETE /MANAGEMENT/:id. Removes the row under that id; a delete that affects no row is
   a 404. The AUTOINCREMENT counter is not moved back.
   */
  function DeleteTask(st: Store, key: Option<int>, faults: Faults): (t: Transition)
    ensures faults.exec ==> t == Transition(st, DeleteFailed)
    ensures !faults.exec && !Present(st, key) ==> t == Transition(st, TaskNotFound)
    ensures t.response.status == StatusOK <==> !faults.exec && Present(st, key)
    ensures t.store.nextId == st.nextId
    ensures t.response.status == StatusOK ==>
              && t.response == Deleted
              && t.store.rows.Keys == st.rows.Keys - {key.value}
              && (forall id :: id in t.store.rows ==> t.store.rows[id] == st.rows[id])
              && |t.store.rows| == |st.rows| - 1
    ensures Valid(st) ==> Valid(t.store)
  {
    if faults.exec then
      Transition(st, DeleteFailed)
    else
      var remaining := if key.Some? then st.rows - {key.value} else st.rows;
      var rowsAffected := |st.rows| - |remaining|;
      if rowsAffected == 0 then
        Transition(st, TaskNotFound)
      else
        Transition(st.(rows := remaining), Deleted)
  }

  /**
   GET /MANAGEMENT. Every row the cursor yields, in id order; when it yields none the
   answer is a "No tasks found" message rather than an empty list. A cursor that stops
   early is not an error: the rows read so far are the answer.
   */
  function ListAllTasks(st: Store, faults: Faults): (t: Transition)
    ensures t.store == st
    ensures faults.query ==> t.response == QueryFailed
    ensures !faults.query && Valid(st) && st.rows == map[] ==> t.response == NoTasks
    ensures !faults.query && Valid(st) && st.rows != map[] && (faults.stepFailsAfter.None? || faults.stepFailsAfter.value >= |st.rows|) && faults.scan ==>
              t.response == ScanFailed
    ensures !faults.query && Valid(st) && st.rows != map[] && (faults.stepFailsAfter.None? || faults.stepFailsAfter.value >= |st.rows|) && !faults.scan ==>
              && t.response.status == StatusOK
              && t.response.body.TaskListJson?
              && ListsExactly(t.response.body.tasks, st.rows)
    ensures !faults.query && faults.stepFailsAfter == Some(0) ==> t.response == NoTasks
    ensures !faults.query && Valid(st) && faults.stepFailsAfter.Some? && 0 < faults.stepFailsAfter.value < |st.rows| ==>
              if faults.scan then t.response == ScanFailed
              else
                && t.response.status == StatusOK
                && t.response.body == TaskListJson(AllTasks(st)[..faults.stepFailsAfter.value])
                && |t.response.body.tasks| == faults.stepFailsAfter.value
                && (forall task :: task in t.response.body.tasks ==>
                      task.id in st.rows && AsTask(task.id, st.rows[task.id]) == task)
  {
    if faults.query then
      Transition(st, QueryFailed)
    else
      var all := AllTasks(st);
      var stepped := match faults.stepFailsAfter
        case None => |all|
        case Some(k) => if k < |all| then k else |all|;
      var tasks := all[..stepped];
      if |tasks| > 0 && faults.scan then
        Transition(st, ScanFailed)
      else if |tasks| > 0 then
        Transition(st, Response(StatusOK, TaskListJson(tasks)))
      else
        Transition(st, NoTasks)
  }

  /** The service's task routes. */
  datatype Request =
    | Create(body: Binding)
    | Retrieve(key: Option<int>)
    | Update(key: Option<int>, body: Binding)
    | Delete(key: Option<int>)
    | ListAll

  /**
   One request against the table. Every route keeps the table invariant, never moves the
   counter back, and any row it adds sits at an id never issued before.
   */
  function Handle(st: Store, req: Request, faults: Faults): (t: Transition)
    ensures Valid(st) ==> Valid(t.store)
    ensures t.store.nextId >= st.nextId
    ensures forall id :: id in t.store.rows && id !in st.rows ==> id >= st.nextId
  {
    match req
    case Create(body) => CreateTask(st, body, faults)
    case Retrieve(key) => RetrieveTask(st, key, faults)
    case Update(key, body) => UpdateTask(st, key, body, faults)
    case Delete(key) => DeleteTask(st, key, faults)
    case ListAll => ListAllTasks(st, faults)
  }
}
