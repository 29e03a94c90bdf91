/** The API controller: each action as a function from its request
    parameters and what the service did to the HTTP status and body. */
module Controller {
  import opened Wrappers
  import opened Models
  import opened Service

  const Ok := 200
  const Created := 201
  const BadRequest := 400
  const NotFound := 404
  const InternalServerError := 500

  const CountRangeMessage := "Count must be between 1 and 100"
  const DefaultCount := 5
  const MaxCount := 100

  /** The exception classes the actions tell apart; `ArgumentException`
      includes its subclasses. */
  datatype ExceptionKind = ArgumentException | KeyNotFoundException | OtherException

  /** An exception message: literal text, or "Task with id {id} not found". */
  datatype Message = Text(text: string) | TaskWithIdNotFound(id: TaskId)

  /** What a call into the service did: returned a value or threw. */
  datatype Outcome<+T> = Returned(value: T) | Threw(kind: ExceptionKind, message: Message)

  /** The response bodies: a list, one task, the 201 body with the route
      values of `GetTaskById`, `{ error = ... }`, a bare string, or the
      model-state errors. */
  datatype Body =
    | TaskList(tasks: seq<TaskDto>)
    | OneTask(task: TaskDto)
    | CreatedAtGetTaskById(routeId: TaskId, task: TaskDto)
    | ErrorObject(error: Message)
    | PlainText(text: string)
    | ModelStateErrors

  datatype Response = Response(status: nat, body: Body)

  /** The service's error results as the exceptions it throws. */
  function AsOutcome<T>(r: Result<T, Service.ServiceError>): Outcome<T>
  {
    match r
    case Success(v) => Returned(v)
    case Failure(InvalidArgument(m)) => Threw(ArgumentException, Text(m))
    case Failure(TaskNotFound(id)) => Threw(KeyNotFoundException, TaskWithIdNotFound(id))
  }

  /** `catch (Exception ex)`: 500 with `{ error = ex.Message }`. */
  function ServerError(message: Message): Response
  {
    Response(InternalServerError, ErrorObject(message))
  }

  /** `GetRecentTasks(count)`; `service` is what `GetRecentTasksAsync(count)`
      would do, and is consulted only for a count in range. */
  function GetRecentTasks(count: int, service: Outcome<seq<TaskDto>>): Response
  {
    if count <= 0 || count > MaxCount then Response(BadRequest, PlainText(CountRangeMessage))
    else match service
      case Returned(tasks) => Response(Ok, TaskList(tasks))
      case Threw(_, m) => ServerError(m)
  }

  /** `GetTaskById(id)`; `service` is what `GetTaskByIdAsync(id)` did. */
  function GetTaskById(id: TaskId, service: Outcome<Option<TaskDto>>): Response
  {
    match service
    case Returned(None) => Response(NotFound, ErrorObject(TaskWithIdNotFound(id)))
    case Returned(Some(task)) => Response(Ok, OneTask(task))
    case Threw(_, m) => ServerError(m)
  }

  /** `CreateTask(dto)`; the service is called only when model binding
      succeeded. */
  function CreateTask(modelStateValid: bool, service: Outcome<TaskDto>): Response
  {
    if !modelStateValid then Response(BadRequest, ModelStateErrors)
    else match service
      case Returned(task) => Response(Created, CreatedAtGetTaskById(task.id, task))
      case Threw(ArgumentException, m) => Response(BadRequest, ErrorObject(m))
      case Threw(_, m) => ServerError(m)
  }

  /** The shared shape of `UpdateTask` and `CompleteTask`. */
  function UpdateResponse(service: Outcome<TaskDto>): Response
  {
    match service
    case Returned(task) => Response(Ok, OneTask(task))
    case Threw(KeyNotFoundException, m) => Response(NotFound, ErrorObject(m))
    case Threw(_, m) => ServerError(m)
  }

  /** `UpdateTask(id, dto)`. */
  function UpdateTask(service: Outcome<TaskDto>): Response
  {
    UpdateResponse(service)
  }

  /** `CompleteTask(id)`. */
  function CompleteTask(service: Outcome<TaskDto>): Response
  {
    UpdateResponse(service)
  }

  /** A count outside 1..100 is refused with 400 before the service is
      asked: the response is the same whatever the service would do. A count
      in range is answered with 200 and the service's list unchanged, or
      500 if the service threw. */
  lemma RecentCountGuard(count: int, a: Outcome<seq<TaskDto>>, b: Outcome<seq<TaskDto>>)
    ensures (count < 1 || count > 100) ==>
              GetRecentTasks(count, a) == GetRecentTasks(count, b) == Response(400, PlainText("Count must be between 1 and 100"))
    ensures 1 <= count <= 100 && a.Returned? ==> GetRecentTasks(count, a) == Response(200, TaskList(a.value))
    ensures 1 <= count <= 100 && a.Threw? ==> GetRecentTasks(count, a).status == 500
    ensures GetRecentTasks(DefaultCount, a).status != 400
  {
  }

  /** 404 exactly when the service found nothing; otherwise 200 with that
      transfer object (or 500 if it threw). */
  lemma GetByIdStatus(id: TaskId, o: Outcome<Option<TaskDto>>)
    ensures GetTaskById(id, o).status == 404 <==> o == Returned(None)
    ensures o.Returned? && o.value.Some? ==> GetTaskById(id, o) == Response(200, OneTask(o.value.value))
  {
  }

  /** A created task is answered with 201 and a route to itself; an
      `ArgumentException` (the service's validation errors) with 400 and its
      message, ahead of the general 500. */
  lemma CreateStatus(o: Outcome<TaskDto>, m: Message)
    ensures o.Returned? ==>
              && CreateTask(true, o).status == 201
              && CreateTask(true, o).body.routeId == o.value.id
              && CreateTask(true, o).body.task == o.value
    ensures CreateTask(true, Threw(ArgumentException, m)) == Response(400, ErrorObject(m))
    ensures CreateTask(true, Threw(KeyNotFoundException, m)) == Response(500, ErrorObject(m))
    ensures CreateTask(true, o).status == 400 <==> o.Threw? && o.kind == ArgumentException
  {
  }

  /** Update and complete: 404 exactly for `KeyNotFoundException`, 200 with
      the service's object on success, 500 for anything else. */
  lemma UpdateStatus(o: Outcome<TaskDto>)
    ensures UpdateTask(o).status == 404 <==> o.Threw? && o.kind == KeyNotFoundException
    ensures UpdateTask(o).status == 200 <==> o.Returned?
    ensures o.Returned? ==> UpdateTask(o).body == OneTask(o.value)
    ensures CompleteTask(o) == UpdateTask(o)
    ensures o.Threw? && o.kind != KeyNotFoundException ==> UpdateTask(o) == Response(500, ErrorObject(o.message))
  {
  }

  /** Every action answers any exception it does not single out with 500
      and `{ error = ex.Message }`. */
  lemma OtherExceptionsAre500(count: int, id: TaskId, m: Message)
    requires 1 <= count <= 100
    ensures GetRecentTasks(count, Threw(OtherException, m)) == Response(500, ErrorObject(m))
    ensures GetTaskById(id, Threw(OtherException, m)) == Response(500, ErrorObject(m))
    ensures CreateTask(true, Threw(OtherException, m)) == Response(500, ErrorObject(m))
    ensures UpdateTask(Threw(OtherException, m)) == Response(500, ErrorObject(m))
    ensures CompleteTask(Threw(OtherException, m)) == Response(500, ErrorObject(m))
  {
  }

  /** End to end at the boundary: the service's validation and not-found
      errors become 400 and 404 with the service's message. */
  lemma ServiceErrorsToStatus(r: Result<TaskDto, Service.ServiceError>)
    ensures r.Failure? && r.error.InvalidArgument? ==>
              CreateTask(true, AsOutcome(r)) == Response(400, ErrorObject(Text(r.error.message)))
    ensures r.Failure? && r.error.TaskNotFound? ==>
              UpdateTask(AsOutcome(r)) == Response(404, ErrorObject(TaskWithIdNotFound(r.error.id)))
    ensures r.Success? ==> UpdateTask(AsOutcome(r)) == Response(200, OneTask(r.value))
  {
  }

  /** Each action answers only with its own three statuses. */
  lemma StatusesUsed(count: int, id: TaskId, valid: bool,
                     a: Outcome<seq<TaskDto>>, b: Outcome<Option<TaskDto>>, c: Outcome<TaskDto>)
    ensures GetRecentTasks(count, a).status in {200, 400, 500}
    ensures GetTaskById(id, b).status in {200, 404, 500}
    ensures CreateTask(valid, c).status in {201, 400, 500}
    ensures UpdateTask(c).status in {200, 404, 500}
  {
  }
}
