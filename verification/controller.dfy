/** `TaskController`: the three endpoints as delegations to the service, and
    the exception-handler table that turns errors into status codes. */
module Controller {
  import opened Wrappers
  import opened Errors
  import opened Domain
  import opened Ports
  import opened Persistence
  import opened Service
  import opened Dto
  import UserValidation

  const Ok := 200
  const Created := 201
  const BadRequest := 400
  const NotFound := 404

  datatype Body = TaskJson(task: TaskResponse) | ErrorJson(message: string)

  /** An answer the controller writes; a request body that failed bean
      validation (rejected by the framework before the handler runs); or an
      exception no handler of the controller catches. */
  datatype Reply =
    | Answer(status: int, body: Body)
    | Rejected(violations: set<string>)
    | Escaped(error: Error)

  /** The `@ExceptionHandler` whose declared type the error belongs to. */
  function HandlerStatus(e: Error): Option<int> {
    match e
    case TaskNotFound(_) => Some(NotFound)
    case UserNotFound(_) => Some(BadRequest)
    case IllegalState(_) => Some(BadRequest)
    case UserValidation(_, _) => None
    case Persistence(_) => None
  }

  /** TaskNotFound is the only 404; UserNotFound and the already-completed
      IllegalStateException are the 400s; validation outages and store
      failures are not handled here. */
  lemma StatusTable(e: Error)
    ensures HandlerStatus(e) == Some(NotFound) <==> e.TaskNotFound?
    ensures HandlerStatus(e) == Some(BadRequest) <==> e.UserNotFound? || e.IllegalState?
    ensures HandlerStatus(e).None? <==> e.UserValidation? || e.Persistence?
  {
  }

  /** A handled error answers with its handler's status and the exception
      message verbatim; anything else escapes unchanged. */
  function OnError(e: Error): (r: Reply)
    ensures r.Answer? <==> HandlerStatus(e).Some?
    ensures r.Answer? ==> r.status == HandlerStatus(e).value && r.body == ErrorJson(e.message)
    ensures r.Escaped? ==> r.error == e
    ensures !r.Rejected?
  {
    match HandlerStatus(e)
    case Some(status) => Answer(status, ErrorJson(e.message))
    case None => Escaped(e)
  }

  function Respond(result: Result<Task, Error>, success: int): Reply {
    match result
    case Success(t) => Answer(success, TaskJson(From(t)))
    case Failure(e) => OnError(e)
  }

  datatype Handled = Handled(reply: Reply, store: Store, calls: seq<Call>)

  /** `POST /tasks`: a request failing `@NotBlank` never reaches the service;
      otherwise `createTask(userId, title, description)`, answered 201 with the
      created task. */
  function PostTasks(
    s: Store, req: CreateTaskRequest, user: UserCheck, save: Health, t1: nat, t2: nat): (x: Handled)
    requires Valid(s)
    ensures Valid(x.store)
    ensures !IsValid(req) ==> x == Handled(Rejected(Violations(req)), s, [])
    ensures IsValid(req) && user.Unavailable? ==>
      x == Handled(Escaped(UserValidation(user.message, user.cause)), s, [ExistsUser(req.userId.value)])
    ensures IsValid(req) ==>
      var o := CreateTask(s, user, save, req.userId.value, req.title.value, req.description, t1, t2);
      && x.store == o.store && x.calls == o.calls
      && (o.result.Success? ==> x.reply == Answer(Created, TaskJson(From(o.result.value))))
      && (o.result.Failure? ==> x.reply == OnError(o.result.error))
  {
    if !IsValid(req) then Handled(Rejected(Violations(req)), s, [])
    else
      var o := CreateTask(s, user, save, req.userId.value, req.title.value, req.description, t1, t2);
      Handled(Respond(o.result, Created), o.store, o.calls)
  }

  /** `GET /tasks/{id}`: 200 with the stored task, 404 when there is none;
      a store failure escapes the controller. */
  function GetTaskById(s: Store, find: Health, id: int): (x: Handled)
    requires Valid(s)
    ensures x.store == s && x.calls == [FindById(id)]
    ensures find.Down? ==> x.reply == Escaped(Persistence(find.cause))
    ensures find.Up? && id in s.rows ==> x.reply == Answer(Ok, TaskJson(From(Load(s.rows[id]))))
    ensures find.Up? && id !in s.rows ==>
      x.reply == Answer(NotFound, ErrorJson(TaskNotFoundMessage(id)))
  {
    var o := GetTask(s, find, id);
    Handled(Respond(o.result, Ok), o.store, o.calls)
  }

  /** `POST /tasks/{id}/complete`: `completeTask(id)`, answered 200 with the
      completed task, 404 for a missing id, 400 for a task already DONE; a
      store failure escapes the controller. */
  function CompleteTaskById(s: Store, find: Health, save: Health, id: int, now: nat): (x: Handled)
    requires Valid(s)
    ensures Valid(x.store)
    ensures var o := CompleteTask(s, find, save, id, now);
      && x.store == o.store && x.calls == o.calls
      && (o.result.Success? ==> x.reply == Answer(Ok, TaskJson(From(o.result.value))))
      && (o.result.Failure? ==> x.reply == OnError(o.result.error))
    ensures find.Up? && save.Up? && id in s.rows && s.rows[id].status != DONE ==>
      x.reply == Answer(Ok, TaskJson(From(Load(s.rows[id]).(status := DONE, updatedAt := now))))
    ensures find.Down? ==> x.reply == Escaped(Persistence(find.cause))
    ensures find.Up? && save.Down? && id in s.rows && s.rows[id].status != DONE ==>
      x.reply == Escaped(Persistence(save.cause))
    ensures find.Up? && id !in s.rows ==>
      x == Handled(Answer(NotFound, ErrorJson(TaskNotFoundMessage(id))), s, [FindById(id)])
    ensures find.Up? && id in s.rows && s.rows[id].status == DONE ==>
      x == Handled(Answer(BadRequest, ErrorJson(AlreadyCompletedMessage)), s, [FindById(id)])
    ensures x.reply.Answer? && x.reply.status == Ok ==>
      x.reply.body.TaskJson? && x.reply.body.task.status == DONE && x.reply.body.task.id == Some(id)
  {
    var o := CompleteTask(s, find, save, id, now);
    Handled(Respond(o.result, Ok), o.store, o.calls)
  }

  /** The end-to-end flow against an empty table: create answers 201 with a
      TODO task under id 1 and notifies exactly once; completing it answers
      200 with DONE; completing it again answers 400 "Task is already
      completed" without a second save. */
  lemma CreateCompleteTwice(
    userId: string, title: string, description: Option<string>, t1: nat, t2: nat, now1: nat, now2: nat)
    requires |Trim(userId)| > 0 && |Trim(title)| > 0
    ensures var x1 := PostTasks(Empty, CreateTaskRequest(Some(title), description, Some(userId)), Exists, Up, t1, t2);
      && x1.reply.Answer? && x1.reply.status == Created
      && x1.reply.body.TaskJson? && x1.reply.body.task.id == Some(1) && x1.reply.body.task.status == TODO
      && x1.calls == [ExistsUser(userId), Save(Create(title, description, t1, t2)), Notify(1, title)]
      && var x2 := CompleteTaskById(x1.store, Up, Up, 1, now1);
      && x2.reply.Answer? && x2.reply.status == Ok && x2.reply.body.task.status == DONE
      && var x3 := CompleteTaskById(x2.store, Up, Up, 1, now2);
      && x3.reply == Answer(BadRequest, ErrorJson(AlreadyCompletedMessage))
      && x3.calls == [FindById(1)] && x3.store == x2.store
  {
  }

  /** On any valid table: after a 201 from `POST /tasks`, `GET /tasks/{id}`
      on the returned id answers 200 with the same representation, except
      that an empty description comes back as null. */
  lemma PostThenGet(s: Store, req: CreateTaskRequest, user: UserCheck, save: Health, t1: nat, t2: nat)
    requires Valid(s)
    requires PostTasks(s, req, user, save, t1, t2).reply.Answer?
    requires PostTasks(s, req, user, save, t1, t2).reply.status == Created
    ensures var x := PostTasks(s, req, user, save, t1, t2);
      && x.reply.body.TaskJson? && x.reply.body.task.id.Some?
      && var created := x.reply.body.task;
      && GetTaskById(x.store, Up, created.id.value).reply
         == Answer(Ok, TaskJson(created.(description := ColumnValue(created.description))))
      && (req.description != Some("") ==>
            GetTaskById(x.store, Up, created.id.value).reply == Answer(Ok, x.reply.body))
  {
  }

  /** On any valid table with an open task: the first completion answers 200
      with the task DONE at the new time, the second answers 400 "Task is
      already completed" after one lookup and leaves the table as the first
      left it. */
  lemma CompleteTwice(s: Store, id: int, now1: nat, now2: nat)
    requires Valid(s) && id in s.rows && s.rows[id].status != DONE
    ensures var x1 := CompleteTaskById(s, Up, Up, id, now1);
      && x1.reply == Answer(Ok, TaskJson(From(Load(s.rows[id]).(status := DONE, updatedAt := now1))))
      && CompleteTaskById(x1.store, Up, Up, id, now2)
         == Handled(Answer(BadRequest, ErrorJson(AlreadyCompletedMessage)), x1.store, [FindById(id)])
  {
  }

  /** From what the user service did to what `POST /tasks` answers, for a
      valid request: a validation outage is answered by no handler of the
      controller, and escapes as "Failed to validate user: " + userId with
      the cause the REST client raised, before anything is saved or
      notified; a 404 from the user service answers 400 instead. */
  lemma ValidationOutageEscapes(
    s: Store, req: CreateTaskRequest, raw: UserValidation.RawReply, save: Health, t1: nat, t2: nat)
    requires Valid(s) && IsValid(req)
    ensures var userId := req.userId.value;
      var outcome := UserValidation.Exchange(raw);
      var user := UserValidation.ExistsUser(userId, outcome);
      var x := PostTasks(s, req, user, save, t1, t2);
      && (user.Unavailable? ==>
            && x.reply == Escaped(UserValidation(UserValidation.FailurePrefix + userId, outcome.cause))
            && HandlerStatus(x.reply.error).None?
            && x.store == s && x.calls == [ExistsUser(userId)])
      && (raw.HttpReply? && raw.status == 404 ==>
            x.reply == Answer(BadRequest, ErrorJson(UserNotFoundMessage(userId))))
  {
  }

  /** An unknown user answers 400 "User not found: userId=..." after one
      validation call, with nothing saved or notified. */
  lemma UnknownUserIsBadRequest(
    s: Store, userId: string, title: string, description: Option<string>, save: Health, t1: nat, t2: nat)
    requires Valid(s)
    requires |Trim(userId)| > 0 && |Trim(title)| > 0
    ensures var x := PostTasks(s, CreateTaskRequest(Some(title), description, Some(userId)), Absent, save, t1, t2);
      && x.reply == Answer(BadRequest, ErrorJson(UserNotFoundMessage(userId)))
      && x.calls == [ExistsUser(userId)] && x.store == s
  {
  }
}
