/** `TaskService`: each use case as a pure function of the store, the port
    answers and the clock readings, returning the result, the new store and
    the port calls made, in order. */
module Service {
  import opened Wrappers
  import opened Text
  import opened Errors
  import opened Domain
  import opened Ports
  import opened Persistence

  datatype Outcome = Outcome(result: Result<Task, Error>, store: Store, calls: seq<Call>)

  function UserNotFoundMessage(userId: string): string {
    "User not found: userId=" + userId
  }

  function TaskNotFoundMessage(id: int): string {
    "Task not found: id=" + Decimal(id)
  }

  /** The not-found message names the id it was raised for. */
  lemma TaskNotFoundMessageInjective(a: int, b: int)
    ensures TaskNotFoundMessage(a) == TaskNotFoundMessage(b) ==> a == b
  {
    var p := "Task not found: id=";
    if TaskNotFoundMessage(a) == TaskNotFoundMessage(b) {
      assert Decimal(a) == TaskNotFoundMessage(a)[|p|..];
      assert Decimal(b) == TaskNotFoundMessage(b)[|p|..];
      DecimalInjective(a, b);
    }
  }

  /** `createTask`: ask the user port; on false raise UserNotFound, on an
      exception (always a UserValidationException) propagate it; otherwise
      build a TODO task, save it, notify with the SAVED task's id and title,
      and return the saved task. A failed save rolls the store back and
      nothing is notified. The notification port never fails, and the
      transaction's commit after it is taken to succeed. */
  function CreateTask(
    s: Store, user: UserCheck, save: Health,
    userId: string, title: string, description: Option<string>, t1: nat, t2: nat): (o: Outcome)
    requires Valid(s)
    ensures Valid(o.store)
    ensures user.Absent? ==>
      o == Outcome(Failure(UserNotFound(UserNotFoundMessage(userId))), s, [ExistsUser(userId)])
    ensures user.Unavailable? ==>
      o == Outcome(Failure(UserValidation(user.message, user.cause)), s, [ExistsUser(userId)])
    ensures user.Exists? && save.Down? ==>
      o == Outcome(Failure(Persistence(save.cause)), s,
                   [ExistsUser(userId), Save(Create(title, description, t1, t2))])
    ensures o.result.Success? <==> user.Exists? && save.Up?
    ensures o.result.Success? ==>
      var saved := o.result.value;
      && saved.id == Some(s.nextId) && s.nextId !in s.rows
      && saved.title == title && saved.description == description && saved.status == TODO
      && saved.createdAt == t1 && saved.updatedAt == t2
      && o.calls == [ExistsUser(userId), Save(Create(title, description, t1, t2)),
                     Notify(saved.id.value, saved.title)]
      && o.store.rows == s.rows[s.nextId := Stored(ToEntity(saved))]
    ensures o.result.Failure? ==> o.store == s && NoneOf(o.calls, IsNotify)
  {
    match user
    case Unavailable(m, cause) => Outcome(Failure(UserValidation(m, cause)), s, [ExistsUser(userId)])
    case Absent => Outcome(Failure(UserNotFound(UserNotFoundMessage(userId))), s, [ExistsUser(userId)])
    case Exists =>
      var task := Create(title, description, t1, t2);
      var calls := [ExistsUser(userId), Save(task)];
      match save
      case Down(cause) => Outcome(Failure(Persistence(cause)), s, calls)
      case Up =>
        var (s', saved) := SaveTask(s, task);
        Outcome(Success(saved), s', calls + [Notify(saved.id.value, saved.title)])
  }

  /** `getTask`: the stored task, or TaskNotFound; read-only. */
  function GetTask(s: Store, find: Health, id: int): (o: Outcome)
    requires Valid(s)
    ensures o.store == s && o.calls == [FindById(id)]
    ensures o.result.Success? <==> find.Up? && id in s.rows
    ensures o.result.Success? ==> o.result.value == Load(s.rows[id]) && o.result.value.id == Some(id)
    ensures find.Up? && id !in s.rows ==> o.result == Failure(TaskNotFound(TaskNotFoundMessage(id)))
    ensures find.Down? ==> o.result == Failure(Persistence(find.cause))
  {
    var calls := [FindById(id)];
    match find
    case Down(cause) => Outcome(Failure(Persistence(cause)), s, calls)
    case Up =>
      match FindTask(s, id)
      case None => Outcome(Failure(TaskNotFound(TaskNotFoundMessage(id))), s, calls)
      case Some(t) => Outcome(Success(t), s, calls)
  }

  /** `completeTask`: getTask, then `complete`, then save and return what the
      save returned. A missing id or a DONE task stops before the save. */
  function CompleteTask(s: Store, find: Health, save: Health, id: int, now: nat): (o: Outcome)
    requires Valid(s)
    ensures Valid(o.store)
    ensures 1 <= |o.calls| <= 2 && o.calls[0] == FindById(id)
    ensures find.Up? && id !in s.rows ==>
      o == Outcome(Failure(TaskNotFound(TaskNotFoundMessage(id))), s, [FindById(id)])
    ensures find.Down? ==> o == Outcome(Failure(Persistence(find.cause)), s, [FindById(id)])
    ensures find.Up? && id in s.rows && s.rows[id].status == DONE ==>
      o == Outcome(Failure(IllegalState(AlreadyCompletedMessage)), s, [FindById(id)])
    ensures find.Up? && save.Down? && id in s.rows && s.rows[id].status != DONE ==>
      o == Outcome(Failure(Persistence(save.cause)), s,
                   [FindById(id), Save(Load(s.rows[id]).(status := DONE, updatedAt := now))])
    ensures o.result.Success? <==> find.Up? && save.Up? && id in s.rows && s.rows[id].status != DONE
    ensures o.result.Success? ==>
      var done := o.result.value;
      var before := Load(s.rows[id]);
      && done == before.(status := DONE, updatedAt := now)
      && o.calls == [FindById(id), Save(done)]
      && o.store == Store(s.rows[id := ToEntity(done)], s.nextId)
    ensures o.result.Failure? ==> o.store == s
    ensures |o.calls| == 2 <==> find.Up? && id in s.rows && s.rows[id].status != DONE
  {
    var got := GetTask(s, find, id);
    match got.result
    case Failure(e) => got
    case Success(task) =>
      match Complete(task, now)
      case Failure(e) => Outcome(Failure(e), s, got.calls)
      case Success(done) =>
        var calls := got.calls + [Save(done)];
        match save
        case Down(cause) => Outcome(Failure(Persistence(cause)), s, calls)
        case Up =>
          var (s', saved) := SaveTask(s, done);
          Outcome(Success(saved), s', calls)
  }

  /** getTask on the id createTask returned finds the created task, with
      an empty description read back as null. */
  lemma CreateThenGet(
    s: Store, user: UserCheck, save: Health, find: Health,
    userId: string, title: string, description: Option<string>, t1: nat, t2: nat)
    requires Valid(s)
    requires CreateTask(s, user, save, userId, title, description, t1, t2).result.Success?
    requires find.Up?
    ensures var c := CreateTask(s, user, save, userId, title, description, t1, t2);
      && GetTask(c.store, find, c.result.value.id.value).result
         == Success(c.result.value.(description := ColumnValue(description)))
      && (description != Some("") ==>
            GetTask(c.store, find, c.result.value.id.value).result == c.result)
  {
  }

  /** After a successful completeTask, getTask sees the task DONE with the
      new updatedAt, and a second completeTask fails with the
      already-completed error without saving. */
  lemma CompleteThenGetAndRetry(
    s: Store, find: Health, save: Health, id: int, now: nat,
    find2: Health, save2: Health, now2: nat)
    requires Valid(s)
    requires CompleteTask(s, find, save, id, now).result.Success?
    requires find2.Up?
    ensures var c := CompleteTask(s, find, save, id, now);
      && GetTask(c.store, find2, id).result == c.result
      && c.result.value.status == DONE && c.result.value.updatedAt == now
      && CompleteTask(c.store, find2, save2, id, now2) ==
         Outcome(Failure(IllegalState(AlreadyCompletedMessage)), c.store, [FindById(id)])
  {
  }

  /** One use-case invocation together with the port answers it receives. */
  datatype Op =
    | CreateOp(userId: string, title: string, description: Option<string>,
               user: UserCheck, save: Health, t1: nat, t2: nat)
    | GetOp(id: int, find: Health)
    | CompleteOp(id: int, find: Health, save: Health, now: nat)

  function Step(s: Store, op: Op): (o: Outcome)
    requires Valid(s)
    ensures Valid(o.store)
  {
    match op
    case CreateOp(u, title, d, user, save, t1, t2) => CreateTask(s, user, save, u, title, d, t1, t2)
    case GetOp(id, find) => GetTask(s, find, id)
    case CompleteOp(id, find, save, now) => CompleteTask(s, find, save, id, now)
  }

  /** Rows are never removed and their titles never change. */
  ghost predicate Extends(s: Store, s': Store) {
    forall k :: k in s.rows ==> k in s'.rows && s'.rows[k].title == s.rows[k].title
  }

  /** Every notification names a stored row carrying the notified title, and
      comes straight after the Save that produced it. */
  ghost predicate NotificationsBacked(s: Store, trace: seq<Call>) {
    forall i :: 0 <= i < |trace| && trace[i].Notify? ==>
      && trace[i].taskId in s.rows && s.rows[trace[i].taskId].title == trace[i].title
      && 0 < i && trace[i - 1].Save? && trace[i - 1].task.title == trace[i].title
  }

  lemma StepExtends(s: Store, op: Op)
    requires Valid(s)
    ensures Extends(s, Step(s, op).store)
    ensures NotificationsBacked(Step(s, op).store, Step(s, op).calls)
  {
  }

  lemma ExtendsKeepsBacking(s: Store, s': Store, trace: seq<Call>)
    requires NotificationsBacked(s, trace) && Extends(s, s')
    ensures NotificationsBacked(s', trace)
  {
  }

  lemma AppendBacked(s: Store, trace: seq<Call>, calls: seq<Call>)
    requires NotificationsBacked(s, trace) && NotificationsBacked(s, calls)
    ensures NotificationsBacked(s, trace + calls)
  {
  }

  /** The reference run: the steps folded left to right, each on the store
      the previous one left, concatenating the calls and collecting the
      results. */
  function RunAll(s: Store, ops: seq<Op>): (r: (Store, seq<Call>, seq<Result<Task, Error>>))
    requires Valid(s)
    ensures Valid(r.0) && |r.2| == |ops|
    decreases |ops|
  {
    if |ops| == 0 then (s, [], [])
    else
      var (mid, trace, results) := RunAll(s, ops[..|ops| - 1]);
      var o := Step(mid, ops[|ops| - 1]);
      (o.store, trace + o.calls, results + [o.result])
  }

  /** A sequence of use cases run one after another on one store. The trace
      only grows, by each step's calls; rows are never lost; and every
      notification in it refers to a row that exists at the end with the
      notified title, right after the Save that created it. The result is
      exactly the reference run RunAll. */
  method Run(s: Store, ops: seq<Op>) returns (final: Store, trace: seq<Call>, results: seq<Result<Task, Error>>)
    requires Valid(s)
    ensures Valid(final) && Extends(s, final)
    ensures |results| == |ops|
    ensures forall i :: 0 <= i < |ops| && ops[i].CreateOp? && ops[i].user.Absent? ==> results[i].Failure?
    ensures NotificationsBacked(final, trace)
    ensures final == RunAll(s, ops).0 && trace == RunAll(s, ops).1 && results == RunAll(s, ops).2
  {
    final, trace, results := s, [], [];
    var n := 0;
    while n < |ops|
      invariant 0 <= n <= |ops| && |results| == n
      invariant Valid(final) && Extends(s, final)
      invariant NotificationsBacked(final, trace)
      invariant forall i :: 0 <= i < n && ops[i].CreateOp? && ops[i].user.Absent? ==> results[i].Failure?
      invariant final == RunAll(s, ops[..n]).0 && trace == RunAll(s, ops[..n]).1
      invariant results == RunAll(s, ops[..n]).2
    {
      assert ops[..n + 1][..n] == ops[..n];
      var o := Step(final, ops[n]);
      StepExtends(final, ops[n]);
      ExtendsKeepsBacking(final, o.store, trace);
      AppendBacked(o.store, trace, o.calls);
      final, trace, results := o.store, trace + o.calls, results + [o.result];
      n := n + 1;
    }
    assert ops[..n] == ops;
  }
}
