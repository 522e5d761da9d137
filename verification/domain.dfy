/** The Task entity and its status state machine. Wall-clock reads are
    explicit `nat` readings supplied by the caller. */
module Domain {
  import opened Wrappers
  import opened Errors

  /** The closed set of task statuses. */
  datatype Status = TODO | IN_PROGRESS | DONE

  /** The enum constant's name, as it appears in JSON and in the status column. */
  function StatusName(s: Status): string {
    match s
    case TODO => "TODO"
    case IN_PROGRESS => "IN_PROGRESS"
    case DONE => "DONE"
  }

  /** `TaskStatus.valueOf`: the constant with exactly that name, if any. */
  function ParseStatus(name: string): Option<Status> {
    if name == "TODO" then Some(TODO)
    else if name == "IN_PROGRESS" then Some(IN_PROGRESS)
    else if name == "DONE" then Some(DONE)
    else None
  }

  lemma StatusNameRoundTrip(s: Status, name: string)
    ensures ParseStatus(StatusName(s)) == Some(s)
    ensures ParseStatus(name) == Some(s) <==> name == StatusName(s)
  {
  }

  /** A task. `id` is None until the store assigns one; `description` is a
      nullable string; timestamps are clock readings. */
  datatype Task = Task(
    id: Option<int>,
    title: string,
    description: Option<string>,
    status: Status,
    createdAt: nat,
    updatedAt: nat)

  const AlreadyCompletedMessage := "Task is already completed"

  /** `Task.create`: a fresh TODO task with no id. Each timestamp is its own
      clock reading (`t1` for createdAt, then `t2` for updatedAt). The title
      is not checked. */
  function Create(title: string, description: Option<string>, t1: nat, t2: nat): (t: Task)
    ensures t.id == None && t.status == TODO
    ensures t.title == title && t.description == description
    ensures t.createdAt == t1 && t.updatedAt == t2
  {
    Task(None, title, description, TODO, t1, t2)
  }

  predicate CanComplete(t: Task) {
    t.status != DONE
  }

  /** Exactly the two open statuses may be completed; DONE is the only one
      that rejects. */
  lemma CanCompleteStatuses(t: Task)
    ensures CanComplete(t) <==> t.status == TODO || t.status == IN_PROGRESS
    ensures !CanComplete(t) <==> t.status == DONE
  {
  }

  /** `Task.complete` at clock reading `now`: TODO/IN_PROGRESS move to DONE
      with a refreshed updatedAt; DONE is rejected with IllegalStateException. */
  function Complete(t: Task, now: nat): (r: Result<Task, Error>)
    ensures r.Success? <==> t.status != DONE
    ensures r.Failure? ==> r.error == IllegalState(AlreadyCompletedMessage)
    ensures r.Success? ==>
      && r.value.status == DONE
      && r.value.updatedAt == now
      && r.value.id == t.id
      && r.value.title == t.title
      && r.value.description == t.description
      && r.value.createdAt == t.createdAt
  {
    if !CanComplete(t) then Failure(IllegalState(AlreadyCompletedMessage))
    else Success(t.(status := DONE, updatedAt := now))
  }

  /** A second completion always fails, whatever the clock says. */
  lemma CompleteTwiceFails(t: Task, now1: nat, now2: nat)
    requires Complete(t, now1).Success?
    ensures Complete(Complete(t, now1).value, now2) == Failure(IllegalState(AlreadyCompletedMessage))
  {
  }

  /** With a clock that has not gone back since the last update, completion
      keeps updatedAt >= createdAt. */
  lemma CompleteKeepsTimeOrder(t: Task, now: nat)
    requires t.createdAt <= t.updatedAt <= now
    requires Complete(t, now).Success?
    ensures Complete(t, now).value.createdAt <= Complete(t, now).value.updatedAt
    ensures Complete(t, now).value.updatedAt >= t.updatedAt
  {
  }

  // Rehydration setters, used only when rebuilding a stored task.

  function SetId(t: Task, id: Option<int>): (r: Task)
    ensures r.id == id && r.(id := t.id) == t
  {
    t.(id := id)
  }

  function SetStatus(t: Task, status: Status): (r: Task)
    ensures r.status == status && r.(status := t.status) == t
  {
    t.(status := status)
  }

  function SetCreatedAt(t: Task, createdAt: nat): (r: Task)
    ensures r.createdAt == createdAt && r.(createdAt := t.createdAt) == t
  {
    t.(createdAt := createdAt)
  }

  function SetUpdatedAt(t: Task, updatedAt: nat): (r: Task)
    ensures r.updatedAt == updatedAt && r.(updatedAt := t.updatedAt) == t
  {
    t.(updatedAt := updatedAt)
  }

  /** Completing with each reading of `clock` in turn, keeping the task when
      a completion is rejected. */
  function CompleteEach(t: Task, clock: seq<nat>): Task
    decreases |clock|
  {
    if |clock| == 0 then t
    else
      var next := match Complete(t, clock[0]) case Success(u) => u case Failure(_) => t;
      CompleteEach(next, clock[1..])
  }

  /** How many completions in such a run were accepted. */
  function Accepted(t: Task, clock: seq<nat>): nat
    decreases |clock|
  {
    if |clock| == 0 then 0
    else
      match Complete(t, clock[0])
      case Success(u) => 1 + Accepted(u, clock[1..])
      case Failure(_) => Accepted(t, clock[1..])
  }

  /** The clock never reads below `start` and never goes back. */
  ghost predicate MonotoneFrom(start: nat, clock: seq<nat>) {
    && (forall i :: 0 <= i < |clock| ==> start <= clock[i])
    && (forall i, j :: 0 <= i < j < |clock| ==> clock[i] <= clock[j])
  }

  /** The lifecycle invariants: from any task the core can hold, repeated
      completion never enters IN_PROGRESS, never leaves DONE once there,
      accepts at most one completion (exactly one iff the task was open),
      keeps id, title, description and createdAt, and keeps updatedAt >=
      createdAt under a monotone clock. */
  lemma {:induction false} CompleteEachLifecycle(t: Task, clock: seq<nat>)
    requires t.createdAt <= t.updatedAt
    requires MonotoneFrom(t.updatedAt, clock)
    ensures var r := CompleteEach(t, clock);
      && r.id == t.id && r.title == t.title && r.description == t.description
      && r.createdAt == t.createdAt
      && r.createdAt <= r.updatedAt
      && (t.status != IN_PROGRESS ==> r.status != IN_PROGRESS)
      && (|clock| > 0 ==> r.status == DONE)
      && (|clock| == 0 ==> r == t)
    ensures Accepted(t, clock) == (if |clock| > 0 && t.status != DONE then 1 else 0)
    decreases |clock|
  {
    if |clock| > 0 {
      var rest := clock[1..];
      match Complete(t, clock[0])
      case Success(u) =>
        assert MonotoneFrom(u.updatedAt, rest) by {
          forall i | 0 <= i < |rest|
            ensures u.updatedAt <= rest[i]
          {
            assert rest[i] == clock[i + 1];
          }
        }
        CompleteEachLifecycle(u, rest);
        DoneStaysDone(u, rest);
      case Failure(_) =>
        assert MonotoneFrom(t.updatedAt, rest) by {
          forall i | 0 <= i < |rest|
            ensures t.updatedAt <= rest[i]
          {
            assert rest[i] == clock[i + 1];
          }
          forall i, j | 0 <= i < j < |rest|
            ensures rest[i] <= rest[j]
          {
            assert rest[i] == clock[i + 1] && rest[j] == clock[j + 1];
          }
        }
        CompleteEachLifecycle(t, rest);
    }
  }

  /** A DONE task is a fixed point of repeated completion. */
  lemma {:induction false} DoneStaysDone(t: Task, clock: seq<nat>)
    requires t.status == DONE
    ensures CompleteEach(t, clock) == t
    ensures Accepted(t, clock) == 0
    decreases |clock|
  {
    if |clock| > 0 {
      DoneStaysDone(t, clock[1..]);
    }
  }

  /** A freshly created task, completed any number of times under a monotone
      clock, is never IN_PROGRESS and keeps createdAt <= updatedAt. */
  lemma NoCoreOperationEntersInProgress(
    title: string, description: Option<string>, t1: nat, t2: nat, clock: seq<nat>)
    requires t1 <= t2
    requires MonotoneFrom(t2, clock)
    ensures var r := CompleteEach(Create(title, description, t1, t2), clock);
      r.status != IN_PROGRESS && r.createdAt <= r.updatedAt
  {
    CompleteEachLifecycle(Create(title, description, t1, t2), clock);
  }
}
