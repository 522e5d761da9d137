/** The three ports the task service drives, as oracle answers, and the call
    trace that records which port operations the service invoked. */
module Ports {
  import opened Wrappers
  import opened Errors
  import opened Domain

  /** What `UserValidationClient.existsUser` did: returned true, returned
      false, or threw the port's one exception, `UserValidationException`,
      with its message and cause. */
  datatype UserCheck = Exists | Absent | Unavailable(message: string, cause: Cause)

  /** Whether the store completes a call or fails inside it. */
  datatype Health = Up | Down(cause: string)

  /** One invocation of a port operation, with its arguments. */
  datatype Call =
    | ExistsUser(userId: string)
    | Save(task: Task)
    | FindById(id: int)
    | Notify(taskId: int, title: string)

  predicate IsNotify(c: Call) { c.Notify? }

  /** No call in `calls` satisfies `p`. */
  predicate NoneOf(calls: seq<Call>, p: Call -> bool) {
    forall i :: 0 <= i < |calls| ==> !p(calls[i])
  }
}
