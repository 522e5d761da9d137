/** The exceptions the task service and its adapters raise, as values. */
module Errors {

  /** What lies underneath a failed user-validation call. */
  datatype Cause =
    | HttpStatusError(status: int)   // RestTemplate raised for a 4xx/5xx reply
    | InvalidStatus(status: int)     // a status code outside 100..999 could not be read
    | IoError(message: string)        // no reply: connection refused, timeout, ...
    | DecodeError(message: string)    // the reply body could not be read

  datatype Error =
    | TaskNotFound(message: string)                  // TaskService.TaskNotFoundException
    | UserNotFound(message: string)                  // TaskService.UserNotFoundException
    | IllegalState(message: string)                  // IllegalStateException from Task.complete
    | UserValidation(message: string, cause: Cause)  // UserValidationClient.UserValidationException
    | Persistence(message: string)                   // a failure inside the store
}
