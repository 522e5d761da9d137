# Task service core, modelled in Dafny

A model of the core of a small layered task-management web service (Java, Spring). The model covers:

- the `Task` entity and its status state machine (`TODO`, `IN_PROGRESS`, `DONE`);
- the `TaskService` use cases `createTask`, `getTask` and `completeTask`, which drive three ports: the task repository, the user-validation client and the notification client;
- the adapters around that core: domain/entity conversion and `save`/`findById` in `TaskRepositoryAdapter`, and the HTTP outcome classification in `UserValidationClientAdapter.existsUser`;
- the REST layer: `TaskResponse.from`, the `@NotBlank` constraints of `CreateTaskRequest`, and the endpoints and exception-handler table of `TaskController`.

Everything is a pure function over immutable datatypes. The JPA table is a `map<int, Entity>` plus the next identity value. Each port answer is an input: the user check returns exists or absent, or throws the port's `UserValidationException` with a message and a cause, and each store call is up or fails with a cause. Every `LocalDateTime.now()` is an explicit `nat` clock reading. Each use case returns its result (a task or an error), the new store, and the port calls it made, in order. The notification port is the `Notify` entry in that call trace, and it cannot fail.

Modules, one per component: `Wrappers` (Option/Result), `Text` (`Long.toString` and a reference parser), `Errors`, `Domain`, `Ports`, `Persistence`, `UserValidation`, `Service`, `Dto`, `Controller`.

Points where the model follows what the code does rather than what a reader might expect:

- `Task.create` does not check the title. There is no non-empty precondition.
- `Task.create` reads the clock twice. The model proves only `createdAt <= updatedAt` for two monotone readings, not equality.
- `existsUser` returns `false`, not an error, for every response the REST client returns normally other than 200 with a body. That covers a 204, a 304 or a redirect the client does not follow, and a 200 without a body. Only 4xx/5xx other than 404, a status outside 100-999 (which the client cannot read), transport failures and unreadable bodies become `UserValidationException`. This follows the REST client's default error handling.
- `TaskService` is `@Transactional` as a whole, so the commit of `createTask` happens after the notification has been sent. A commit that fails would leave a notification for a row that was rolled back. The model takes the commit to succeed; see "## Left out".
- The model never claims `updatedAt` strictly increases. An abstract clock may return the same reading twice.
- The database is Oracle, which keeps a zero-length string as NULL. A task created with description `""` is returned by `createTask` with `""`, because the repository hands back the in-memory entity. Every later read returns a null description. The round-trip lemmas state this, and `Persistence.EmptyDescriptionReadsBackNull` exhibits it.

## Model

| member | source | states |
|---|---|---|
| `Domain.StatusNameRoundTrip` | src/main/java/com/example/apipractice/core/domain/TaskStatus.java:7-11 | The three constants have distinct names: parsing a name gives back its constant, and only the three names parse. |
| `Domain.Create` | src/main/java/com/example/apipractice/core/domain/Task.java:20-28 | A created task has no id, status TODO, and the given title and description verbatim. createdAt is the first clock reading and updatedAt the second. With a monotone clock, createdAt <= updatedAt. |
| `Domain.CanCompleteStatuses` | src/main/java/com/example/apipractice/core/domain/Task.java:40-42 | A task can be completed iff its status is TODO or IN_PROGRESS. DONE is the only status that rejects. |
| `Domain.Complete` | src/main/java/com/example/apipractice/core/domain/Task.java:31-37 | Completion succeeds iff the status is not DONE. On success the task is DONE, updatedAt is the current reading, and id, title, description and createdAt are unchanged. On DONE it fails with IllegalState "Task is already completed". |
| `Domain.CompleteTwiceFails` | src/main/java/com/example/apipractice/core/domain/Task.java:31-34 | Completing an already completed task fails with the already-completed error, at any clock reading. |
| `Domain.CompleteKeepsTimeOrder` | src/main/java/com/example/apipractice/core/domain/Task.java:36 | If createdAt <= updatedAt <= now holds before completion, the completed task still has createdAt <= updatedAt, and updatedAt has not decreased. |
| `Domain.SetId` | src/main/java/com/example/apipractice/core/domain/Task.java:70-72 | Sets the id; every other field is unchanged. |
| `Domain.SetStatus` | src/main/java/com/example/apipractice/core/domain/Task.java:74-76 | Sets the status; every other field is unchanged. |
| `Domain.SetCreatedAt` | src/main/java/com/example/apipractice/core/domain/Task.java:78-80 | Sets createdAt; every other field is unchanged. |
| `Domain.SetUpdatedAt` | src/main/java/com/example/apipractice/core/domain/Task.java:82-84 | Sets updatedAt; every other field is unchanged. |
| `Domain.CompleteEachLifecycle` | src/main/java/com/example/apipractice/core/domain/Task.java:31-42 | Over any run of completions with a monotone clock: a task not IN_PROGRESS never becomes IN_PROGRESS; a non-empty run ends DONE; exactly one completion is accepted if the task was open, none if it was DONE; id, title, description and createdAt are kept; createdAt <= updatedAt holds throughout. |
| `Domain.DoneStaysDone` | src/main/java/com/example/apipractice/core/domain/Task.java:31-34 | A DONE task is never left: every completion is rejected and the task is unchanged. |
| `Domain.NoCoreOperationEntersInProgress` | src/main/java/com/example/apipractice/core/domain/Task.java:20-37 | A freshly created task, completed any number of times under a monotone clock, is never IN_PROGRESS and keeps createdAt <= updatedAt. |
| `Persistence.ToEntity` | src/main/java/com/example/apipractice/infrastructure/persistence/TaskRepositoryAdapter.java:39-51 | The entity carries the task's title, description, status and both timestamps. Its id is set iff the task has one, and then it is the task's id. |
| `Persistence.ToDomain` | src/main/java/com/example/apipractice/infrastructure/persistence/TaskRepositoryAdapter.java:54-61 | The rebuilt task has the entity's id, status and timestamps, overriding the factory's TODO and clock defaults, and the entity's title and description. |
| `Persistence.ToDomainIgnoresClock` | src/main/java/com/example/apipractice/infrastructure/persistence/TaskRepositoryAdapter.java:55-59 | The clock readings taken by the factory inside toDomain never affect the rebuilt task. |
| `Persistence.RoundTrip` | src/main/java/com/example/apipractice/infrastructure/persistence/TaskRepositoryAdapter.java:39-61 | toDomain(toEntity(t)) == t on all six fields, with or without an id. Likewise toEntity(toDomain(e)) == e. |
| `Persistence.SaveTask` | src/main/java/com/example/apipractice/infrastructure/persistence/TaskRepositoryAdapter.java:26-30 | A task without an id is inserted under the next identity value, which no existing row has, and is returned with that id. A task with an id overwrites that row only and is returned unchanged. The row written is the task's entity, with an empty description stored as NULL. The store stays well formed. |
| `Persistence.ColumnValue` | src/test/java/com/example/apipractice/integration/config/TestcontainersConfig.java:27 | What the Oracle column keeps: never an empty string, and any other description unchanged. |
| `Persistence.FindTask` | src/main/java/com/example/apipractice/infrastructure/persistence/TaskRepositoryAdapter.java:33-36 | Empty iff there is no row with that id; otherwise the rebuilt row, whose id is the one asked for. |
| `Persistence.SaveThenFind` | src/main/java/com/example/apipractice/infrastructure/persistence/TaskRepositoryAdapter.java:26-36 | The saved task keeps every field it was given. findById on its id returns it, except that an empty description reads back as null; for any other description it returns the saved task, field for field as the model keeps them (timestamps included, see "## Left out"). Every other id reads as before. |
| `Persistence.EmptyDescriptionReadsBackNull` | src/main/java/com/example/apipractice/infrastructure/persistence/TaskRepositoryAdapter.java:26-36 | A task saved with description "" is returned by save with "", and findById then returns it with a null description. |
| `Persistence.FreshIdsDistinct` | src/test/java/com/example/apipractice/integration/api/TaskApiIntegrationTest.java:308-311 | Each new task gets an id no existing row has, and two consecutive creations get different ids. |
| `Persistence.SaveIdempotent` | src/main/java/com/example/apipractice/infrastructure/persistence/TaskRepositoryAdapter.java:26-30 | Saving the same task with an id twice gives the same store and the same result as saving it once. |
| `UserValidation.RequestUrlDeterminesUser` | src/main/java/com/example/apipractice/infrastructure/client/UserValidationClientAdapter.java:40 | The URL is the base, a slash, then the user id. For a fixed base, distinct user ids give distinct URLs. |
| `UserValidation.Exchange` | src/main/java/com/example/apipractice/infrastructure/client/UserValidationClientAdapter.java:41-48 | Under the REST client's default error handling, a status outside 100-999 raises as unreadable, 404 raises NotFound, and any other 4xx/5xx raises with that status. Every other final status is returned with its status and body presence. No reply raises an I/O error; an unreadable body raises a decoding error. |
| `UserValidation.ExistsUser` | src/main/java/com/example/apipractice/infrastructure/client/UserValidationClientAdapter.java:38-57 | Exists iff the call returned 200 with a body. Absent iff it returned anything else or raised NotFound. Unavailable iff it raised anything else; the port then throws UserValidationException with message "Failed to validate user: " + userId and the original cause. |
| `UserValidation.DecisionTable` | src/main/java/com/example/apipractice/infrastructure/client/UserValidationClientAdapter.java:38-57 | Over what the remote side did, each reply gets exactly one answer. Exists: 200 with a body. Absent: 404, or any readable status (100-999) outside 400-599 other than 200 with a body. Unavailable: every other 4xx/5xx, any status outside 100-999, no reply, and an unreadable body. |
| `Text.DecimalRoundTrip` | src/main/java/com/example/apipractice/usecase/service/TaskService.java:64 | Parsing the decimal rendering of an id gives back that id. |
| `Service.TaskNotFoundMessageInjective` | src/main/java/com/example/apipractice/usecase/service/TaskService.java:64 | "Task not found: id=" + id names the id: different ids give different messages. |
| `Service.CreateTask` | src/main/java/com/example/apipractice/usecase/service/TaskService.java:40-56 | Absent user: fails with UserNotFound "User not found: userId=" + userId, the trace is only ExistsUser, and the store is unchanged. Unavailable: the port's UserValidationException propagates with its message and cause, with no Save or Notify. Failed save: the store error propagates and no Notify follows. Otherwise the trace is exactly ExistsUser(u), Save(fresh TODO task), Notify(saved id, saved title), the saved task is returned under a fresh id, and the table gains exactly that row. |
| `Service.GetTask` | src/main/java/com/example/apipractice/usecase/service/TaskService.java:61-65 | Returns the stored task when present. Otherwise fails with TaskNotFound "Task not found: id=" + id. The store is unchanged and the only call is FindById. |
| `Service.CompleteTask` | src/main/java/com/example/apipractice/usecase/service/TaskService.java:71-78 | A failed lookup propagates its error, a missing id fails with TaskNotFound, and a DONE task fails with the already-completed error. In these cases the only call is FindById and the store is unchanged. An open task is saved exactly once, as the stored task with status DONE and the new updatedAt. A failed save propagates its error and leaves the store unchanged; otherwise the save result is returned and only that row changes. |
| `Service.CreateThenGet` | src/main/java/com/example/apipractice/usecase/service/TaskService.java:40-65 | getTask on the id a successful createTask returned gives the created task, with an empty description read back as null. For any other description it gives the created task, field for field as the model keeps them. |
| `Service.CompleteThenGetAndRetry` | src/main/java/com/example/apipractice/usecase/service/TaskService.java:71-78 | After a successful completeTask, getTask returns the DONE task. A second completeTask fails with the already-completed error, makes only the FindById call, and leaves the store unchanged. |
| `Service.RunAll` | src/main/java/com/example/apipractice/usecase/service/TaskService.java:40-78 | Running a sequence of use cases, each on the store the previous one left, keeps the store well formed and gives one result per use case. |
| `Service.Run` | src/main/java/com/example/apipractice/usecase/service/TaskService.java:40-78 | The loop's final store, trace and results are exactly RunAll's. Over any sequence of use cases on one store: rows are never lost and titles never change; every creation for an absent user fails; every Notify in the trace follows the Save that produced it and names a stored row with the notified title, given that each commit succeeds. |
| `Dto.From` | src/main/java/com/example/apipractice/interfaces/rest/dto/TaskResponse.java:24-33 | The response copies id, title, description, status, createdAt and updatedAt unchanged. |
| `Dto.FromInjective` | src/main/java/com/example/apipractice/interfaces/rest/dto/TaskResponse.java:24-33 | Distinct tasks give distinct responses: the representation loses nothing. |
| `Dto.FromCompleted` | src/main/java/com/example/apipractice/interfaces/rest/dto/TaskResponse.java:29 | The response for a completed task reports DONE and the task's id. |
| `Dto.NotBlankIff` | src/main/java/com/example/apipractice/interfaces/rest/dto/CreateTaskRequest.java:13-19 | A value passes @NotBlank (trim leaves something) iff it is non-null and holds a character above U+0020. |
| `Dto.Violations` | src/main/java/com/example/apipractice/interfaces/rest/dto/CreateTaskRequest.java:13-19 | "Title is required" is reported iff the title is blank or null. "User ID is required" is reported iff the userId is blank or null. Nothing else is reported. |
| `Dto.IsValidIff` | src/main/java/com/example/apipractice/interfaces/rest/dto/CreateTaskRequest.java:13-19 | A request is valid iff title and userId are both non-null and non-blank. The description, null or empty included, never affects validity. |
| `Controller.StatusTable` | src/main/java/com/example/apipractice/interfaces/rest/TaskController.java:63-79 | TaskNotFound maps to 404. UserNotFound and the already-completed IllegalStateException map to 400. Validation outages and store failures have no handler, with store failures taken to carry no handled cause (see "## Left out"). |
| `Controller.OnError` | src/main/java/com/example/apipractice/interfaces/rest/TaskController.java:63-92 | A handled error answers with its handler's status and a body whose message is the exception message verbatim. An unhandled one escapes unchanged. |
| `Controller.PostTasks` | src/main/java/com/example/apipractice/interfaces/rest/TaskController.java:31-40 | An invalid request is rejected with its violations, before any port call. A valid one calls createTask(userId, title, description) in that order and answers 201 with TaskResponse.from of the result, or the handler's reply for the error. A validation outage escapes as that UserValidationException, after only the validation call and with the store unchanged. |
| `Controller.GetTaskById` | src/main/java/com/example/apipractice/interfaces/rest/TaskController.java:45-49 | Answers 200 with TaskResponse.from of the stored task, or 404 with the not-found message. A failed lookup escapes with its error. It has no other effect. |
| `Controller.CompleteTaskById` | src/main/java/com/example/apipractice/interfaces/rest/TaskController.java:54-58 | Calls completeTask(id) with the same store effect and calls. It answers 200 with TaskResponse.from of the result, or the handler's reply for the error. So an open task answers 200 with the stored task DONE at the new time, a missing id answers 404, a DONE task answers 400 "Task is already completed" with no save, and a store failure escapes. |
| `Controller.PostThenGet` | src/main/java/com/example/apipractice/interfaces/rest/TaskController.java:31-49 | On any valid table, after a 201 from POST /tasks, GET /tasks/{id} on the returned id answers 200 with the same representation, except that an empty description comes back as null. |
| `Controller.CompleteTwice` | src/main/java/com/example/apipractice/interfaces/rest/TaskController.java:54-79 | On any valid table with an open task: the first completion answers 200 with the task DONE at the new time. The second answers 400 "Task is already completed" after only a lookup, and leaves the table as the first left it. |
| `Controller.CreateCompleteTwice` | src/test/java/com/example/apipractice/integration/api/TaskApiIntegrationTest.java:160-187 | On an empty table: creating answers 201 with a TODO task under id 1, after exactly ExistsUser, Save and Notify(1, title). Completing it answers 200 with DONE. Completing it again answers 400 "Task is already completed", makes only the FindById call, and leaves the store unchanged. |
| `Controller.ValidationOutageEscapes` | src/main/java/com/example/apipractice/infrastructure/client/UserValidationClientAdapter.java:38-57 | From the user service's reply to the answer of POST /tasks, for a valid request: every outage escapes, with no handler, as "Failed to validate user: " + userId carrying the REST client's cause, before anything is saved or notified. A 404 from the user service answers 400 "User not found: userId=" + userId. |
| `Controller.UnknownUserIsBadRequest` | src/main/java/com/example/apipractice/interfaces/rest/TaskController.java:69-73 | Creating for an unknown user answers 400 "User not found: userId=" + userId, after only the validation call, with nothing saved or notified. |

## Left out

- Transactions (`@Transactional`) and concurrent calls: use cases run one after another. A failed store call is modelled as failing as a whole, with the store rolled back.
- Service.CreateTask: the transaction commits after `notifyTaskCreated` has returned, and the model has no commit step. Its promise that a failed creation sends no notification, and `Service.Run`'s promise that every notification names a stored row, both assume that commit succeeds.
- Persistence.SaveThenFind: the model assumes a clock reading survives the `created_at`/`updated_at` columns unchanged. `LocalDateTime.now()` may carry more fractional digits than an Oracle `TIMESTAMP` (6 by default) or `DATE` keeps, and then a reload returns rounded timestamps. The same assumption underlies `Service.CreateThenGet`, `Controller.PostThenGet` and `Service.CompleteThenGetAndRetry`.
- Controller.StatusTable: Spring also matches an `@ExceptionHandler` against an exception's causes, recursively. The model assumes no store failure has a handled type (TaskNotFound, UserNotFound, IllegalStateException) among its causes. A JPA `IllegalStateException` wrapped by exception translation would in fact be answered 400 by the IllegalStateException handler.
- The HTTP transport of both clients, and the REST client's URI-template expansion and percent-encoding of the user id. The model takes what the remote side did as an input.
- The notification adapter's network call and payload (`taskId`, `title`, `event: TASK_CREATED`). The port is the `Notify` trace entry and cannot fail. `Map.of` inside the adapter would throw on a null id or title. That never happens here, because the saved task always has an id and titles are non-null strings.
- JPA, Oracle and schema specifics. The identity column is modelled as consecutive values from 1; a real identity cache may skip values. `TaskEntity.java` is not part of this model: the entity is modelled from the adapter's use of its constructor, getters and `setId`.
- Persistence.Valid: Oracle's NOT NULL title column would reject an empty title. The model stores it, because the only caller, the controller, rejects blank titles first.
- UserValidation.Exchange: the raw reply is the final one, after the JDK client has followed any same-protocol redirects. Redirect following itself is not modelled.
- Persistence.SaveTask: saving a task whose id has no row is excluded by its precondition, because what JPA then does depends on the provider. Inside the core this only arises right after `findById` found the row.
- Wall-clock time: timestamps are abstract `nat` readings, with no ISO-8601 rendering and no resolution.
- Java nulls for `title` and `userId` in the service: both are plain strings. Their only caller, the controller, rejects null or blank values first. `description` is nullable.
- `long` range: ids are unbounded integers, with no 64-bit overflow.
- Framework conversion and defaults: parsing the `{id}` path segment into a `Long`, the status and body Spring writes for a rejected request body, and the 500 it writes for an escaped exception.
- `@NotBlank` is modelled with Hibernate Validator's `trim().length() > 0` semantics: characters at or below U+0020 count as blank. Other Unicode whitespace is not treated as blank.
- Bootstrap and wiring: `Application`, `HttpClientConfig` (a default `RestTemplate`), the test containers and the migration checks.
- The user-response body's fields: only whether the body is present matters to `existsUser`.
