# Todo tasks: repository, service, controller and client state in Dafny

This project models the core of a small task-tracking application.

- **Repository.** An ASP.NET Core back end stores tasks in one relational table through an Entity Framework unit of work. Creates are staged on the unit of work and committed by `SaveAsync`. A delete commits at once.
- **Service.** The service validates and trims input. It applies partial updates, reports missing ids, and projects rows to transfer objects without their `UpdatedAt`.
- **Controller.** The controller maps what the service did to an HTTP status and body.
- **Client.** The React client keeps at most five tasks in its state: the loaded list, with created tasks put in front and completed ones removed. It does not refetch after a complete. Its form checks both fields before submitting.

Modules, one per part of the program:

- `Wrappers`: `Option` and `Result`.
- `Bounds`: `Min` and `Max`, used for the bounds of `Take(count)` and `slice(0, 4)`.
- `Strings`: whitespace and trimming with the rules of .NET (`char.IsWhiteSpace`, `string.Trim`) and of ECMAScript (`String.prototype.trim`). The two runtimes differ on U+0085 and U+FEFF.
- `Models`: the `Task` entity and its transfer objects.
- `Repository`: the table as a sequence of rows under a primary key, and the recent-active query. Class `TaskRepository` holds the committed rows, the staged creates, a ghost clock and a ghost log of the writes it issued.
- `Service`: the projection, the patch, and class `TaskService` over a `TaskRepository`.
- `Controller`: each action as a function from its parameters and the service's outcome to a `Response`.
- `ClientApp`: class `App` with `tasks`, `loading` and `error`.
- `ClientTaskForm`: class `TaskForm` with `title`, `description` and `error`.

Some inputs are nondeterministic and become parameters:

- The clock (`DateTime.UtcNow`): instants the caller supplies, never below the repository's last reading.
- The GUID generator (`Guid.NewGuid()`): an id the caller supplies, satisfying `IsFreshId`, meaning not `Guid.Empty` (0) and not held by any row.
- Each API call of the client, and each call from the controller into the service: its settled result (`ApiResult`, `Outcome`).

Two facts about the code that a reader might not expect:

- The client does not trim. The form checks `title.trim()` and `description.trim()` for emptiness (frontend/src/components/TaskForm/TaskForm.tsx lines 21-29), but it passes the untrimmed values to `onSubmit` (line 32). Only the service trims (Services/TaskService.cs lines 41-42).
- The controller has no delete action and no list-all action (backend/Controllers/TasksController.cs). `TaskService.DeleteTaskAsync` and `TaskService.GetAllTasksAsync` are modelled, but no HTTP response is modelled for them.

## Model

| member | source | states |
|---|---|---|
| Strings.TrimStart | Services/TaskService.cs:41 | the result is a suffix of the input, everything dropped is whitespace, and the result does not start with whitespace |
| Strings.TrimEnd | Services/TaskService.cs:41 | the result is a prefix of the input, everything dropped is whitespace, and the result does not end with whitespace |
| Strings.Trim | Services/TaskService.cs:41-42 | the trimmed string is empty exactly when the input is blank; otherwise it starts and ends with non-whitespace |
| Strings.PrefixOfSuffix | Services/TaskService.cs:41-42 | a prefix of a suffix of a string is a slice of it |
| Strings.TrailingOfSuffix | Services/TaskService.cs:41-42 | whitespace at the end of a suffix is whitespace at the end of the whole string |
| Strings.TrimIsSlice | Services/TaskService.cs:41-42 | the trimmed string is a slice of the input with only whitespace before and after it; with `Trim` this pins the result down as the input minus its leading and trailing whitespace |
| Strings.NotBlankTrimsNonEmpty | Services/TaskService.cs:33-42 | a value that passes `IsNullOrWhiteSpace` is non-empty after `Trim` |
| Strings.TrimFixesTrimmed | Services/TaskService.cs:41-42 | a string with no whitespace at either end is its own trim |
| Strings.TrimIdempotent | Services/TaskService.cs:58-62 | trimming an already trimmed value changes nothing |
| Strings.BlankAgreesWithoutNelAndBom | frontend/src/components/TaskForm/TaskForm.tsx:21-29 | the .NET and ECMAScript blankness tests agree on every string without U+0085 and U+FEFF |
| Strings.BlankDisagreesOnNelAndBom | frontend/src/components/TaskForm/TaskForm.tsx:21-29 | U+0085 is blank only for .NET; U+FEFF is blank only for ECMAScript |
| Repository.UniqueIdsCons | Data/TodoDbContext.cs:23 | a row put in front of a keyed table keeps it keyed exactly when its id is not taken |
| Repository.UniqueIdsPrefix | Data/TodoDbContext.cs:23 | the committed part of a keyed table is keyed |
| Repository.Find | Repositories/TaskRepository.cs:31 | finds a row exactly when some row has the id, and the row found has that id |
| Repository.FindUnique | Repositories/TaskRepository.cs:31 | under the primary key, the row found for an id is the one row holding it |
| Repository.ReplaceRow | Repositories/TaskRepository.cs:52 | same length and same ids position by position; rows with the task's id become the task; every other row is unchanged |
| Repository.ReplaceRowStamped | Repositories/TaskRepository.cs:50-51 | replacing a row by one written no earlier than created and no later than the clock keeps every row so |
| Repository.RemoveRow | Repositories/TaskRepository.cs:61 | a row survives exactly when it was in the table with another id; no row keeps the id |
| Repository.RemoveAbsentRow | Repositories/TaskRepository.cs:58-59 | removing an absent id changes nothing |
| Repository.RemoveRowKeyed | Repositories/TaskRepository.cs:58-63 | removing a present id from a keyed table removes exactly one row and keeps the table keyed |
| Repository.Active | Repositories/TaskRepository.cs:18 | a row is kept exactly when it is in the table and not completed; never more often than the table holds it |
| Repository.SortedCons | Repositories/TaskRepository.cs:19 | a row no older than every row of a newest-first list can go in front of it |
| Repository.InsertByCreatedDesc | Repositories/TaskRepository.cs:19 | inserting into a newest-first list keeps it newest first and adds exactly that row |
| Repository.NoneNewerThanHead | Repositories/TaskRepository.cs:19 | in a newest-first list no row is newer than one at least as new as the head |
| Repository.NoneNewerAfterInsert | Repositories/TaskRepository.cs:19 | inserting an older row among rows no newer than a head keeps them no newer than it |
| Repository.SortedTail | Repositories/TaskRepository.cs:19 | the tail of a newest-first list is newest first |
| Repository.SortByCreatedDesc | Repositories/TaskRepository.cs:19 | the result is newest first and a permutation of the input |
| Repository.RecentActiveIsPrefix | Repositories/TaskRepository.cs:17-21 | the query is the first `count` rows of the sorted active rows (none for `count <= 0`) |
| Repository.RecentActiveMembers | Repositories/TaskRepository.cs:18 | every row returned is in the table and active |
| Repository.PrefixSubMultiset | Repositories/TaskRepository.cs:20 | a prefix holds no row more often than the whole list |
| Repository.RecentActiveSubMultiset | Repositories/TaskRepository.cs:17-21 | the query returns no active row more often than the table holds it |
| Repository.PrefixHoldsNewest | Repositories/TaskRepository.cs:19-20 | in a newest-first list a row outside a prefix is no newer than any row in it |
| Repository.RecentActiveNewest | Repositories/TaskRepository.cs:19-20 | no active row left out is newer than a row returned |
| Repository.RecentActiveSpec | Repositories/TaskRepository.cs:15-22 | only active rows of the table, newest first, `max(0, min(count, #active))` of them, no duplicates beyond the table's, and the newest ones |
| Repository.TaskRepository.constructor | Repositories/TaskRepository.cs:11-14 | a repository over a keyed table, nothing staged, the ghost log empty |
| Repository.TaskRepository.GetRecentActiveTasks | Repositories/TaskRepository.cs:15-22 | committed active rows only, newest first, `max(0, min(count, #active))` of them, none more often than the table holds it, and no active row left out newer than one returned |
| Repository.TaskRepository.GetAllTasksAsync | Repositories/TaskRepository.cs:24-27 | every committed row once; no staged row appears |
| Repository.TaskRepository.GetTaskByIdAsync | Repositories/TaskRepository.cs:29-32 | a committed row with the id, or none exactly when no committed row has it |
| Repository.TaskRepository.CreateTaskAsync | Repositories/TaskRepository.cs:34-42 | the caller's task with a fresh id and two successive clock readings as timestamps, staged and not committed; one `Added` write; keeps the key and `CreatedAt <= UpdatedAt <= clock` |
| Repository.TaskRepository.SaveAsync | Repositories/TaskRepository.cs:44-47 | the staged rows are appended to the committed ones; one `Saved` write |
| Repository.TaskRepository.UpdateTaskAsync | Repositories/TaskRepository.cs:49-54 | the caller's fields stored for the id with `UpdatedAt` from the clock; staged rows untouched; one `Modified` write; timestamps stay ordered |
| Repository.TaskRepository.DeleteTaskAsync | Repositories/TaskRepository.cs:56-64 | a present id: exactly that row goes, the rest stay, and the unit of work is saved; an absent id: nothing changes and nothing is written; either way no committed row has the id |
| Repository.TaskRepository.StagedLacksCommittedId | Repositories/TaskRepository.cs:58-62 | a committed id is not also staged |
| Repository.TaskRepository.StagedNotCommitted | Repositories/TaskRepository.cs:24-27 | no staged row is a committed one |
| Service.MapToDtoDropsOnlyUpdatedAt | Services/TaskService.cs:93-103 | two rows project to the same transfer object exactly when they differ at most in `UpdatedAt` |
| Service.MapToDtos | Services/TaskService.cs:22 | one transfer object per row, same length, same order |
| Service.ProjectionsKeepNewest | Services/TaskService.cs:19-23 | projecting the newest active rows keeps them the newest: no active row whose projection is left out is newer than a projection returned |
| Service.ProjectionsOfRows | Services/TaskService.cs:19-23 | every projection of rows drawn from the table is the projection of a table row |
| Service.PatchKeepsIdentity | Services/TaskService.cs:58-65 | a patch never changes the id or the timestamps |
| Service.AbsentFieldsUnchanged | Services/TaskService.cs:58-65 | an absent patch field leaves its field alone; an all-absent patch changes nothing |
| Service.PatchedTextIsTrimmed | Services/TaskService.cs:58-62 | a present title or description is stored trimmed |
| Service.PatchIdempotent | Services/TaskService.cs:58-65 | applying a patch twice gives the fields of applying it once |
| Service.CompletePatchSetsFlagOnly | Services/TaskService.cs:79-82 | the completion patch sets the flag and changes nothing else |
| Service.PatchMayEmptyTitle | Services/TaskService.cs:58-59 | update does not re-check emptiness: every whitespace-only title is stored as "", whatever the other patch fields |
| Service.PatchMayEmptyDescription | Services/TaskService.cs:61-62 | likewise every whitespace-only description is stored as "" |
| Service.AssignPatchedFields | Services/TaskService.cs:58-65 | the step-by-step assignments give the patched task |
| Service.TaskService.constructor | Services/TaskService.cs:14-17 | the service holds the given repository |
| Service.TaskService.GetRecentTasksAsync | Services/TaskService.cs:19-23 | the repository's recent-active list projected position by position, same length and order; so `max(0, min(count, #active))` transfer objects, all active, newest first, each the projection of a committed row, and no active row left out newer than one returned |
| Service.TaskService.GetAllTasksAsync | Services/TaskService.cs:73-77 | the projection of every committed row, in table order |
| Service.TaskService.GetTaskByIdAsync | Services/TaskService.cs:25-29 | none exactly when no committed row has the id; otherwise that row's projection |
| Service.TaskService.CreateTaskAsync | Services/TaskService.cs:31-50 | a null or blank title fails with "Title cannot be empty", checked first; then "Description cannot be empty" for the description; a failure leaves the repository alone; a success stores the trimmed, non-empty, not completed task with the fresh id, writes `Added` then `Saved`, leaves the clock at the reading stored as `UpdatedAt`, and returns its projection |
| Service.TaskService.UpdateTaskAsync | Services/TaskService.cs:52-71 | fails with not-found exactly when no committed row has the id, writing nothing; otherwise stores the patched row with a fresh `UpdatedAt`, writes `Modified` then `Saved`, leaves the clock at that reading, and returns its projection |
| Service.TaskService.MarkTaskAsCompletedAsync | Services/TaskService.cs:79-82 | the update with `{ IsCompleted = true }`: not found as for update, otherwise the old row with the flag set and a fresh `UpdatedAt`, with the clock left at that reading |
| Service.TaskService.DeleteTaskAsync | Services/TaskService.cs:84-91 | fails with not-found exactly when no committed row has the id, writing nothing; otherwise the repository's delete; afterwards `GetTaskByIdAsync(id)` is none |
| Controller.RecentCountGuard | backend/Controllers/TasksController.cs:19-33 | a count outside 1..100 gives 400 "Count must be between 1 and 100" whatever the service would do; in range, 200 with the service's list, or 500; the default 5 is in range |
| Controller.GetByIdStatus | backend/Controllers/TasksController.cs:36-50 | 404 exactly when the service found nothing; 200 with the transfer object when it found one |
| Controller.CreateStatus | backend/Controllers/TasksController.cs:53-71 | success gives 201 whose route id is the returned task's id; `ArgumentException` gives 400 with its message, before the general 500 |
| Controller.UpdateStatus | backend/Controllers/TasksController.cs:74-107 | update and complete: 404 exactly for `KeyNotFoundException`, 200 with the service's object exactly on success, otherwise 500 with the message |
| Controller.OtherExceptionsAre500 | backend/Controllers/TasksController.cs:29-31 | every action answers any other exception with 500 and `{ error = message }` |
| Controller.ServiceErrorsToStatus | backend/Controllers/TasksController.cs:60-83 | the service's validation error, thrown as `ArgumentException`, becomes 400 on create; its not-found error, thrown as `KeyNotFoundException` "Task with id {id} not found", becomes 404 on update; each carries the service's message |
| Controller.StatusesUsed | backend/Controllers/TasksController.cs:18-107 | each action answers only with its own three statuses |
| ClientApp.PrependRecentIsFirstFive | frontend/src/components/App/App.tsx:39 | the new list is the first five of the new task followed by the old list; the new task is first |
| ClientApp.FirstFiveAbsorbs | frontend/src/components/App/App.tsx:39 | cutting to five before prepending does not change the first five |
| ClientApp.CreatesKeepNewestFive | frontend/src/components/App/App.tsx:36-43 | after one or more creates, the list is the first five of the created tasks, newest first, then the earlier list |
| ClientApp.WithoutId | frontend/src/components/App/App.tsx:48 | a task is kept exactly when it was listed with another id |
| ClientApp.WithoutIdDistributes | frontend/src/components/App/App.tsx:48 | the filter keeps the order of the tasks it keeps |
| ClientApp.WithoutAbsentId | frontend/src/components/App/App.tsx:48 | completing an unlisted id leaves the list as it is |
| ClientApp.WithoutPresentIdShrinks | frontend/src/components/App/App.tsx:48 | completing a listed id shortens the list |
| ClientApp.App.constructor | frontend/src/components/App/App.tsx:13-15 | no tasks, not loading, no error |
| ClientApp.App.BeginLoad | frontend/src/components/App/App.tsx:23-24 | loading on and error cleared; the list kept |
| ClientApp.App.FinishLoad | frontend/src/components/App/App.tsx:25-33 | loading off; the fetched list on success; on failure the old list and the load error |
| ClientApp.App.LoadTasks | frontend/src/components/App/App.tsx:22-34 | on success the fetched list with no error; on failure the old list and "Failed to load tasks. Please refresh the page."; loading off on both paths |
| ClientApp.App.HandleCreateTask | frontend/src/components/App/App.tsx:36-43 | success puts the new task first and keeps at most five; failure leaves the list and is re-thrown |
| ClientApp.App.HandleCompleteTask | frontend/src/components/App/App.tsx:45-54 | success removes the tasks with the id; failure leaves the list, sets "Failed to complete task. Please try again." and is re-thrown |
| ClientTaskForm.TaskForm.constructor | frontend/src/components/TaskForm/TaskForm.tsx:13-15 | empty fields and no error |
| ClientTaskForm.TaskForm.ChangeTitle | frontend/src/components/TaskForm/TaskForm.tsx:50-52 | the title becomes the input's value, at most 255 characters; nothing else changes |
| ClientTaskForm.TaskForm.ChangeDescription | frontend/src/components/TaskForm/TaskForm.tsx:62-64 | the description becomes the textarea's value, at most 2000 characters; nothing else changes |
| ClientTaskForm.TaskForm.HandleSubmit | frontend/src/components/TaskForm/TaskForm.tsx:17-39 | a blank title gives "Title is required", then a blank description "Description is required", neither submitting nor changing the fields; otherwise the untrimmed fields are submitted, cleared on success, kept with "Failed to create task. Please try again." on failure |
| ClientTaskForm.FormCheckMirrorsService | frontend/src/components/TaskForm/TaskForm.tsx:21-29 | the form's check agrees with the service's `IsNullOrWhiteSpace` except on U+0085 and U+FEFF, where each lets through what the other rejects |

## Left out

- Asynchrony: every `await` is one sequential step. Interleaved requests and the client's stale closure over `tasks` in `handleCreateTask` and `handleCompleteTask` are not modelled.
- Entity Framework change tracking: `FindAsync` also seeing staged rows, updates of staged or detached entities, and the transaction behaviour of `SaveChangesAsync` are not modelled. Lookups and queries see committed rows only.
- Repository.TaskRepository.UpdateTaskAsync: requires that a committed row has the task's id. The service calls it only after finding that row. For an id not in the table, what Entity Framework does at save time is not modelled.
- Repository.TaskRepository.UpdateTaskAsync: writes the new row straight into the committed table. In the code, `Update` (Repositories/TaskRepository.cs line 52) only marks the entity modified, and `SaveAsync` commits it. Between the update and the save, a tracking lookup (`FindAsync`, `ToListAsync`) returns the tracked instance with its new values, as the model does. `GetRecentActiveTasks` (lines 18-19) filters and sorts on the stored values instead. For example, a row just updated to `IsCompleted = true` is still returned by the code, now showing `IsCompleted` true, while the model drops it. The service always saves right after the update, so no caller reaches that state.
- Repository.TaskRepository.CreateTaskAsync and Repository.TaskRepository.UpdateTaskAsync: return a new value. In the code they change the caller's object in place (lines 36-38 and 51), and the service returns the projection of that same object (Services/TaskService.cs lines 49 and 70). The model's service returns the projection of the returned value, which holds the same fields. Aliasing is not modelled.
- Repository.TaskRepository.SaveAsync: appends the staged rows to the committed ones. `GetAllTasksAsync` (Repositories/TaskRepository.cs line 26) has no `OrderBy`, so the order of its result is the model's choice, with the newest create last. The store promises no order.
- Repository.SortByCreatedDesc: is stable. The order a database gives rows with equal `CreatedAt` is not modelled. Every stated property holds for any order of such rows.
- Storage failures and other unexpected exceptions: the service's methods never throw them. The controller receives them only as an `Outcome` value `Threw(OtherException, message)`.
- Controller.GetRecentTasks: `count` is an unbounded integer, not a 32-bit `int`. No value in 1..100 is affected.
- Model binding and `[ApiController]` validation: stood for by one boolean, `modelStateValid`. Binding failures of the other actions and failures to parse a route's `Guid` are not modelled.
- Routing and the `CreatedAtAction` location header: not modelled. The created response carries the route value `id`.
- Messages: "Task with id {id} not found" is a constructor over the id, not a formatted string.
- Column limits: 255 and 2000 are kept only for the form's inputs. The service does not check lengths, and the database's enforcement is not modelled.
- Lengths: counted in Dafny characters. `maxLength` counts UTF-16 code units, and the two differ outside the Basic Multilingual Plane.
- Rendering: `TaskList`, `TaskCard`, the loading indicator, the error banner's close button and `console.error` are not part of this model. The HTTP client `taskApiClient.ts` is not part of this model either. Its calls appear only as their settled results.
- GUIDs and instants: are natural numbers. Real randomness and real time are not modelled.
