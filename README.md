# Owner-scoped task table of a NestJS task-management service

This project models the task service of a multi-user task tracker
(`TasksService` in `src/tasks/tasks.service.ts`). Authenticated users list,
fetch, create, re-status and delete their own tasks. The lookup, the status
update and the delete are scoped to the pair (task id, owner), the listing to
the owner, and a created task is owned by its caller, so no user can observe
or change another user's task.

The TypeORM repository behind the service is replaced by an in-memory table,
a `map` from task id to a `Task` record (`id`, `title`, `description`,
`status`, `owner`). The model has three layers:

- `SqlText` (`sql_text.dfy`): the text semantics the search filter relies
  on. `LOWER` is ASCII lower-casing and `LIKE '%term%'` is a literal
  substring test (`Contains`).
- `TaskRepository` (`task_repository.dfy`): the entities and the
  repository calls the service issues, as pure functions over the table.
  These are the query builder (`Query`), `findOneBy` (`FindOneBy`),
  `delete` with its affected-row count (`DeleteBy`) and `save` (`Save`).
  `TaskProperties` (`task_properties.dfy`) proves what these calls
  guarantee together: how the filters combine, the search semantics,
  isolation between users, and round trips.
- `TasksServiceModel` (`tasks_service.dfy`): the class `TasksService`.
  It holds the table and an id counter. The two reads, `GetAllTasks` and
  `GetTaskById`, are functions of the table. The three writes,
  `CreateTask`, `DeleteTask` and `UpdateTaskStatus`, are methods that
  modify the table and state its new contents in terms of the old.

Errors are values: `Result<T> = Ok(value) | Err(error)`, with
`ServiceError = NotFound | InternalServerError`.

Decisions where the source is silent:

- The status filter is a string compared with the status's stored name
  (`"OPEN"`, `"IN_PROGRESS"`, `"DONE"`). The enum file is not part of this
  model; these names are assumed.
- Both filters apply only when the parameter passes JavaScript's
  truthiness test (`Given`). `if (status)` at src/tasks/tasks.service.ts:20
  skips an empty string, so an empty status restricts nothing; the same
  holds for `if (search)` at line 23.
- A status string that names no status lists nothing
  (`UnknownStatusListsNothing`).
- Owners are compared by user identity (`User.id`). A task stores its
  owner's id.
- The store's id generator is modelled as a counter, `nextId`. The
  invariant `Valid` keeps every id in use below it, so a created task's
  id is always fresh.
- A failed listing query is an input, `storeFails`. On it `GetAllTasks`
  returns `InternalServerError`.

## Model

| member | source | states |
|---|---|---|
| SqlText.LowerChar | src/tasks/tasks.service.ts:24 | the result is never an upper-case letter; only an upper-case ASCII letter changes, to the letter 32 code points above |
| SqlText.Lower | src/tasks/tasks.service.ts:24 | same length as the input, and each character is the lower-cased input character at that position |
| SqlText.LowerIdempotent | src/tasks/tasks.service.ts:24 | lower-casing twice equals lower-casing once |
| SqlText.ContainsTransitive | src/tasks/tasks.service.ts:24 | if a contains b and b contains c, then a contains c |
| SqlText.LowerPreservesContains | src/tasks/tasks.service.ts:24 | a term found case-sensitively is also found once both sides are lower-cased, so the case-insensitive search never misses an exact match |
| SqlText.Contains | src/tasks/tasks.service.ts:24 | `s LIKE '%term%'` for a term without wildcards: some suffix of s starts with the term |
| SqlText.MilkFindsBuyMilk | src/tasks/tasks.service.ts:24 | a search for "milk" matches the text "Buy MILK" |
| TaskRepository.StatusName | src/tasks/tasks.service.ts:19-22 | every status has a non-empty name, so a status name used as the filter parameter always applies the status filter; the name is "OPEN" exactly for Open |
| TaskRepository.Given | src/tasks/tasks.service.ts:20 | an optional parameter passes the truthiness tests at lines 20 and 23 iff it is present and not the empty string |
| TaskRepository.MentionsTerm | src/tasks/tasks.service.ts:24 | the lower-cased term occurs in the lower-cased title or in the lower-cased description |
| TaskRepository.Matches | src/tasks/tasks.service.ts:18-25 | the task is owned by the caller, AND has the given status name when a status is given, AND mentions the term when a search is given |
| TaskRepository.Query | src/tasks/tasks.service.ts:16-25 | sound and complete: a task is in the result iff it is in the table, is owned by the caller, has the given status name (when the status is non-empty) and has the lower-cased term in its lower-cased title or description (when the term is non-empty) |
| TaskRepository.FindOneBy | src/tasks/tasks.service.ts:35 | finds a row iff some row has this id and this owner, and what it finds is such a row of the table |
| TaskRepository.DeleteBy | src/tasks/tasks.service.ts:43 | the remaining rows are exactly the rows that do not match (id, owner); the affected count is the number of rows removed, at most one; the table stays keyed by id |
| TaskRepository.Save | src/tasks/tasks.service.ts:56 | afterwards the rows are the saved task plus every earlier row with a different id; the table stays keyed by id |
| TaskProperties.FiltersCombineByAnd | src/tasks/tasks.service.ts:19-25 | the listing with both filters is the intersection of the listings with each filter alone |
| TaskProperties.EmptyParametersRestrictNothing | src/tasks/tasks.service.ts:20-23 | an empty status and an empty search give the same listing as no filters |
| TaskProperties.UnknownStatusListsNothing | src/tasks/tasks.service.ts:21 | a non-empty status string that is no status's name lists no task |
| TaskProperties.StatusFilterIsExact | src/tasks/tasks.service.ts:20-22 | every task listed under a status filter has exactly that status |
| TaskProperties.SearchIgnoresTermCase | src/tasks/tasks.service.ts:23-25 | lower-casing the search term first gives the same listing |
| TaskProperties.ExactOccurrenceIsListed | src/tasks/tasks.service.ts:23-25 | an owned task whose title or description holds the term as written is listed by a search for it |
| TaskProperties.LongerTermNarrows | src/tasks/tasks.service.ts:23-25 | a search term that contains another term, ignoring case, lists a subset of what the other term lists |
| TaskProperties.ListingAgreesWithLookup | src/tasks/tasks.service.ts:16-39 | a task appears in its caller's unfiltered listing iff looking up its id for that caller finds that task |
| TaskProperties.ForeignTaskIsUntouchable | src/tasks/tasks.service.ts:34-46 | for an id owned by another user, the lookup finds nothing and the delete affects no row and leaves the table unchanged |
| TaskProperties.SavingNewTaskExtendsListing | src/tasks/tasks.service.ts:49-57 | saving a task under a new id adds it to exactly the listings it matches, and every listing is otherwise unchanged |
| TaskProperties.ForeignSaveKeepsListing | src/tasks/tasks.service.ts:56 | a save of a row that is not the caller's, before or after, leaves the caller's listings unchanged |
| TaskProperties.DeleteKeepsOtherListings | src/tasks/tasks.service.ts:42-46 | a delete scoped to one user leaves every other user's listings unchanged |
| TaskProperties.DeleteRemovesFoundTask | src/tasks/tasks.service.ts:42-46 | a delete removes from its owner's listings exactly the task the lookup by (id, owner) finds, and nothing when it finds none |
| TaskProperties.SaveThenDeleteRestores | src/tasks/tasks.service.ts:42-57 | deleting a task just saved under a new id affects one row and restores the earlier table |
| TaskProperties.DeleteTwiceAffectsNothing | src/tasks/tasks.service.ts:42-46 | a second delete of the same (id, owner) affects no row, so it reports NotFound |
| TaskProperties.StatusUpdateIdempotent | src/tasks/tasks.service.ts:60-64 | after setting a found task's status and saving it, the lookup returns the updated task, and repeating the update with the same status leaves the table unchanged |
| TasksServiceModel.TasksService.constructor | src/tasks/tasks.service.ts:13-14 | the service starts valid with an empty table |
| TasksServiceModel.TasksService.GetAllTasks | src/tasks/tasks.service.ts:16-31 | InternalServerError iff the store query fails; otherwise the listing `Query` gives, i.e. exactly the caller's tasks that pass the given filters |
| TasksServiceModel.TasksService.GetTaskById | src/tasks/tasks.service.ts:34-39 | returns the stored task iff the caller owns a task with this id; otherwise NotFound, also when another user's task has this id |
| TasksServiceModel.TasksService.DeleteTask | src/tasks/tasks.service.ts:42-46 | succeeds iff the caller owned the task, and then removes exactly that row; otherwise NotFound with the table unchanged; either way a later lookup of the id gives NotFound |
| TasksServiceModel.TasksService.CreateTask | src/tasks/tasks.service.ts:49-57 | returns an OPEN task with the given title and description, owned by the caller, under an id that was not in use; the table gains exactly that row, and the lookup by its id finds it |
| TasksServiceModel.TasksService.UpdateTaskStatus | src/tasks/tasks.service.ts:60-64 | on a task the caller owns, any status may be set from any other; only that row's status changes, and the updated task is returned and found by a later lookup; otherwise NotFound with the table unchanged |

## Left out

- The authentication service (`src/auth/auth.service.ts`) is not part of this model. It covers password hashing, token signing and the store's unique-username error. The request guard that resolves the caller is also not modelled: the caller arrives as a `User` argument.
- The controller, the modules and the server bootstrap are not part of this model. They only do routing, dependency wiring, logging and configuration.
- Full SQL `LIKE` semantics are not modelled. `%` and `_` inside a search term act as wildcards in the store, and the model matches them literally.
- `LOWER` is locale-dependent in the store. The model lower-cases ASCII letters only.
- Logging and stack traces are left out.
- Store failures are modelled only for the listing query, the one place the service catches them. In every other operation a store failure escapes as an unhandled exception.
- Asynchronous execution and concurrent requests are left out. Each call runs to completion before the next one starts.
- In the source, task ids are strings generated by the store. The model uses natural numbers from a counter. What the store does with an id it cannot parse is not modelled.
- The DTO and entity validation classes are not part of this model. The status passed to an update is a `TaskStatus` value, as that upstream validation guarantees. The title, the description and the filter parameters are arbitrary strings; a non-empty title is not enforced.
- TasksServiceModel.TasksService.GetAllTasks: returns a set, not an array. The source's query has no `ORDER BY`, so result order is unspecified and not modelled.
- TasksServiceModel.TasksService.CreateTask: the returned task carries the owner's id rather than the full user object the source attaches.
