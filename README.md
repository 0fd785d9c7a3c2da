# Task tracker core, modelled in Dafny

This project models the core of a command-line task tracker written in Go:

- the **task service** (`internal/task/task.go`) keeps an ordered collection of
  tasks in one save file. Each task has an id, a description, a status (`todo`,
  `in-progress` or `done`), a creation time and an update time. Each of the five
  operations (Add, Update, Delete, Mark, List) loads the whole collection
  (a missing file counts as empty). Add, and Update, Delete and Mark when the
  id is found, then change the collection in memory and save it whole. List
  saves nothing, and neither does an operation that fails with NotFound or a
  load error;
- the **list command's** own logic (`cmd/list.go`): mapping the optional filter
  word to a status, and `formatTasks`, which prints one row per task with every
  description padded to the longest one plus two spaces, followed by the status
  name.

Files:

- `task.dfy`, module `Tasks`: the data model (`Task`, `Status`, `SaveFile`,
  `Result`), one specification function per operation (`Added`, `Updated`,
  `Removed`, `Marked`, `Filtered`, `Listed`), the source's loops as methods
  proved equal to those functions (`NextId`, `UpdateMatching`, `FindFirst`,
  `FilterByStatus`), and the class `TaskService`, whose field `file` stands for
  the save file and whose methods do load, change, save.
- `task_laws.dfy`, module `TaskLaws`: lemmas about the operations (id
  assignment, the collection invariant "ids positive and distinct", what each
  operation leaves untouched, order preservation), and a client method
  `Scenarios`: the service's test cases stated as assertions, which the
  verifier checks against the method contracts.
- `list.dfy`, module `ListCommand`: the filter word, the table layout as
  functions (`Row`, `Rows`, `Table`), the formatter's loops as methods
  (`ColumnWidth`, `FormatTasks`, `WriteRow`) and lemmas about the layout.

Conventions of the model:

- The save file is a value `Missing | Unreadable | Present(tasks)`.
  `Unreadable` stands for every load failure other than absence (read or parse
  error); it gives `Err(LoadFailed)` and nothing is saved.
- A time is a `nat`, with 0 the zero ("unset") time; a zero update time is
  omitted from the file (task.go:34), a zero creation time is written out. The
  clock is the `now` argument of Add and Update.
- Ids are unbounded integers. Ids read from a file may be anything, so the
  collection invariant `ValidIds` is proved to be preserved by each operation,
  not assumed by them.
- `StatusName` gives the printed status names `todo`, `in-progress` and
  `done`. It stands for `Status.String()`, which the formatter calls but which
  is not part of this model.

Where the code and its documentation or tests disagree, the model follows the
code:

- Update copies only the patch's description (task.go:100). The test at
  internal/task/task_test.go:103-106 expects the patch's status to be applied as
  well. The model keeps the status, and `Scenarios` shows it.
- Update does not stop at the first match (task.go:95-103), unlike Delete and
  Mark (task.go:124, 146). `UpdateIsFirstMatchEdit` proves the two loop shapes
  agree when ids are distinct. `DuplicateIdsUpdateAllButMarkFirst` shows that
  they differ when two tasks share an id.
- The next id is the largest *remaining* id plus one (task.go:72-78). Deleting
  any task except the one with the largest id keeps the next id
  (`DeleteKeepsNextId`), so the next add does not hand out the deleted id.
  Deleting the task with the largest id makes its
  id available again (`DeletingNewestReusesItsId`). A deleted id also comes back
  once every larger id has been deleted too
  (`DeletedIdReturnsOnceLargerOnesAreGone`).
- `loadOrCreate` checks for `ErrFileNotExist` (task.go:178), but fs.go declares
  the sentinel as `ErrNotExist` (internal/task/fs.go:9). The model follows the
  evident intent: a missing file reads as an empty collection.

## Model

| member | source | states |
|---|---|---|
| `Tasks.LoadOrCreate` | internal/task/task.go:175-184 | a missing file loads as the empty collection, an unreadable one as the error LoadFailed, and a present one as its tasks |
| `Tasks.MaxId` | internal/task/task.go:72-77 | the running maximum is at least 0, bounds every id and, when positive, is the id of some task |
| `Tasks.Added` | internal/task/task.go:78-81 | Add appends exactly one task at the end and keeps every existing task in place; the new task's id is the largest existing id (from 0) plus one, so at least 1 and larger than every existing id, whatever id the caller's task carried; its created-at is `now`; description, status and updated-at come from the caller's task |
| `Tasks.NextId` | internal/task/task.go:72-78 | the scan returns the largest id (from 0) plus one, so the result is at least 1 and larger than every existing id |
| `Tasks.Updated` | internal/task/task.go:95-103 | length kept; every task keeps its id, status and created-at; tasks with another id are unchanged; every task with the id gets the new description and updated-at = `now` |
| `Tasks.UpdateMatching` | internal/task/task.go:94-103 | the visit-every-task loop produces `Updated` and reports found exactly when some task has the id |
| `Tasks.FirstIndex` | internal/task/task.go:117-125 | the result is the position of a task with the id, and no earlier task has the id; None means no task has it |
| `Tasks.FindFirst` | internal/task/task.go:139-147 | the search loop that stops at the first match returns the first position of the id |
| `Tasks.Removed` | internal/task/task.go:122-123 | with a match at k, one task fewer, the tasks before k and after k in their order; with none, the collection as it was |
| `Tasks.Marked` | internal/task/task.go:143-145 | only the first task with the id changes, and only in its status |
| `Tasks.Filtered` | internal/task/task.go:165-171 | the filtered list is no longer than the collection and holds only tasks of the collection that have the filter's status |
| `Tasks.FilterByStatus` | internal/task/task.go:164-172 | the appending loop produces `Filtered` |
| `Tasks.Listed` | internal/task/task.go:160-172 | without a filter the collection as loaded; with one, exactly the filtered list, so the early return for an empty collection gives the same result |
| `Tasks.TaskService.constructor` | internal/task/task.go:57-63 | a service starts bound to the given save file contents |
| `Tasks.TaskService.Add` | internal/task/task.go:65-85 | a load failure is returned and nothing is saved; otherwise (a missing file counts as empty, task.go:175-184) the returned id is the largest id plus one and the file holds `Added` |
| `Tasks.TaskService.Update` | internal/task/task.go:87-108 | NotFound when no task has the id, with the file unchanged; otherwise the file holds `Updated` with the patch's description only |
| `Tasks.TaskService.Delete` | internal/task/task.go:110-130 | NotFound when no task has the id, with the file unchanged; otherwise the file holds `Removed` |
| `Tasks.TaskService.Mark` | internal/task/task.go:132-152 | NotFound when no task has the id, with the file unchanged; otherwise the file holds `Marked` |
| `Tasks.TaskService.List` | internal/task/task.go:154-173 | a load failure is returned; otherwise the loaded collection as-is without a filter or when empty, else `Filtered`; the file is not changed |
| `TaskLaws.MaxIdOfNumbered` | internal/task/task.go:72-77 | when ids are 1..n in order, the running maximum is n |
| `TaskLaws.AddsNumberConsecutively` | internal/task/task.go:72-81 | successive adds to a collection numbered 1..n number their tasks n+1, n+2, ... in call order |
| `TaskLaws.AddsFromEmpty` | internal/task/task_test.go:29-41 | from an empty or missing file the k-th add gets id k (1, then 2, ...) |
| `TaskLaws.AddKeepsValidIds` | internal/task/task.go:72-81 | if ids are positive and distinct before Add they are after it |
| `TaskLaws.UpdateIsFirstMatchEdit` | internal/task/task.go:95-103 | with distinct ids, Update's loop without `break` equals editing only the first match (or nothing when there is none) |
| `TaskLaws.DuplicateIdsUpdateAllButMarkFirst` | internal/task/task.go:95-103 | with a duplicated id, Update changes the second copy and Mark does not |
| `TaskLaws.UpdateKeepsValidIds` | internal/task/task.go:99-102 | Update keeps ids positive and distinct |
| `TaskLaws.RemovedFromOriginal` | internal/task/task.go:122-123 | the i-th remaining task is the old i-th before the removed position and the old (i+1)-th after it |
| `TaskLaws.DeleteKeepsValidIds` | internal/task/task.go:116-125 | Delete keeps ids positive and distinct |
| `TaskLaws.DeleteRemovesExactlyOne` | internal/task/task.go:116-125 | Delete removes exactly one task (a multiset equation), every task with another id remains, and with distinct ids no task with the id remains |
| `TaskLaws.MaxIdBoundsMembers` | internal/task/task.go:72-77 | every task's id is at most the running maximum |
| `TaskLaws.DeleteKeepsNextId` | internal/task/task.go:72-78 | with positive distinct ids, after deleting a task other than the one with the largest id the next id is unchanged, so the next add does not hand out the deleted id |
| `TaskLaws.DeletedIdReturnsOnceLargerOnesAreGone` | internal/task/task.go:72-78 | from ids 1, 2, 3, deleting 2 and then 3 makes the next add get id 2 again |
| `TaskLaws.DeletingNewestReusesItsId` | internal/task/task.go:72-78 | after deleting id 2 from ids 1, 2, the next add gets id 2 again |
| `TaskLaws.MarkKeepsValidIds` | internal/task/task.go:143-145 | Mark keeps ids positive and distinct |
| `TaskLaws.MarkKeepsTimes` | internal/task/task.go:139-147 | Mark keeps every id, description, created-at and updated-at, and when the id exists some task has the new status |
| `TaskLaws.FilteredAppend` | internal/task/task.go:165-171 | filtering distributes over concatenation, so matching tasks keep their relative order |
| `TaskLaws.FilteredCount` | internal/task/task.go:165-171 | each task occurs in the filtered list as often as in the collection when its status matches the filter, and otherwise not at all |
| `TaskLaws.FilteredMembers` | internal/task/task.go:167-170 | a task is listed exactly when it is in the collection with the filter's status |
| `TaskLaws.StatusesPartition` | internal/task/task.go:164-172 | the three status filters together list every task exactly once by count |
| `ListCommand.FilterWord` | cmd/list.go:21-35 | a status is selected only when there is a word and, lower-cased, it is that status's name |
| `ListCommand.FilterWordNamesStatus` | cmd/list.go:21-35 | the word selects status s exactly when, lower-cased, it is s's name; a missing or other word selects nothing |
| `ListCommand.LongestDescription` | cmd/list.go:56-60 | the width bounds every description length, is the length of some description, and is 0 for no tasks |
| `ListCommand.ColumnWidth` | cmd/list.go:52-68 | the measuring loop returns the longest description length; the status width it also computes does not reach the result |
| `ListCommand.FormatTasks` | cmd/list.go:48-80 | the formatter's output is the table of the tasks, one row per task in input order |
| `ListCommand.WriteRow` | cmd/list.go:72-77 | writing one task appends exactly its row |
| `ListCommand.SpacesAreBlank` | cmd/list.go:73-75 | the padding is the requested number of space characters |
| `ListCommand.RowLayout` | cmd/list.go:72-77 | a row is the description verbatim, spaces up to column width + 2 (at least two), then the status name and a newline, so the status column starts at the same offset on every row |
| `ListCommand.RowsStep` | cmd/list.go:71-78 | each pass of the writing loop appends the next task's row |
| `ListCommand.RowsPrefix` | cmd/list.go:71-78 | the rows of the first n tasks are a prefix of the whole output |
| `ListCommand.TableRow` | cmd/list.go:71-79 | the k-th task's row appears in the output right after the rows of the tasks before it |
| `ListCommand.OneLinePerTask` | cmd/list.go:71-79 | with no line break inside descriptions, the output has exactly one newline per task, and it is empty for no tasks |

## Left out

- Persistence (internal/task/fs.go): the JSON encoding, `os.ReadFile`,
  `os.WriteFile` and `deleteFile` are not modelled. The save file is the value
  `SaveFile`, and the load/save round trip is the identity on it.
- Write failures of `save` are not modelled: a save always succeeds. In the
  source, Add still returns the new id when the save fails (task.go:82-84).
- Error texts built with `fmt.Errorf` are not modelled. Only NotFound versus
  load failure is kept.
- Time: `time.Time`, the clock function and RFC 3339 text are replaced by a
  `nat` reading passed as `now`.
- Tasks.UpdateMatching: the source calls the clock once per matching task, so
  duplicates of an id could get different update times; the model uses one
  reading per call.
- Configuration by functional options (`WithSavePath`, `WithTimeFunction`,
  task.go:43-55) and the `Tasker` interface (task.go:9-15) are not modelled.
  The constructor takes the save file's contents.
- Ids are unbounded: the int64 overflow of `maxID + 1` is not modelled.
- Status is the three named values. Go's `Status` is an `int`, and Mark would
  store any integer.
- String lengths are counted in characters, and lower-casing is ASCII only.
  The source uses byte lengths and Unicode `strings.ToLower`; these agree on
  ASCII text.
- The rest of `handleList` is not modelled: the usage message, the printing,
  and the "Tasks:" header that it writes to a builder and never prints
  (cmd/list.go:12-19, 37-45). The other commands (cmd/add.go, update.go,
  delete.go, mark.go, main.go) and internal/cli/help.go are not modelled.
- Cross-process races on the save file are not modelled.
