# Task and project manager core, modelled in Dafny

The application keeps three in-memory record stores: tasks, projects and
categories. Each store is an array of records keyed by an integer `Id`. The
stores offer lookup, max+1 id creation with defaults, patch-merging update,
deletion and filter queries. The React pages and widgets derive every view
from these arrays:

- the task page's main-task list, tab counts and progress figure;
- the Kanban columns and the drop guard;
- the dashboard's statistics and "recent" lists;
- the project list's filter and sort;
- the two forms' checks and payloads;
- the calendar's day buckets, colours and month grid;
- the task card's badge, due-date label, warnings and subtask counter.

The model is functional:

- Each store is an immutable `seq` of a record datatype (`records.dfy`).
- Each service operation is a pure function that returns the new store together with the operation's result or sentinel (`null` becomes `None`, `false` stays `false`).
- The current instant `now` (milliseconds since the epoch) is a parameter.
- Calendar dates (`"yyyy-MM-dd"`) are day numbers since 1970-01-01. A date string parses to the UTC midnight of its day (`Dates.Midnight`).
- A project's `startDate` and `progress` are optional: an edit can store an empty start date or a `NaN` progress, and `None` stands for each.
- JavaScript's `x || default` treats `""`, `0` and `null` as missing; `Text.OrElse` and the `Option` fields say where this happens.

Modules follow the program's structure:

- Generic parts:
  - `Wrappers`: `Option`.
  - `Seqs`: `Array.prototype.filter`, `slice`, and a stable descending sort.
  - `Store`: id lookup, next id and splice.
  - `Text`: ASCII lower-casing, `includes`, `trim`, `parseInt`.
  - `Dates`: days, instants, weeks.
  - `Percent`: the rounded percentage.
- The three services: `TaskStore`, `ProjectStore`, `CategoryStore`.
- One module per page or widget: `TaskManagerView`, `Kanban`, `Dashboard`, `ProjectsView`, `TaskForm`, `ProjectForm` (with `FormRules`, the text-field rule both forms share), `Calendar` and `TaskCard`.

The code has several gaps, and the model keeps them as written:

- The task service's `create` never copies `parentId` or `status`, so a subtask created from the task page is stored as a main task (`TaskManagerView.SubtaskIsStoredAsMainTask`).
- Deleting a task never touches its subtasks.
- Completing a subtask never updates its parent.
- The Kanban board calls a `updateTaskStatus` that the task service does not define, so every drop that passes the guard ends in the error toast. The model stops at the requested status change (`Kanban.HandleDrop`).
- The dashboard counts a task due today as overdue once the day has begun. The card and the board do not (`Dashboard.DueTodayCountsAsOverdue`).

## Model

| member | source | states |
|---|---|---|
| Store.NextId | src/services/api/taskService.js:21-23 | the new id is 1 for an empty store, exceeds every stored id and is one more than some stored id |
| TaskStore.GetById | src/services/api/taskService.js:13-17 | `null` exactly when no task has the id; otherwise a stored task with that id |
| TaskStore.Create | src/services/api/taskService.js:19-37 | the store gains exactly the new task at the end; its id is max+1 (1 when empty); title, due date and a truthy `projectId` are copied, description, priority and category are copied unless missing or empty, then "", "medium" and "Personal"; it is open with no `completedAt`, no parent and no status, stamped `now`; a falsy `projectId` becomes `null` |
| TaskStore.CreateDefaults | src/services/api/taskService.js:22-33 | a bare title gets description "", priority "medium", no due date, category "Personal", no project |
| TaskStore.CreateIgnoresParentAndStatus | src/services/api/taskService.js:22-33 | a `parentId` or `status` in the input has no effect at all on the result |
| TaskStore.CreateKeepsIdsUnique | src/services/api/taskService.js:21-23 | creating a task in a store with unique ids keeps them unique |
| TaskStore.CreateThenGet | src/services/api/taskService.js:13-37 | looking up the new id after `create` finds the created task |
| TaskStore.CreateThenDelete | src/services/api/taskService.js:19-66 | deleting the id just created returns `true` and restores the earlier store exactly |
| TaskStore.Update | src/services/api/taskService.js:39-56 | `null` and no change exactly when the id is absent; otherwise the first match is replaced in place with `Id` re-pinned; with `completed` in the patch, `completedAt` is set iff the task is completed and is re-stamped `now`; without it, `completedAt` comes from the patch or the old record |
| TaskStore.UpdateMerges | src/services/api/taskService.js:44-52 | for a stored id the returned task is the stored one with every field the patch names overwritten and every other kept; `completedAt` is `now` or `null` by the patched `completed`, and otherwise patched or kept |
| TaskStore.UpdateIgnoresPatchId | src/services/api/taskService.js:44-48 | an `Id` carried by the patch has no effect |
| TaskStore.UpdateEmptyPatch | src/services/api/taskService.js:39-56 | an empty patch changes nothing and returns the stored task |
| TaskStore.UpdateThenGet | src/services/api/taskService.js:13-56 | looking the id up after an update returns the updated record |
| TaskStore.UpdateIdempotent | src/services/api/taskService.js:39-56 | applying the same patch twice at the same instant equals applying it once |
| TaskStore.UpdateKeepsIdsUnique | src/services/api/taskService.js:44-48 | updating keeps unique ids unique |
| TaskStore.Delete | src/services/api/taskService.js:58-66 | `false` and no change exactly when the id is absent; otherwise one record with the id is removed, the rest keep their order, and every task with another id stays |
| TaskStore.DeleteKeepsSubtasks | src/services/api/taskService.js:58-66 | a task whose `parentId` names the deleted task survives the delete |
| TaskStore.DeleteRemovesId | src/services/api/taskService.js:58-66 | with unique ids, no task with the id remains after `delete` |
| TaskStore.GetByStatus | src/services/api/taskService.js:68-73 | exactly the tasks with the given `completed` flag, in store order |
| TaskStore.GetByStatusPartition | src/services/api/taskService.js:68-73 | the done and open queries together count every task once |
| TaskStore.Search | src/services/api/taskService.js:75-84 | exactly the tasks whose lower-cased title or description contains the lower-cased query, in store order |
| TaskStore.SearchIgnoresQueryCase | src/services/api/taskService.js:77 | two queries that lower-case alike give the same result |
| TaskStore.SearchEmptyFindsAll | src/services/api/taskService.js:75-84 | the empty query returns the whole store |
| ProjectStore.GetById | src/services/api/projectService.js:13-17 | `null` exactly when no project has the id; otherwise a stored project with it |
| ProjectStore.Create | src/services/api/projectService.js:19-38 | the project is appended with id max+1 (1 when empty); name and due date are copied; description, status, priority and colour are copied unless missing or empty, then "", "active", "medium" and "#4F46E5"; the start date is copied, or today when missing; progress is always 0; `createdAt` and `updatedAt` are both `now` |
| ProjectStore.CreateDefaults | src/services/api/projectService.js:24-30 | a bare name gets description "", status "active", priority "medium", no due date, colour "#4F46E5", start date today |
| ProjectStore.CreateIgnoresProgress | src/services/api/projectService.js:31 | a progress in the input has no effect |
| ProjectStore.CreateKeepsIdsUnique | src/services/api/projectService.js:21-23 | creating keeps unique ids unique |
| ProjectStore.CreateThenGet | src/services/api/projectService.js:13-38 | looking up the id of a project just created returns that project |
| ProjectStore.CreateThenDelete | src/services/api/projectService.js:19-64 | deleting the project just created restores the store and returns `true` |
| ProjectStore.Update | src/services/api/projectService.js:40-54 | `null` and no change exactly when the id is absent; otherwise the record is replaced in place with `Id` re-pinned and `updatedAt` set to `now` |
| ProjectStore.UpdateMerges | src/services/api/projectService.js:45-50 | for a stored id the returned project is the stored one with every field the patch names overwritten and every other kept, except that `updatedAt` is always `now` |
| ProjectStore.UpdateIgnoresPatchStamps | src/services/api/projectService.js:45-50 | an `updatedAt` or `Id` in the patch has no effect |
| ProjectStore.UpdateEmptyPatchTouchesOnlyStamp | src/services/api/projectService.js:40-54 | an empty patch changes only `updatedAt` |
| ProjectStore.UpdateKeepsIdsUnique | src/services/api/projectService.js:45-50 | updating keeps unique ids unique |
| ProjectStore.Delete | src/services/api/projectService.js:56-64 | `false` and no change exactly when the id is absent; otherwise one matching record is removed and the rest keep their order |
| ProjectStore.GetByStatus | src/services/api/projectService.js:66-71 | exactly the projects with the given status, in store order |
| ProjectStore.Search | src/services/api/projectService.js:73-82 | exactly the projects whose lower-cased name or description contains the lower-cased query, in store order |
| ProjectStore.SearchIgnoresQueryCase | src/services/api/projectService.js:75 | two queries that lower-case alike give the same result |
| CategoryStore.GetById | src/services/api/categoryService.js:13-17 | `null` exactly when no category has the id; otherwise a stored category with it |
| CategoryStore.Create | src/services/api/categoryService.js:19-31 | the category is appended with id max+1 (1 when empty); `taskCount` is 0; the colour is the given one unless that is missing or empty, then "#7C3AED" |
| CategoryStore.CreateIgnoresTaskCount | src/services/api/categoryService.js:22-27 | a task count in the input has no effect |
| CategoryStore.CreateKeepsIdsUnique | src/services/api/categoryService.js:21-23 | creating keeps unique ids unique |
| CategoryStore.CreateThenGet | src/services/api/categoryService.js:13-31 | looking up the new id finds the created category |
| CategoryStore.Update | src/services/api/categoryService.js:33-46 | `null` and no change exactly when the id is absent; otherwise the record is replaced in place with `Id` re-pinned |
| CategoryStore.UpdateMerges | src/services/api/categoryService.js:38-42 | patched fields win, the others come from the stored record, and no timestamp is added |
| CategoryStore.UpdateEmptyPatch | src/services/api/categoryService.js:33-46 | an empty patch changes nothing |
| CategoryStore.UpdateKeepsIdsUnique | src/services/api/categoryService.js:38-42 | updating keeps unique ids unique |
| CategoryStore.Delete | src/services/api/categoryService.js:48-56 | `false` and no change exactly when the id is absent; otherwise one matching record is removed and every other category stays |
| CategoryStore.DeleteRemovesId | src/services/api/categoryService.js:48-56 | with unique ids, the id is gone after `delete` |
| TaskManagerView.FilteredTasks | src/components/pages/TaskManager.jsx:131-152 | a task is listed iff it is a main task (falsy `parentId`), passes the tab ("active" open, "completed" done, else all) and matches a non-empty query; the order of the page's task array is kept |
| TaskManagerView.AllTabIsStoreSearch | src/components/pages/TaskManager.jsx:131-152 | on the "all" tab the page's list is the service's `search` over main tasks |
| TaskManagerView.GetTaskCounts | src/components/pages/TaskManager.jsx:154-162 | `all` counts main tasks, `active + completed == all`, and each count is the length of its tab's list |
| TaskManagerView.ProgressPercent | src/components/pages/TaskManager.jsx:246 | the figure lies in 0..100, is 0 with no main tasks or none done, and 100 when every main task is done |
| TaskManagerView.HasSubtasks | src/components/pages/TaskManager.jsx:112 | true iff some task's `parentId` equals the id |
| TaskManagerView.CreateNeverAddsSubtask | src/components/pages/TaskManager.jsx:46-53 | creating any task leaves every task's has-subtasks answer unchanged |
| TaskManagerView.SubtaskIsStoredAsMainTask | src/components/pages/TaskManager.jsx:46-53 | a subtask created from the page keeps its title but is stored as a main task, shows in the main list, and gives its parent no subtask |
| TaskManagerView.CreateInput | src/components/pages/TaskManager.jsx:46-53 | the form's fields reach `create` unchanged, with `parentId` the parent's id exactly when a subtask is being created and no project, status or completion |
| TaskManagerView.DeleteLeavesSubtasks | src/components/pages/TaskManager.jsx:110-124 | after deleting a parent its subtasks still point at it |
| TaskManagerView.ToggleComplete | src/components/pages/TaskManager.jsx:88-95 | an unknown id changes nothing; otherwise only the first matching task changes: its flag flips and `completedAt` becomes `now` when it becomes done, `null` when reopened |
| TaskManagerView.ToggleTwice | src/components/pages/TaskManager.jsx:88-95 | toggling twice restores the flag and every field except `completedAt`, and no other task changes |
| Kanban.ColumnTasks | src/components/organisms/KanbanBoard.jsx:41-48 | not-started holds tasks with a blank or "not-started" status; in-progress holds status "in-progress"; completed holds done tasks or status "completed"; any other column is empty; store order is kept |
| Kanban.CompletedInProgressShownTwice | src/components/organisms/KanbanBoard.jsx:44-45 | a done task with status "in-progress" appears in two columns, so the columns are not a partition |
| Kanban.UnknownStatusShownNowhere | src/components/organisms/KanbanBoard.jsx:41-48 | an open task whose status is set to anything but "", "not-started", "in-progress" or "completed" is in no column of any board |
| Kanban.HandleDrop | src/components/organisms/KanbanBoard.jsx:70-91 | with nothing dragged, with the same status, with a done task on "completed", or with a blank status on "not-started", the drop is ignored; otherwise it requests that task's move to the column |
| Kanban.DropIgnoredIffAlreadyInColumn | src/components/organisms/KanbanBoard.jsx:75-79 | for the three board columns a drop is ignored iff the task is already shown in that column |
| Kanban.FormatDueDate | src/components/organisms/KanbanBoard.jsx:107-112 | no label without a date; "Today" iff due today; otherwise the date, never "Tomorrow" |
| Dashboard.GetProjectStats | src/components/pages/Dashboard.jsx:42-53 | each count is the service's status query length, and active + completed + planning never exceeds the total |
| Dashboard.ProjectStatsCoverAll | src/components/pages/Dashboard.jsx:43-51 | when every project is active, completed or planning, the three counts add up to the total |
| Dashboard.GetTaskStats | src/components/pages/Dashboard.jsx:55-69 | active + completed == total; completed is the service's done query length; overdue counts open dated tasks whose day began before `now` and never exceeds active |
| Dashboard.DashboardOverdue | src/components/pages/Dashboard.jsx:58-61 | only open dated tasks due no later than today count; every earlier day counts; a task due today counts once the day's first millisecond has passed |
| Dashboard.DueTodayCountsAsOverdue | src/components/pages/Dashboard.jsx:58-61 | an open task due today counts as overdue after midnight, though the card does not mark it overdue |
| Dashboard.CardOverdueIsDashboardOverdue | src/components/pages/Dashboard.jsx:58-61 | every open task the card marks overdue is counted overdue |
| Dashboard.RecentProjects | src/components/pages/Dashboard.jsx:71-76 | at most 3 active projects, each at most as often as it is stored, newest `updatedAt` first, as many as there are up to 3, and no omitted active project is newer than a shown one; among equal `updatedAt` the earliest stored are taken, in store order |
| Dashboard.RecentTasks | src/components/pages/Dashboard.jsx:78-83 | at most 5 open tasks, each at most as often as it is stored, newest `createdAt` first, as many as there are up to 5, and no omitted open task is newer than a shown one; among equal `createdAt` the earliest stored are taken, in store order |
| Dashboard.CompletionPercent | src/components/pages/Dashboard.jsx:171 | lies in 0..100; 0 with no tasks or none done; 100 when all are done |
| Dashboard.StatsExtremes | src/components/pages/Dashboard.jsx:55-69 | with no task done the done count is 0; with every task done it is the total |
| Percent.RoundedPercent | src/components/pages/Dashboard.jsx:171 | `Math.round(100 * part / whole)` with halves rounded up, stated as the rounding bracket; 0 for an empty whole |
| ProjectsView.FilteredProjects | src/components/pages/Projects.jsx:83-101 | a project is listed iff it passes the status filter ("all" keeps every one) and a non-empty query; newest `updatedAt` first, projects with equal `updatedAt` in their array order; each selected project exactly as often as it occurs |
| ProjectsView.EqualStampsKeepStoreOrder | src/components/pages/Projects.jsx:100 | when every project has the same `updatedAt`, the unfiltered page shows them exactly in store order |
| ProjectsView.EditPatch | src/components/pages/Projects.jsx:54-58 | every field of the edit form's payload is patched, including an empty start date and a NaN progress; no id or stamps are sent |
| ProjectsView.ClearedEditReopensWithDefaults | src/components/pages/Projects.jsx:54-58 | saving an edit with a cleared start date and digit-less progress stores neither, and reopening the form shows today and 0 instead |
| ProjectsView.NoFilterIsPermutation | src/components/pages/Projects.jsx:83-101 | with no filter the list is a reordering of all projects |
| ProjectsView.StatusTabIsStoreQuery | src/components/pages/Projects.jsx:87-89 | a status filter alone lists the same projects as the service's status query |
| ProjectsView.SearchIsStoreSearch | src/components/pages/Projects.jsx:92-98 | a query alone lists the same projects as the service's `search` |
| Seqs.SortDesc | src/components/pages/Projects.jsx:100 | the sort returns a reordering of its input with keys non-increasing, and keeps the input order among elements with equal keys (a stable sort) |
| Seqs.SortDescAllTied | src/components/pages/Projects.jsx:100 | when all keys are equal, the sort returns its input unchanged |
| FormRules.TextFieldError | src/components/molecules/TaskForm.jsx:24-30 | no error iff the trimmed text is non-empty and the untrimmed JavaScript length (UTF-16 code units) is at most 100; "too long" iff that length is over 100; "required" iff all whitespace within the limit |
| FormRules.LongBlankIsTooLong | src/components/molecules/ProjectForm.jsx:27-33 | the "too long" message replaces "required" for long all-whitespace text |
| FormRules.AstralTextCountsTwice | src/components/molecules/TaskForm.jsx:28 | more than 50 characters outside the Basic Multilingual Plane (emoji, say) are already too long |
| Text.Utf16Length | src/components/molecules/TaskForm.jsx:28 | JavaScript `length` lies between the character count and twice it; it equals the character count iff no character is astral, and twice it iff all are |
| TaskForm.InitialForm | src/components/molecules/TaskForm.jsx:11-17 | a new form is empty with priority "medium", no date and the default category; an edit form takes the task's title, description and date, its priority unless empty (then "medium") and its category unless empty (then the default) |
| TaskForm.Validate | src/components/molecules/TaskForm.jsx:21-34 | no error iff the trimmed title is non-empty and the title's JavaScript length is at most 100 |
| TaskForm.DefaultCategory | src/components/molecules/TaskForm.jsx:16 | the first category's name when it exists and is non-empty, otherwise "Personal" |
| TaskForm.Submit | src/components/molecules/TaskForm.jsx:36-62 | rejected iff the check records an error; otherwise the payload has trimmed title and description, other fields as entered, a title of 1..100 characters; a create resets the form, an edit keeps it |
| TaskForm.PayloadRevalidates | src/components/molecules/TaskForm.jsx:21-46 | a submitted payload passes the check again |
| TaskForm.SubmitIdempotent | src/components/molecules/TaskForm.jsx:36-62 | resubmitting a payload yields the same payload |
| ProjectForm.InitialForm | src/components/molecules/ProjectForm.jsx:11-20 | a new form has status "planning", priority "medium", colour "#4F46E5", progress 0, start today; an edit form takes the project's name, description and due date, its start date unless empty (then today), its progress unless NaN or 0 (then 0), and its status, priority and colour unless empty (then "planning", "medium", "#4F46E5") |
| ProjectForm.Validate | src/components/molecules/ProjectForm.jsx:24-41 | no errors iff the name passes the text rule and the due date is not before the start date |
| ProjectForm.Submit | src/components/molecules/ProjectForm.jsx:43-73 | rejected iff an error is recorded; otherwise the name and description are trimmed, progress is `parseInt`ed, the other fields are as entered, and the start is never after the due date; a create resets the form, an edit keeps it |
| ProjectForm.ParsedProgress | src/components/molecules/ProjectForm.jsx:52 | a pre-filled number passes unchanged; typed text goes through `parseInt` |
| ProjectForm.SameDayOrNoStartAccepted | src/components/molecules/ProjectForm.jsx:35-37 | with equal dates, or no start date, the form is accepted iff the name passes the text rule |
| ProjectForm.EditKeepsProgress | src/components/molecules/ProjectForm.jsx:19-52 | submitting an untouched edit form keeps the project's progress; a stored NaN is submitted as 0 |
| ProjectForm.TypedProgressNaN | src/components/molecules/ProjectForm.jsx:52 | typed progress reaches the payload as NaN exactly when no digits follow its leading whitespace and sign |
| Text.Trim | src/components/molecules/TaskForm.jsx:44-45 | the result is a slice of the input with only whitespace cut from both ends, and it neither starts nor ends with whitespace |
| Text.TrimEmptyIffBlank | src/components/molecules/TaskForm.jsx:24 | text trims to empty iff it is all whitespace |
| Text.TrimIdempotent | src/components/molecules/TaskForm.jsx:44-45 | trimming twice equals trimming once |
| Text.ParseInt | src/components/molecules/ProjectForm.jsx:52 | NaN iff no digits follow the leading whitespace and sign |
| Text.ParseIntReads | src/components/molecules/ProjectForm.jsx:52 | for whitespace, an optional sign, a non-empty digit run and a rest not starting with a digit, the value is the digits' value (leading zeros allowed), negated for "-"; "1.5" reads 1 and "  12abc" reads 12 |
| Text.ParseIntDecimal | src/components/molecules/ProjectForm.jsx:52 | parsing a number's decimal form gives the number back |
| Text.Includes | src/services/api/taskService.js:80-81 | true iff the needle occurs at some position of the haystack |
| Text.MatchIgnoresQueryCase | src/services/api/taskService.js:77-81 | matching depends on the query only through its lower-cased form |
| Calendar.TasksForDate | src/components/organisms/CalendarView.jsx:21-27 | exactly the tasks due on the day, in store order; undated tasks never appear |
| Calendar.StatusColour | src/components/organisms/CalendarView.jsx:29-35 | green iff done; red-500 iff open and past due; otherwise red-400, yellow-400 or blue-400 by priority high, medium or other |
| Calendar.RedIffDashboardOverdue | src/components/organisms/CalendarView.jsx:29-35 | for every task shown on a day, red-500 coincides with the dashboard's overdue test |
| Calendar.UndatedOpenTaskIsRed | src/components/organisms/CalendarView.jsx:31 | an open task whose due date is `null` counts as past due, because `new Date(null)` is the epoch; the calendar never reaches this, since only dated tasks are placed on days |
| Calendar.GridDays | src/components/organisms/CalendarView.jsx:52-64 | the grid is every consecutive day from the Sunday on or before the first day to the Saturday on or after the last; it spans whole weeks, each row runs Sunday to Saturday, and it covers the month |
| Calendar.WeekOf | src/components/organisms/CalendarView.jsx:132-140 | the week view is the seven days Sunday to Saturday around the day |
| Calendar.CellFor | src/components/organisms/CalendarView.jsx:103-121 | the first min(3, count) tasks are shown, in order; "+n more" appears only above three, with n the count minus three |
| Calendar.CellAccountsForAll | src/components/organisms/CalendarView.jsx:103-121 | the shown tasks followed by the n hidden ones give back the day's list |
| Dates.IsOverdue | src/components/molecules/TaskCard.jsx:35-38 | overdue iff there is a due date and its day is before today (the board's `isOverdue` at src/components/organisms/KanbanBoard.jsx:102-105 is the same test) |
| Dates.IsDueToday | src/components/molecules/TaskCard.jsx:30-33 | due today iff the due day is today; such a date is never overdue |
| TaskCard.PriorityBadge | src/components/molecules/TaskCard.jsx:10-17 | "high" and "low" get their own badges; every other value gets the medium badge |
| TaskCard.DueLabelOf | src/components/molecules/TaskCard.jsx:19-28 | no label without a date; "Today" iff due today; "Tomorrow" iff due the next day; otherwise the date |
| TaskCard.DueTodayNotOverdue | src/components/molecules/TaskCard.jsx:30-38 | no date is both due today and overdue |
| TaskCard.OverdueShowsDate | src/components/molecules/TaskCard.jsx:19-38 | an overdue card is labelled with its date |
| TaskCard.BoardAndCardLabels | src/components/molecules/TaskCard.jsx:19-28 | the card and the board label a date alike except that only the card says "Tomorrow" |
| TaskCard.SubtaskCounter | src/components/molecules/TaskCard.jsx:125-139 | shown iff there are subtasks; total is their number and done the number completed; done never exceeds total, and they are equal iff every subtask is done |

## Left out

- Persistence (`saveToStorage`, `localStorage`, the JSON seed data) is left out. Each store is an explicit value.
- The `delay` latency and `await` are left out. Every operation is one atomic step.
- `getAll` is left out. Under value semantics it returns the store itself, and the defensive copies it makes are invisible.
- `parseInt` coercion of ids is left out. Ids are integers throughout.
- `getTasksByProject` is called by the project detail page but defined in no service. ProjectDetail.jsx is not part of this model.
- `updateTaskStatus` is called by the board but not defined. The model stops at `Kanban.HandleDrop`'s requested change.
- The task list passes no `subtasks` to the card, so the card's counter never appears in the application. `TaskCard.SubtaskCounter` models the card on its own.
- Dates are UTC day numbers. Local time zones, `date-fns` internals and the "MMM d" format string are left out.
- `now` is one value per operation. A project's `createdAt` and `updatedAt` come from two clock reads in the code, which the model treats as one instant.
- `Text.Utf16Length`: strings are sequences of Unicode scalar values, so a JavaScript string holding a lone surrogate cannot be written down. Well-formed text is counted exactly as JavaScript's `length` counts it.
- `Calendar.DueInstant`: an `undefined` due date, which JavaScript turns into an Invalid Date, is left out. `None` stands for `null`.
- Lower-casing is ASCII only. `toLowerCase` on other scripts is left out.
- `Text.ParseInt`: decimal digits only. Hexadecimal prefixes and values beyond 2^53 are left out.
- `Percent.RoundedPercent`: exact rational rounding. Floating-point error in `(part / whole) * 100` is left out.
- `TaskCard.PriorityBadge`: does not model priority strings that name inherited object properties (such as "constructor").
- `TaskStore.Update`: a patch key present with the value `undefined` is treated as absent.
- `TaskManagerView.FilteredTasks`: the page puts a newly created task (and project) at the front of its own array until the next reload, while the store appends it; the model filters the array it is given and does not model the page's array between reloads.
- `ProjectsView.FilteredProjects`: the in-place `sort` of the page's state array when no filter applies is a side effect the model does not carry.
- `Kanban.ColumnTasks`: the board's card also shows `task.subtasks`, which no service fills in, so it is left out.
- Form input plumbing (`handleChange`, clearing errors while typing) is left out, along with the error message texts beyond which field failed.
- The month and week boundaries (`startOfMonth`, `endOfMonth`) are parameters of `Calendar.GridDays`.
- Rendering, animation, routing, toasts and `confirm` dialogs are left out, as are the purely presentational components.
