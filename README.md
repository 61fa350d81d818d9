# Task manager core in Dafny

A model of the logic behind a browser to-do manager. The model has three parts:

- two mock stores, one for tasks and one for lists, each an in-memory array changed in place;
- the screen that shows tasks: its filter-and-sort pipeline (`getFilteredTasks`) and its handlers, which update the screen's own copy of the tasks only after the store call succeeds;
- the archive screen, the task form, the filter bar and the progress bar.

Module layout:

| module | file | models |
|---|---|---|
| `Wrappers` | wrappers.dfy | `Option` and `Result` |
| `Seqs` | seqs.dfy | `Array.prototype.filter`, `findIndex`/`find`, `splice(i, 1)` and counting |
| `Tasks` | tasks.dfy | the task record, the object spread `{ ...task, ...patch }`, and replace/remove by id |
| `TaskStore` | task_service.dfy | `TaskService` (src/services/api/taskService.js) |
| `ListStore` | list_service.dfy | `ListService` (src/services/api/listService.js) |
| `Text` | text.dfy | `trim`, `toLowerCase`, `includes`, `split('T')[0]`, and number-to-text for counts |
| `Filters` | filters.dfy | the filter criteria, `handleFilterChange`, `clearFilters`, `hasActiveFilters` and the result-count label |
| `ViewEngine` | view_engine.dfy | `getFilteredTasks`: six filter steps, a three-key sort, and `completedCount` |
| `Progress` | progress.dfy | the progress bar's rounded percentage |
| `TaskForm` | task_form.dfy | the add/edit form: defaults, prefill, validation, submit and field edits |
| `TaskCollection` | task_collection.dfy | the task screen: `loadTasks` and the `handle*` handlers |
| `Archive` | archive.dfy | the archive screen: load, restore, delete, clear, and its header |

Several screen files exist twice, almost line for line, as an older and a newer copy. Each pair has one model. The table below cites one copy for each member, and the other copy has the same logic at these lines:

- src/components/MainFeature.jsx:35-119 and src/components/organisms/TaskManagementSection.jsx:36-120 (the handlers);
- src/components/MainFeature.jsx:121-181 and src/components/organisms/TaskManagementSection.jsx:122-182 (the view and `completedCount`);
- src/pages/Archive.jsx:20-73 and src/components/organisms/ArchivedTaskList.jsx:22-75 (the archive handlers);
- src/components/TaskForm.jsx:6-55 and src/components/organisms/TaskFormModal.jsx:9-58 (the form);
- src/components/FilterBar.jsx:6-21 and src/components/organisms/FilterSection.jsx:9-24 (the filter helpers).

How the model is built:

- **Stores.** Each store is a class with a `seq` field. Every method's `ensures` states the whole new store. For a missing id, `update` and `delete` return a `Failure` carrying the store's exact message and leave the store unchanged. `findIndex` is a loop (`Seqs.FindIndex`) proved equal to a recursive definition (`Seqs.FirstIndex`).
- **Failed calls.** A store call can also fail on the way, for example on the network. Each screen handler takes a `Link` argument: `Up` means the call reaches the store, and `Down(message)` means the promise rejects. The screens' own state changes only on success.
- **Inputs from outside.** Clock readings, generated ids and `new Date(...)` parsing are parameters. `window.confirm` is a boolean argument.
- **Clear archive.** The batch `Promise.all` of deletes is a loop that issues every delete in order. `Archive.DeleteEach` is its specification.

## Model

| member | source | states |
|---|---|---|
| Seqs.Filter | src/services/api/taskService.js:59-62 | `filter` keeps exactly the elements that satisfy the predicate, each as many times as in the input, and is never longer than the input |
| Seqs.FilterAppend | src/components/organisms/TaskManagementSection.jsx:123 | filtering keeps input order: it distributes over concatenation |
| Seqs.FilterKeepsAll | src/components/MainFeature.jsx:122-127 | a filter whose predicate holds everywhere returns the input unchanged |
| Seqs.Count | src/components/MainFeature.jsx:181 | `filter(p).length` is the length of the filtered sequence and at most the input length |
| Seqs.FirstIndex | src/services/api/taskService.js:39 | `findIndex` returns -1 exactly when no element has the key; otherwise it returns the first position that has it |
| Seqs.FindIndex | src/services/api/taskService.js:50 | the search loop finds the first position whose key matches, or -1 when none does, and agrees with `FirstIndex` |
| Seqs.RemoveAt | src/services/api/taskService.js:55 | `splice(i, 1)` keeps the elements before `i`, shifts those after it down by one, and removes one copy of the element at `i` |
| Tasks.Merge | src/services/api/taskService.js:44 | `{ ...t, ...p }`, field by field for all nine fields: a field present in the patch takes the patch value, an absent one keeps the task's value; the empty patch changes nothing |
| Tasks.FullPatch | src/components/organisms/TaskManagementSection.jsx:84-88 | spreading a whole task over any stored record gives that task |
| Tasks.ReplaceById | src/components/organisms/TaskManagementSection.jsx:71 | `map(t => t.id === id ? u : t)` keeps the length and replaces exactly the elements with that id; if all tasks and `u` are consistent, so is the result |
| Tasks.RemoveById | src/components/organisms/TaskManagementSection.jsx:99 | `filter(t => t.id !== id)` keeps exactly the tasks with other ids, each with its multiplicity, and the result is a sub-multiset of the input |
| Tasks.ConsistentUpdated | src/components/organisms/TaskManagementSection.jsx:71 | replacing one element of a sequence of consistent tasks (`completedAt` set exactly when completed) by a consistent task keeps every task consistent |
| Tasks.ConsistentWithin | src/components/organisms/TaskManagementSection.jsx:99 | a sub-multiset of consistent tasks, such as what a removal leaves, is consistent |
| TaskStore.Stamp | src/services/api/taskService.js:26-32 | the created record is never archived, has no `completedAt` and carries the fresh `createdAt`; so it is consistent exactly when it is not completed; its id is the supplied one or else the generated one; every other supplied field is kept |
| TaskStore.DueWithin | src/services/api/taskService.js:66-70 | the date-range test holds exactly for a task with a due date that parses to an instant between both bounds inclusive; with the bounds crossed no task passes |
| TaskStore.TaskService.constructor | src/services/api/taskService.js:6-8 | the store starts as the seed data |
| TaskStore.TaskService.GetAll | src/services/api/taskService.js:10-13 | returns the store as it is, in order, and changes nothing |
| TaskStore.TaskService.GetById | src/services/api/taskService.js:15-22 | fails with "Task not found" exactly when no task has the id; otherwise returns the first task with it |
| TaskStore.TaskService.Create | src/services/api/taskService.js:24-35 | the stamped record goes to index 0 and every old record moves up one place unchanged; a lookup of the new id finds it first |
| TaskStore.TaskService.Update | src/services/api/taskService.js:37-46 | a missing id fails and leaves the store unchanged; otherwise only the first match changes, to the merge of record and patch, which is also returned |
| TaskStore.TaskService.Delete | src/services/api/taskService.js:48-57 | a missing id fails and leaves the store unchanged; otherwise exactly the first match is spliced out and `true` is returned |
| TaskStore.TaskService.GetByList | src/services/api/taskService.js:59-62 | exactly the tasks of the list, in store order |
| TaskStore.TaskService.GetByDateRange | src/services/api/taskService.js:64-71 | tasks due within both bounds inclusive, in store order; a task without a due date or with an unparsable one is never returned |
| TaskStore.TaskService.GetCompleted | src/services/api/taskService.js:73-76 | exactly the completed tasks, in store order |
| TaskStore.TaskService.GetArchived | src/services/api/taskService.js:78-81 | exactly the archived tasks, in store order |
| TaskStore.DeleteUndoesCreate | src/services/api/taskService.js:33-55 | deleting the record just created finds it at index 0 and gives back the store as it was |
| ListStore.MergeList | src/services/api/listService.js:42 | `{ ...l, ...p }` on a list: a present field wins, an absent one is kept |
| ListStore.ListService.constructor | src/services/api/listService.js:6-8 | the store starts as the seed data |
| ListStore.ListService.GetAll | src/services/api/listService.js:10-13 | returns the store as it is and changes nothing |
| ListStore.ListService.GetById | src/services/api/listService.js:15-22 | fails with "List not found" exactly when no list has the id; otherwise returns the first list with it |
| ListStore.ListService.Create | src/services/api/listService.js:24-33 | appends; the new list's `sortOrder` is the count before insertion, whatever was supplied |
| ListStore.ListService.Update | src/services/api/listService.js:35-44 | a missing id fails and leaves the store unchanged; otherwise only the first match is merged with the patch |
| ListStore.ListService.Delete | src/services/api/listService.js:46-55 | a missing id fails and leaves the store unchanged; otherwise exactly the first match is removed |
| ListStore.AppendKeepsOrder | src/services/api/listService.js:29-31 | lists created only through `create` have each `sortOrder` equal to the list's position |
| Text.TrimStart | src/components/TaskForm.jsx:28 | the result is a suffix of the input; it is empty exactly when the input is all whitespace; otherwise it starts with a non-space |
| Text.TrimStartDropsSpaces | src/components/TaskForm.jsx:28 | everything the leading trim removes is whitespace |
| Text.TrimEnd | src/components/TaskForm.jsx:28 | the result is a prefix of the input and everything removed after it is whitespace; it is empty exactly when the input is all whitespace; otherwise it ends with a non-space |
| Text.Trim | src/components/TaskForm.jsx:28 | `trim()` is a contiguous slice of the string with only whitespace before it and only whitespace after it; it is empty exactly when the string is all whitespace; otherwise it starts and ends with a non-space |
| Text.TrimBordered | src/components/TaskForm.jsx:28 | the slice that `trim()` keeps starts where the leading whitespace ends and is followed by whitespace only |
| Text.TrimIdempotent | src/components/TaskForm.jsx:43 | trimming twice is trimming once |
| Text.LowerChar | src/components/organisms/TaskManagementSection.jsx:148 | an upper-case ASCII letter maps to the letter 32 code points higher, its lower-case form; every other character is kept; no result is upper-case |
| Text.ToLower | src/components/organisms/TaskManagementSection.jsx:148 | `toLowerCase` maps every character on its own and keeps the length |
| Text.ToLowerIdempotent | src/components/MainFeature.jsx:147 | lower-casing twice is lower-casing once |
| Text.Includes | src/components/organisms/TaskManagementSection.jsx:148 | `includes` holds exactly when the needle occurs at some position of the haystack |
| Text.DatePart | src/components/TaskForm.jsx:19 | `split('T')[0]` is the longest prefix that contains no 'T' |
| Text.DatePartIdempotent | src/components/organisms/TaskFormModal.jsx:22 | cutting a date at 'T' twice is cutting it once |
| Text.DatePartOfTFree | src/components/organisms/TaskManagementSection.jsx:134 | a string without 'T' is its own date part |
| Text.DatePartShape | src/components/organisms/TaskManagementSection.jsx:134 | the date part is the whole string or is followed by a 'T' in it |
| Text.DatePartOfStamp | src/components/organisms/TaskManagementSection.jsx:134 | a date without 'T', alone or followed by 'T' and a time, cuts back to that date |
| Text.Decimal | src/components/FilterBar.jsx:101 | a count renders as a non-empty string of decimal digits without leading zeros: it starts with '0' only for the count 0, which renders as "0" |
| Text.DecimalRoundTrip | src/components/FilterBar.jsx:101 | reading the rendered digits back gives the count |
| Text.DecimalInjective | src/components/organisms/FilterSection.jsx:90 | two counts render alike only when they are equal |
| Text.TaskNoun | src/pages/Archive.jsx:91 | the noun is "task" exactly when the count is 1, and "tasks" otherwise |
| Filters.ApplyChange | src/components/FilterBar.jsx:6-11 | `handleFilterChange` sets exactly the named key and leaves the other two |
| Filters.HasActiveFilters | src/components/FilterBar.jsx:13-21 | `hasActiveFilters` is false exactly in the state `clearFilters` sets |
| Filters.LastChangeWins | src/components/organisms/FilterSection.jsx:9-14 | a later change of the same key overrides an earlier one |
| Filters.CountLabel | src/components/FilterBar.jsx:100-102 | the label is exactly the count's digits, a space, "task" for a count of 1 or "tasks" otherwise, and " found", followed by " (filtered)" exactly when filters are active and by nothing else |
| Filters.CountLabelInjective | src/components/organisms/FilterSection.jsx:89-91 | the label determines both the count and whether filters are active, so singular/plural and the " (filtered)" suffix follow the count and the flag |
| ViewEngine.Step | src/components/organisms/TaskManagementSection.jsx:126-128 | an inactive step keeps every task; an active one keeps exactly the passing tasks with their multiplicity |
| ViewEngine.DateTest | src/components/organisms/TaskManagementSection.jsx:130-143 | no date scope passes every task; "today" is the today test; "upcoming" is the after-now test |
| ViewEngine.DueToday | src/components/organisms/TaskManagementSection.jsx:131-135 | a task passes exactly when it has a due date that is today's date, alone or followed by 'T' and a time |
| ViewEngine.DueAfter | src/components/organisms/TaskManagementSection.jsx:136-142 | a task passes exactly when it has a due date that parses to an instant after now; a missing or invalid date never passes |
| ViewEngine.TitleMatches | src/components/organisms/TaskManagementSection.jsx:146-150 | a task passes exactly when its lower-cased title contains the lower-cased search text somewhere; an empty search passes everything |
| ViewEngine.HasPriority | src/components/organisms/TaskManagementSection.jsx:152-154 | no priority passes every task; a chosen priority passes exactly the tasks with that priority |
| ViewEngine.StatusMatches | src/components/organisms/TaskManagementSection.jsx:156-161 | "all" passes every task; "completed" passes exactly the completed tasks, "pending" exactly the others |
| ViewEngine.Stages | src/components/organisms/TaskManagementSection.jsx:122-162 | the six steps in sequence are one order-preserving filter by the single test `Shown`, so they keep exactly the tasks that pass every active test, in input order |
| ViewEngine.ShownSteps | src/components/MainFeature.jsx:121-161 | the single test `Shown` is the conjunction of the six steps' tests |
| ViewEngine.Rank | src/components/organisms/TaskManagementSection.jsx:171 | `priorityOrder`: high ranks 0, low ranks 2, medium between |
| ViewEngine.Compare | src/components/organisms/TaskManagementSection.jsx:164-178 | the comparator is 0 exactly when completion, priority and creation time all agree; otherwise the first differing key decides: incomplete first, then lower priority rank, then newer first |
| ViewEngine.CompareIsTotalPreorder | src/components/organisms/TaskManagementSection.jsx:164-178 | the comparator is antisymmetric in sign and transitive |
| ViewEngine.Insert | src/components/MainFeature.jsx:163-177 | inserting into a sorted sequence keeps it sorted and adds exactly one copy of the task |
| ViewEngine.InsertBeforeTies | src/components/MainFeature.jsx:163-177 | an inserted task goes in front of every task it ties with |
| ViewEngine.SortTasks | src/components/MainFeature.jsx:163-177 | the sort output is sorted by the comparator, is a permutation of its input, and is stable: the tasks of each tie class keep their input order |
| ViewEngine.FilteredTasks | src/components/organisms/TaskManagementSection.jsx:122-178 | the view is sorted, holds exactly the tasks that pass every active filter, each as many times as in the screen's tasks, and tasks that compare equal appear in the order they have among the screen's tasks |
| ViewEngine.SortedTiesDetermine | src/components/organisms/TaskManagementSection.jsx:164-178 | two sorted sequences whose tie classes appear in the same orders are equal |
| ViewEngine.ViewIsUnique | src/components/organisms/TaskManagementSection.jsx:122-178 | any sorted sequence whose tie classes are those of the filtered tasks, in their order, is the view: the stable sort fixes the view completely |
| ViewEngine.CompletedCount | src/components/MainFeature.jsx:180-181 | `completedCount` is the number of completed tasks in the view, so at most its length |
| ViewEngine.ViewWithinScope | src/components/organisms/TaskManagementSection.jsx:122-128 | the view is a sub-multiset of the tasks, holds no archived task, and with a list scope holds only tasks of that list |
| ViewEngine.ViewPassesScope | src/components/organisms/TaskManagementSection.jsx:130-143 | a task in the view is not archived; under "today" its due date before 'T' is today's date; under "upcoming" it parses to an instant after now |
| ViewEngine.InViewIsShown | src/components/MainFeature.jsx:121-161 | every task in the view is one of the screen's tasks and passes every active filter |
| ViewEngine.ViewPassesCriteria | src/components/organisms/TaskManagementSection.jsx:145-162 | a task in the view contains the search text case-insensitively, has the chosen priority and has the chosen status |
| ViewEngine.UnfilteredViewIsActiveTasks | src/components/MainFeature.jsx:121-177 | with no scope and cleared criteria the view is a permutation of the non-archived tasks |
| ViewEngine.StrictlySmallerFirst | src/components/organisms/TaskManagementSection.jsx:164-178 | in a sorted view a strictly smaller task comes first: incomplete before completed, then by priority, then newer first |
| ViewEngine.HighBeforeLow | src/components/MainFeature.jsx:169-173 | of two incomplete tasks in the view, the high-priority one comes before the low-priority one, whatever their creation times |
| ViewEngine.SortKeepsSorted | src/components/MainFeature.jsx:163-177 | sorting an already sorted sequence returns it unchanged, so showing the view again does not reorder it |
| ViewEngine.StagesKeepShown | src/components/MainFeature.jsx:121-161 | on tasks that all pass, the filter steps keep everything |
| ViewEngine.StepKeeps | src/components/MainFeature.jsx:125-127 | a step whose test every task passes returns its input |
| ViewEngine.FilteredTasksIdempotent | src/components/organisms/TaskManagementSection.jsx:122-178 | computing the view of the view gives the same view |
| Progress.Percentage | src/components/molecules/ProgressBar.jsx:5-6 | nothing when `total` is 0; otherwise the integer `r` with `r - 1/2 <= 100 * current / total < r + 1/2`, i.e. `Math.round` |
| Progress.PercentageBounds | src/components/molecules/ProgressBar.jsx:6 | for `0 <= current <= total` the percentage lies in 0..100, is 0 at `current = 0` and is 100 at `current = total` |
| Progress.PercentageMonotonic | src/components/molecules/ProgressBar.jsx:6 | for a fixed total the percentage never decreases as `current` grows |
| TaskForm.InitialForm | src/components/TaskForm.jsx:6-11 | a new form has an empty title, medium priority, no due date and the default list |
| TaskForm.PrefillFrom | src/components/TaskForm.jsx:14-23 | the form takes the task's title and priority, its due date cut before 'T' (or `''`), and its list or else the default list |
| TaskForm.ValidationErrors | src/components/TaskForm.jsx:25-34 | no error exactly when the title is not all whitespace; otherwise the only error is "Title is required" on the title |
| TaskForm.Normalise | src/components/TaskForm.jsx:41-45 | the submitted title is the trimmed title; an empty due date becomes null; priority and list pass through |
| TaskForm.ApplyEdit | src/components/organisms/TaskFormModal.jsx:53-54 | an edit sets exactly the named field |
| TaskForm.SubmittedTitleIsTrimmed | src/components/organisms/TaskFormModal.jsx:44-48 | the submitted title is already trimmed |
| TaskForm.SubmittedTitleEmptyIffInvalid | src/components/TaskForm.jsx:28-45 | the submitted title would be empty exactly when validation fails |
| TaskForm.FormState.constructor | src/components/organisms/TaskFormModal.jsx:9-15 | the form state starts at the initial form with no errors |
| TaskForm.FormState.Prefill | src/components/organisms/TaskFormModal.jsx:17-26 | with a task the form is prefilled from it; without one nothing changes |
| TaskForm.FormState.ValidateForm | src/components/organisms/TaskFormModal.jsx:28-37 | the errors become the validation result; the answer is true exactly when the title is not all whitespace |
| TaskForm.FormState.HandleSubmit | src/components/TaskForm.jsx:36-48 | an invalid form submits nothing; a valid one submits the normalised data |
| TaskForm.FormState.HandleChange | src/components/TaskForm.jsx:50-55 | one field takes the new value; that field's error is blanked only if it was set; other fields and errors stay |
| TaskCollection.ErrorText | src/components/organisms/TaskManagementSection.jsx:43 | `err.message` when non-empty; the fallback exactly when the message is empty |
| TaskCollection.TargetList | src/components/organisms/TaskManagementSection.jsx:54 | a new task goes to `filterByList`, or to "personal" when there is none |
| TaskCollection.CreateRequest | src/components/organisms/TaskManagementSection.jsx:52-59 | the create request keeps the form's title, priority and due date, forces the list to the target list, and sends a pending, unarchived task with null `completedAt` |
| TaskCollection.Toggled | src/components/organisms/TaskManagementSection.jsx:84-88 | the toggled record flips `completed`; `completedAt` is set to now exactly when the task becomes completed; every other field is kept |
| TaskCollection.ToggleTwiceRestores | src/components/MainFeature.jsx:83-87 | toggling a consistent pending task twice gives it back unchanged |
| TaskCollection.EditPatch | src/components/organisms/TaskManagementSection.jsx:216-218 | the edit form's data, spread over any task, sets exactly title, priority, due date and list and keeps every other field, completion included |
| TaskCollection.ViewPercentage | src/components/MainFeature.jsx:217-221 | the progress figure is shown exactly for a non-empty view; it is the rounded percentage of completed tasks in the view, with the `Math.round` inequality stated outright; it lies in 0..100, and is 0 with none completed and 100 with all completed |
| TaskCollection.TaskScreen.constructor | src/components/organisms/TaskManagementSection.jsx:21-30 | the screen starts with no tasks, no error and cleared filters |
| TaskCollection.TaskScreen.View | src/components/organisms/TaskManagementSection.jsx:122-181 | the screen's `filteredTasks` is sorted and holds exactly the screen's tasks that pass every active filter, each as many times as among the tasks, with tasks that compare equal in the screen's order |
| TaskCollection.TaskScreen.LoadTasks | src/components/organisms/TaskManagementSection.jsx:36-48 | on success the tasks become the store's and the error is cleared; on failure the tasks stay and the error is the message or "Failed to load tasks"; a screen and store whose tasks were all consistent stay so |
| TaskCollection.TaskScreen.HandleCreateTask | src/components/organisms/TaskManagementSection.jsx:50-66 | on success the stored record, pending, unarchived and in the target list, is prepended both in the store and on the screen; on failure nothing changes; a screen and store whose tasks were all consistent stay so |
| TaskCollection.TaskScreen.HandleUpdateTask | src/components/organisms/TaskManagementSection.jsx:68-77 | on success the store's first match becomes the merged record and every screen task with that id is replaced by it; otherwise nothing changes; a patch that leaves completion alone keeps a consistent screen and store consistent |
| TaskCollection.TaskScreen.HandleToggleComplete | src/components/organisms/TaskManagementSection.jsx:79-94 | an id absent from the screen makes no store call; otherwise the toggled screen task overwrites the store's and replaces the screen entries with that id; a screen and store whose tasks were all consistent stay so |
| TaskCollection.TaskScreen.HandleDeleteTask | src/components/organisms/TaskManagementSection.jsx:96-104 | on success the store's first match is removed and every screen task with that id leaves; otherwise nothing changes; a screen and store whose tasks were all consistent stay so |
| TaskCollection.TaskScreen.HandleArchiveTask | src/components/organisms/TaskManagementSection.jsx:106-120 | an id absent from the screen returns early; on success the store's record becomes the screen's task marked archived and the id leaves the screen; a screen and store whose tasks were all consistent stay so |
| TaskCollection.TaskScreen.ChangeFilter | src/components/FilterBar.jsx:6-11 | the screen's criteria take the one change |
| TaskCollection.TaskScreen.ClearFilters | src/components/FilterBar.jsx:13-19 | the screen's criteria are reset and no filter is active |
| Archive.Ids | src/pages/Archive.jsx:67 | `tasks.map(task => task.id)`, position by position |
| Archive.DeleteOne | src/services/api/taskService.js:48-57 | one delete succeeds exactly when some task has the id; it then removes one task; otherwise nothing changes; tasks with other ids keep their multiplicity |
| Archive.DeleteEach | src/pages/Archive.jsx:67 | after all the deletes the store is no larger; if all succeeded it shrank by one per delete; tasks whose ids were not deleted keep their multiplicity |
| Archive.ClearAction | src/components/organisms/ArchivedTaskList.jsx:90-91 | "Clear Archive" is offered exactly when the archive is not empty |
| Archive.ArchiveLabel | src/pages/Archive.jsx:91 | the header is exactly the count's digits, a space, "task" for a count of 1 or "tasks" otherwise, and " in archive": prefix, suffix and length are all fixed |
| Archive.ArchiveLabelInjective | src/pages/Archive.jsx:91 | the "in archive" label determines the count |
| Archive.DeleteArchivedPrefix | src/components/organisms/ArchivedTaskList.jsx:69 | deleting, in order, the ids of the archived tasks at the front of a store with unique ids removes exactly those tasks, and every delete succeeds |
| Archive.ClearLoadedArchiveKeepsLiveTasks | src/pages/Archive.jsx:24-69 | clearing an archive just loaded from a store with unique ids leaves exactly the non-archived tasks, in order, and every delete succeeds |
| Archive.ArchiveScreen.constructor | src/pages/Archive.jsx:12-14 | the screen starts with no tasks and no error |
| Archive.ArchiveScreen.LoadArchivedTasks | src/pages/Archive.jsx:20-33 | on success the tasks become exactly the store's archived tasks, in store order; on failure they stay and the error is the message or "Failed to load archived tasks"; a screen and store whose tasks were all consistent stay so |
| Archive.ArchiveScreen.HandleRestoreTask | src/components/organisms/ArchivedTaskList.jsx:37-51 | an id absent from the screen does nothing; on success the store's record becomes the screen's task with `archived` false, and the id leaves the archive; a screen and store whose tasks were all consistent stay so |
| Archive.ArchiveScreen.HandleDeleteTask | src/pages/Archive.jsx:51-59 | on success the store's first match is removed and every archived task with that id leaves; otherwise nothing changes; a screen and store whose tasks were all consistent stay so |
| Archive.ArchiveScreen.DeleteAll | src/pages/Archive.jsx:67 | every delete is issued in order; the store ends as `DeleteEach` says and the answer is whether all succeeded |
| Archive.ArchiveScreen.HandleClearArchive | src/components/organisms/ArchivedTaskList.jsx:63-75 | a declined confirmation or a failed link changes nothing; otherwise every delete runs and the archive is emptied only if all of them succeeded; a screen and store whose tasks were all consistent stay so |

## Left out

- Markup, styling, animation, toasts, icons and the `loading` flag: they have no behaviour beyond the handlers above.
- Asynchrony: the stores' `delay` timers, React effects and re-renders are not modelled. Each handler runs to completion as one step. The `Promise.all` batch in the clear handlers is a sequential loop. The deletes really run interleaved, but each delete's effect is a single step, and with equal delays they finish in issue order.
- Failures other than "not found": a store call that rejects for another reason is the `Link` parameter's `Down(message)`. The mock stores never reject that way themselves.
- Clock and dates: `Date.now()`, `new Date()` and `toISOString()` are parameters. Timestamps are integers and today's date is a string. `new Date(dueDate)` is a function argument (`Clock.instantOf`, `GetByDateRange`'s `instantOf`) that answers `None` for an invalid date. JavaScript date parsing is not modelled.
- `createdAt` and `completedAt` are ISO strings in the source and integers here. The sort's `new Date(b.createdAt) - new Date(a.createdAt)` is therefore a plain subtraction.
- Text.ToLower: folds only ASCII letters, not full Unicode lower-casing.
- Progress.Percentage: uses exact rational rounding. The source's floating-point `current / total * 100` could round differently for a few inputs.
- Priority and status are enums. An unknown priority string makes the source comparator return `NaN`, and that case is excluded rather than given an order.
- Record fields a create request leaves out: the model gives them blank values (`""`, medium priority, no due date, not completed). The source leaves them undefined.
- Completion consistency: a task is consistent when `completedAt` is set exactly when it is completed. The handlers are proved to keep it. `TaskService.create` given a completed task stores it without `completedAt`, as the source does, so the store alone does not keep it.
- TaskCollection.TaskScreen.HandleUpdateTask: keeps consistency only for a patch that leaves `completed` and `completedAt` alone, as every patch from the edit form (`TaskCollection.EditPatch`) does.
- TaskCollection.TaskScreen.HandleCreateTask: the `createdAt` the screen sends is overridden by the store. The model takes it as an argument and proves nothing about it.
- Id uniqueness is not enforced, because ids come from `Date.now()`. Stores and handlers act on the first match (`findIndex`) or on every match (`filter`/`map`), as the source does. Only the clear-archive lemmas assume unique ids.
- The mock seed data is an arbitrary sequence passed to the store constructors.
- Settings, data export and import, the clear-all-data handlers, routing, task cards and the presentational atoms and molecules are not part of this model.

Where the design description and the code disagree, the model follows the code:

- Clearing the archive: the description asks for partial success with the deleted tasks removed locally. The code empties the local list only when every delete succeeds, and otherwise leaves the list unchanged (`Archive.ArchiveScreen.HandleClearArchive`).
- Title validation: the description puts it in the controller's `create`. The code validates in the form (`TaskForm.FormState.HandleSubmit`), and `handleCreateTask` checks nothing.
- `update`: the description looks the id up locally first. The code calls the store directly, and only toggle, archive and restore look the task up locally.
- Storage: the description calls the collection a map with unique keys. The code uses arrays that keep insertion order and act on the first match.
- Unknown priorities: the description sorts them last. The code yields `NaN`.
- "today": the description asks for day-granularity equality. The code compares the due date's text before 'T' with the UTC date of the current instant.
