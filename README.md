# Task Manager core in Dafny

This project models two pieces of the Task Manager repository and proves
properties about them.

* **The browser task list** (`src/script.js`, class `TaskManager`). The object
  keeps an ordered list of task records. Each record has an id, a text, a
  priority, an optional due date, a completed flag and two timestamps. The
  object also keeps the current view filter and writes the list to local
  storage after each change. The model covers:
  * the five operations that change the list: `addTask`, `deleteTask`,
    `toggleComplete`, `editTask` and `clearCompleted`;
  * the filter choice in `loadTasks`;
  * the counters of `updateStats` and `exportTasks`.
* **The Jenkinsfile fixer** (`fix-with-python.py`). The script splits a
  Jenkinsfile into lines and walks them with one flag,
  `in_single_quote_block`. A line holding `sh '''` outside a block opens a
  block, and that marker becomes `sh """`. The next line holding `'''` closes
  the block, and its `'''` becomes `"""`. The lines are then joined again.

Files:

* `tasks.dfy` (module `Tasks`). The task record and the pure list
  operations:
  * JavaScript `trim` over the ECMAScript white-space and line-terminator
    characters;
  * `filter` and `map` with an id test;
  * the list after each change, the filter view, the counters and the
    export bundle;
  * the invariant that every operation keeps: distinct ids, and every text
    trimmed and not empty.
* `task_manager.dfy` (module `TaskStore`). The `TaskManager` class. It has the
  fields `tasks` and `currentFilter`, and a ghost field for what local storage
  holds. Each method is proved against the matching function of `Tasks`.
* `py_strings.dfy` (module `PyStrings`). The Python string operations the
  script uses:
  * the `in` test;
  * `str.replace`, which scans left to right over non-overlapping matches;
  * `split('\n')` and `'\n'.join`.
* `jenkinsfile_fix.dfy` (module `JenkinsfileFix`). The rewrite:
  * one turn of the loop (`Step`);
  * the loop as a function over the lines read so far (`Rewrite`);
  * the loop as a method (`FixLines`), proved equal to `Rewrite`;
  * the whole script from split to join (`FixJenkinsfile`).

Date and clock readings are parameters: `now` stands for `Date.now()` and
`stamp` for `new Date().toISOString()`. Form field values are parameters too.

## Model

| member | source | states |
|---|---|---|
| Tasks.Trim | src/script.js:34 | the trimmed text is a slice of the input with only ECMAScript white space before and after it; it neither starts nor ends with white space, and it is empty exactly when the input is all white space |
| Tasks.TrimIdempotent | src/script.js:92-97 | trimming an already trimmed text changes nothing, so the text `editTask` stores is its own trim |
| Tasks.Filter | src/script.js:67 | `filter` keeps exactly the elements the test accepts, in their order (a sub-sequence), nothing when it accepts none and everything when it accepts all |
| Tasks.MapMatching | src/script.js:75-84 | the `map` with an id test keeps the length, replaces every record whose id matches by its changed copy, and keeps every other record |
| Tasks.NewTask | src/script.js:44-52 | the new record carries the id, the text and the priority; its due date is null exactly when the date field was empty; it is not completed; createdAt equals updatedAt |
| Tasks.AddedTasks | src/script.js:33-54 | a blank input after trimming leaves the list as it is; otherwise the list grows by one, the new record with the trimmed text is at index 0, and the old records follow in their old order |
| Tasks.FilterCounts | src/script.js:67 | `filter` keeps every accepted element as many times as the list held it, and drops every rejected one |
| Tasks.Without | src/script.js:67 | after deleting, no record has the id; every record with another id is still there, as many times as before and in the same order; an absent id leaves the list unchanged |
| Tasks.Toggled | src/script.js:75-84 | the length is kept; matching records have their flag flipped and updatedAt set, with every other field unchanged; other records are untouched |
| Tasks.Edited | src/script.js:94-103 | the length is kept; matching records get the new text and updatedAt, with every other field unchanged; other records are untouched |
| Tasks.ActiveTasks | src/script.js:125 | exactly the records not completed, in their order |
| Tasks.CompletedTasks | src/script.js:164 | exactly the completed records, in their order |
| Tasks.FilterView | src/script.js:159-168 | 'active' selects the records not completed and 'completed' the completed ones; any other filter value shows the whole list; every view is an order-preserving sub-list |
| Tasks.ViewsPartition | src/script.js:159-168 | the 'active' and 'completed' views split the list: their lengths sum to its length, every record is in one of them and none is in both |
| Tasks.ViewIdsCover | src/script.js:159-168 | the ids in the 'active' and 'completed' views together are the ids of the whole list |
| Tasks.StatsOf | src/script.js:275-278 | total is the list length, 0 <= completed <= total, and pending = total - completed = the number of records not completed |
| Tasks.ExportOf | src/script.js:133-138 | the export bundle holds the whole list and the export time, and reports the same total and completed count as the counters |
| Tasks.ToggleTwice | src/script.js:75-84 | toggling an id twice restores every completed flag and every field but updatedAt, and so restores the counters |
| Tasks.AddedCounts | src/script.js:54 | a successful add raises total and pending by one and keeps completed; a refused add changes no counter |
| Tasks.ClearCompletedCounts | src/script.js:125 | after clearing, nothing is completed, pending and total both equal the old pending count, and clearing again changes nothing |
| Tasks.TrimmedIsGood | src/script.js:34-38 | a non-blank input, once trimmed, is a non-empty text without surrounding white space |
| Tasks.AddedKeepsWellFormed | src/script.js:44-54 | adding keeps the ids distinct and the texts trimmed when the drawn id is new to the list |
| Tasks.DeleteKeepsWellFormed | src/script.js:67 | deleting keeps the ids distinct and the texts trimmed |
| Tasks.ToggleKeepsWellFormed | src/script.js:75-84 | toggling keeps the ids distinct and the texts trimmed |
| Tasks.EditKeepsWellFormed | src/script.js:94-103 | editing with a non-blank text keeps the ids distinct and the texts trimmed |
| Tasks.ClearKeepsWellFormed | src/script.js:125 | clearing keeps the ids distinct and the texts trimmed |
| TaskStore.TaskManager.constructor | src/script.js:2-6 | the list is the stored one, or empty when nothing is stored; the filter is 'all' |
| TaskStore.TaskManager.SaveTasks | src/script.js:298-300 | storage holds the current list, and the list and the filter are unchanged |
| TaskStore.TaskManager.AddTask | src/script.js:32-64 | the new list is `AddedTasks` of the old one; storage is written only when the text is not blank; the filter is unchanged; the invariant is kept when the id is new |
| TaskStore.TaskManager.DeleteTask | src/script.js:66-72 | the new list is `Without` of the old one and is saved; the filter is unchanged; the invariant is kept |
| TaskStore.TaskManager.ToggleComplete | src/script.js:74-89 | the new list is `Toggled` of the old one and is saved; the filter is unchanged; the invariant is kept |
| TaskStore.TaskManager.EditTask | src/script.js:91-108 | a blank text after trimming changes neither the list nor storage; otherwise the new list is `Edited` with the trimmed text and is saved; the invariant is kept |
| TaskStore.TaskManager.SetFilter | src/script.js:110-111 | only the filter changes |
| TaskStore.TaskManager.ClearCompleted | src/script.js:124-130 | the new list is the records not completed, it is saved, and the counters then show pending = total and completed = 0; the invariant is kept |
| TaskStore.TaskManager.LoadTasks | src/script.js:157-168 | the records shown are `FilterView` of the list for the current filter, a sub-list of it |
| TaskStore.TaskManager.UpdateStats | src/script.js:275-278 | the counters are `StatsOf` the list, so completed <= total and pending = total - completed |
| TaskStore.TaskManager.ExportTasks | src/script.js:132-138 | the bundle is `ExportOf` the list: the whole list, with the same total and completed count as the counters |
| PyStrings.Contains | fix-with-python.py:13-17 | the `in` test: the empty pattern is in every text, a pattern found is no longer than the text, and a text starting with the pattern holds it |
| PyStrings.ReplaceAll | fix-with-python.py:15 | `str.replace` with a pattern and replacement of equal length keeps the length of the line |
| PyStrings.ReplaceAllKeepsOrReplaces | fix-with-python.py:15-19 | with a replacement of the pattern's length, every character of the result is the input's character at that place, or lies inside an occurrence of the pattern in the input that now reads as the replacement |
| PyStrings.ReplaceAllFirst | fix-with-python.py:15-19 | with `j` the first place the pattern occurs, the result is the text before `j`, then the replacement, then the text after that occurrence replaced on its own; so matches are taken leftmost first and an occurrence overlapping a replaced one is never replaced |
| PyStrings.ReplaceAllAbsent | fix-with-python.py:15 | replacing in a line without the pattern leaves the line unchanged |
| PyStrings.ReplaceAllKeepsOut | fix-with-python.py:19 | a character found in neither the line nor the replacement is not in the result |
| PyStrings.ReplaceAllRemovesPattern | fix-with-python.py:15-19 | for the replacements the script makes, no occurrence of the pattern is left in the line |
| PyStrings.Split | fix-with-python.py:8 | splitting gives at least one piece, no piece holds the separator, and the first piece is a prefix of the text |
| PyStrings.Join | fix-with-python.py:26 | every character of the joined text is the separator or comes from a piece |
| PyStrings.JoinSplit | fix-with-python.py:8-26 | joining the pieces of a split with the separator gives back the text |
| PyStrings.SplitJoin | fix-with-python.py:8-26 | splitting a join of pieces free of the separator gives back the pieces |
| PyStrings.SplitKeepsAbsent | fix-with-python.py:8 | no piece of a text holds a pattern that the text does not hold |
| PyStrings.JoinKeepsAbsent | fix-with-python.py:26 | a join of pieces without a pattern has no occurrence of it when the pattern lacks the separator |
| JenkinsfileFix.QuotesReplaceable | fix-with-python.py:15-19 | both replacements swap a pattern for a string that cannot recreate it and has no line break |
| JenkinsfileFix.OpenHoldsTriple | fix-with-python.py:13-17 | a line holding `sh '''` also holds `'''` |
| JenkinsfileFix.ClosingOverlap | fix-with-python.py:19 | a closing line of four quotes `''''` becomes `"""'`: the first three quotes are replaced and the fourth, which overlapped them, is kept |
| JenkinsfileFix.SameLineBlock | fix-with-python.py:13-17 | a block opened and closed on one line, `sh '''x'''` outside a block, becomes `sh """x'''`: only the opening marker is rewritten and the scan stays inside a block, so the next line holding `'''` is taken as the closing one |
| JenkinsfileFix.Classify | fix-with-python.py:13-20 | a line is rewritten exactly when it holds the marker the flag looks for: `sh '''` outside a block, `'''` inside one; only a line outside a block opens one and only a line inside a block closes it |
| JenkinsfileFix.Step | fix-with-python.py:13-22 | one turn: an unchanged line and flag unless the line opens or closes a block; an opening line is the line with every `sh '''` replaced by `sh """`, holds no `sh '''` and enters the block; a closing line is the line with every `'''` replaced by `"""` and leaves it; the length is kept and no line break is added |
| JenkinsfileFix.StepKeepsOrRewrites | fix-with-python.py:13-20 | every character of the line after its turn is the original character, or lies inside a marker of the line the turn rewrote (`sh '''` on opening, `'''` on closing) that now reads `sh """` or `"""` |
| JenkinsfileFix.Rewrite | fix-with-python.py:9-22 | the loop appends exactly one line per input line |
| JenkinsfileFix.RewritePrefix | fix-with-python.py:12-22 | the loop over the first n lines produces the first n output lines |
| JenkinsfileFix.RewriteLast | fix-with-python.py:12-22 | the last turn over the first k + 1 lines appends line k after its turn |
| JenkinsfileFix.RewriteLine | fix-with-python.py:12-22 | output line k is input line k after its turn, taken with the flag the earlier lines left |
| JenkinsfileFix.RewriteClean | fix-with-python.py:12-22 | no output line holds `sh '''` |
| JenkinsfileFix.RewriteNoBreaks | fix-with-python.py:12-22 | no output line has a line break when no input line has one |
| JenkinsfileFix.RewriteWithoutOpen | fix-with-python.py:12-22 | lines none of which holds `sh '''` come out unchanged, and the scan ends outside any block |
| JenkinsfileFix.RewriteNothingOpened | fix-with-python.py:12-22 | when no line opens a block, no line closes one and every line is appended unchanged |
| JenkinsfileFix.BlocksAlternate | fix-with-python.py:9-20 | the number of opening rewrites equals the number of closing rewrites, plus one when the scan ends inside a block |
| JenkinsfileFix.CountsPartition | fix-with-python.py:13-22 | every turn of the loop keeps its line, opens a block or closes one, so the three counts add up to the number of lines |
| JenkinsfileFix.Count | fix-with-python.py:13-20 | the number of lines of one kind of rewrite is at most the number of lines |
| JenkinsfileFix.FixContent | fix-with-python.py:8-26 | the written text holds no `sh '''` anywhere, and it splits back into the rewritten lines, as many as the input had |
| JenkinsfileFix.FixContentRoundTrip | fix-with-python.py:8-26 | when no line is rewritten, the written text is the text read |
| JenkinsfileFix.FixContentUnchanged | fix-with-python.py:8-26 | a text without `sh '''` is written back exactly as it was read |
| JenkinsfileFix.FixContentIdempotent | fix-with-python.py:8-26 | running the script a second time changes nothing |
| JenkinsfileFix.FixLines | fix-with-python.py:9-22 | the loop yields `Rewrite` of the lines: one output line per input line, none holding `sh '''` |
| JenkinsfileFix.FixJenkinsfile | fix-with-python.py:8-26 | the written text is `FixContent` of the text read, holds no `sh '''`, and equals the input when the input holds none |

## Left out

- DOM work in `src/script.js` is not modelled, because it is user interface: event binding, rendering in `loadTasks` and `createTaskElement`, `enableEdit`, the button classes in `setFilter`, `showNotification`, `updateBuildInfo` and `escapeHtml`.
- Local storage and JSON are not modelled. `saveTasks` is modelled as a ghost field `storage` that receives the list. The constructor takes the already parsed stored value. `None` stands for a missing or null entry and gives an empty list. A parse error, which the source does not catch, and stored JSON that is neither null nor a list are not modelled.
- The clock is a parameter. `now` is the id from `Date.now()`.
- TaskStore.TaskManager.AddTask: the two ISO clock reads for `createdAt` and `updatedAt` are one `stamp` parameter, so the model always has `createdAt == updatedAt`. The source can differ by a millisecond.
- TaskStore.TaskManager.ToggleComplete: one `stamp` is used for every matching record. The source reads the clock once per matching record.
- TaskStore.TaskManager.EditTask: one `stamp` is used for every matching record. The source reads the clock once per matching record, inside the `map` callback.
- Ids are not assumed distinct. Delete, toggle and edit act on every record with the id, as `filter` and `map` do. Keeping ids distinct is proved only when the id an add draws is new to the list.
- The overdue check in `createTaskElement` is not modelled, because it compares dates parsed as local time.
- Export delivery is not modelled: the JSON text, the Blob, the object URL, the download link and the file name.
- Timestamps are opaque strings. The model therefore does not state that `updatedAt` is never earlier than `createdAt`, nor that toggling twice leaves a later `updatedAt`; it states only which record gets which stamp.
- Reading and writing `Jenkinsfile` and the closing message in `fix-with-python.py` are not modelled, because they are file and console I/O. The model starts from the text read and ends with the text written.
- `str.replace` is modelled only for a non-empty pattern, which is the only kind the script uses.
