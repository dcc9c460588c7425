# Task organiser — a verified model of its logic

This project models the rules inside a small React task organiser in Dafny. The model covers four parts:

- **The task collection** (`App`). `addTask` handles several cases:
  - it ignores blank text;
  - it treats the words `admin` and `unadmin` (any case) as commands that switch the admin flag;
  - it rejects a duplicate text, comparing trimmed, lower-cased forms;
  - otherwise it puts a new incomplete task at the front.

  `toggleTask` flips `completed` by id and `deleteTask` removes by id. The derived views are:
  - `sortedTasks`: priority rank high = 1, medium = 2, low = 3, then newest first;
  - the walk that splits that list into upcoming and overdue tasks at a clock reading `now`;
  - the re-sort of the overdue tasks by rank, then earliest due date;
  - the rounded productivity percentage.
- **The Pomodoro timer** (`Pomodoro`). A class with the four state fields `mode`, `timeRemaining`, `isActive` and `pomodoros`. Its methods are the interval tick, the countdown effect, `handleSessionEnd`, `toggleTimer`, `resetTimer` and `selectMode`. A bounds invariant ties `timeRemaining` to the current mode's length. A function models the `mm:ss` split.
- **One task row** (`TaskItem`). It defines the past-due-and-incomplete lock and the three behaviours that follow from it:
  - the toggle click is withheld;
  - the delete button is disabled unless the user is admin;
  - the text colour is chosen.
- **The leaderboard** (`Leaderboard`). It covers:
  - the ranking by minutes, then by last update, both descending;
  - the numbers 1..n shown beside the ranking;
  - the de-duplicated name list;
  - the add-name field with its trim guard.

Support modules:
- `Wrappers`: `Option`.
- `Text`: the whitespace set of JavaScript's `String.prototype.trim`, and ASCII lower-casing.
- `Lists`: a filter, and a stable insertion sort on a two-part lexicographic key. JavaScript's `Array.prototype.sort` is stable, so the sort is proved stable as well as sorted and a permutation.
- `TaskTypes`: the `Task` record.

Time is an integer. A due date is `Option<int>`, with `None` for an empty form field. Every comparison against "now" takes the clock reading as a parameter.

Two details follow the code:
- The delete lock lives only in the row's button. `App.TaskBoard.DeleteTask` removes the task whether or not it is overdue.
- The percentage's denominator is all tasks, upcoming and overdue. Its numerator counts completed tasks in the upcoming bucket only. `App.ProductivityOfTasks` shows that this equals the completed share of all tasks, because an overdue task is never completed.

## Model

| member | source | states |
|---|---|---|
| Text.Trim | src/App.tsx:74 | The result has no whitespace at either end. It is empty exactly when the input is all whitespace. |
| Text.TrimIsInfix | src/App.tsx:74 | The trimmed text is a contiguous part of the input. Everything cut off on either side is whitespace. |
| Text.IsWhitespace | src/App.tsx:74 | The characters `trim` strips are the ECMAScript white-space and line-terminator code points. Within ASCII these are exactly the space and tab through carriage return. |
| Text.TrimIdempotent | src/App.tsx:90 | Trimming an already trimmed text changes nothing. The source trims only the stored text and merely lower-cases `trimmedText`; the model's `HasText` trims both sides, and `App.SameNormalForm` uses this lemma to show the extra trim changes nothing. |
| Text.ToLower | src/App.tsx:77 | Lower-casing keeps the length of the text; the character-by-character mapping is stated by `Text.ToLowerChars`. |
| Text.ToLowerChars | src/App.tsx:77 | Lower-casing maps each character to its lower-case form, position by position. |
| Text.ToLowerIdempotent | src/App.tsx:90 | Lower-casing twice is the same as lower-casing once. |
| App.Rank | src/App.tsx:119 | The priority order maps high to 1, medium to 2 and low to 3. |
| App.PriorityKey | src/App.tsx:120-124 | The `sortedTasks` comparator as a sort key: rank first, then `createdAt` descending. |
| App.CompareByPriority | src/App.tsx:120-124 | The `sortedTasks` comparator as written. It returns zero exactly when the two tasks have the same priority and the same `createdAt`. |
| App.PriorityKeyAgrees | src/App.tsx:120-124 | One task may precede another under the key exactly when the comparator as written does not put it after the other. |
| App.SortedTasks | src/App.tsx:118-125 | `sortedTasks` is a permutation of the tasks. Ranks are non-decreasing, and `createdAt` is non-increasing within a rank. |
| App.SortedTasksStable | src/App.tsx:120-124 | Tasks tied on rank and `createdAt` keep their stored order. |
| App.HighBeforeLow | src/App.tsx:121-122 | A high-priority task comes before a low-priority one, in either input order and whatever their creation times. |
| App.IsOverdue | src/App.tsx:132 | The overdue rule: incomplete, with a due date, and that date before `now`. |
| App.Bucket | src/App.tsx:131-139 | One of the two lists the `forEach`/`push` walk builds, before the re-sort. It is never longer than the walked list; its members are stated by `App.BucketMember`. |
| App.BucketMember | src/App.tsx:132-138 | A task is put in the overdue list exactly when it is incomplete, has a due date and that date is before `now`; otherwise it goes in the upcoming list. |
| App.BucketsPartition | src/App.tsx:131-139 | The two lists together hold every task exactly once. |
| App.OverdueKey | src/App.tsx:142-146 | The overdue comparator as a sort key: rank first, then the due date ascending. |
| App.CompareOverdue | src/App.tsx:142-146 | The overdue comparator as written, on tasks with due dates. It returns zero exactly when the two tasks have the same priority and the same due date. |
| App.OverdueKeyAgrees | src/App.tsx:142-146 | On tasks with due dates, as every overdue task has, the key order is the order of the comparator as written. |
| App.TodayTasks | src/App.tsx:127-149 | `todayTasks` holds no overdue task. |
| App.OverdueTasks | src/App.tsx:127-149 | Every task in `overdueTasks` is overdue. |
| App.SplitByDue | src/App.tsx:127-149 | The `forEach`/`push` walk over `sortedTasks` followed by the overdue sort yields the upcoming bucket in `sortedTasks` order, and the overdue bucket sorted by rank and due date. |
| App.BucketStep | src/App.tsx:132-138 | One step of the walk appends the task to exactly one of the two lists and leaves the other unchanged. |
| App.SplitMembers | src/App.tsx:127-149 | A task is in `overdueTasks` iff it is in the collection and overdue. It is in `todayTasks` iff it is in the collection and not overdue. |
| App.SplitIsPermutation | src/App.tsx:127-149 | `todayTasks ++ overdueTasks` is a permutation of the tasks. |
| App.SplitOrder | src/App.tsx:127-146 | `todayTasks` keeps the `sortedTasks` order. `overdueTasks` is ordered by rank, then by due date ascending. |
| App.CompletedCount | src/App.tsx:155 | The completed count never exceeds the list length. |
| App.ProductivityPercentage | src/App.tsx:151-158 | The percentage is 100 when there are no tasks and always lies in 0..100. Otherwise it is the integer nearest to 100·c/n, rounding halves up: 2n·p ≤ 200c + n < 2n·(p+1). |
| App.RoundedShare | src/App.tsx:157 | The integer form of `Math.round(100*c/n)` lies in 0..100 and is within one half of 100·c/n. |
| App.CompletedCountPermutation | src/App.tsx:155 | Reordering a list does not change how many of its tasks are completed. |
| App.CompletedAllUpcoming | src/App.tsx:132-155 | The upcoming bucket holds every completed task, because an overdue task is incomplete. |
| App.ProductivityOfTasks | src/App.tsx:127-158 | The percentage shown is the rounded completed share of all tasks, and 100 for an empty collection. |
| App.Toggled | src/App.tsx:107-111 | `toggleTask`'s `map` keeps the length of the list. |
| App.ToggledChangesOnlyCompleted | src/App.tsx:108-110 | Toggling flips `completed` exactly on tasks with the id. It changes no other field and no other task. |
| App.ToggledKeepsInvariants | src/App.tsx:106-112 | Toggling keeps normalised texts distinct and ids unique, since no text or id changes. |
| App.ToggleTwice | src/App.tsx:106-112 | Toggling the same id twice restores the list. |
| App.ToggleAbsent | src/App.tsx:106-112 | Toggling an id that no task carries changes nothing. |
| App.Removed | src/App.tsx:115 | `deleteTask`'s `filter` never lengthens the list, and no remaining task has the deleted id. |
| App.RemovedKeepsInvariants | src/App.tsx:114-116 | Deleting keeps normalised texts distinct and ids unique. |
| App.RemovedMember | src/App.tsx:114-116 | After deleting, a task remains iff it was present and has a different id. |
| App.RemovedAbsent | src/App.tsx:114-116 | Deleting an id that no task carries changes nothing. |
| App.RemovedKeepsOrder | src/App.tsx:115 | Deletion works part by part, so the remaining tasks keep their original order. |
| App.Normalized | src/App.tsx:90 | The comparison form of a text is never longer than the text, and it is empty exactly when the text is all whitespace. |
| App.HasText | src/App.tsx:90 | The duplicate test finds nothing in an empty list, and always matches a stored text identical to the new one. |
| App.SameNormalForm | src/App.tsx:90 | Comparing against the trimmed input or the raw input finds the same duplicates. |
| App.PrependKeepsInvariants | src/App.tsx:90-103 | Prepending a task whose normalised text is new keeps the texts distinct. Prepending one with a fresh id keeps the ids unique. |
| App.TaskBoard.constructor | src/App.tsx:23-36 | The initial state is the stored list when it was present and parsed, and the empty list otherwise. The user is not admin and no message is shown. |
| App.TaskBoard.AddTask | src/App.tsx:73-104 | Blank text changes nothing. `admin` sets the admin flag and `unadmin` clears it; neither adds a task. A duplicate leaves the tasks unchanged and shows the message. Otherwise the new task is prepended with the trimmed text, `completed = false`, the clock reading, the given priority and the due date (absent when empty). Distinct texts stay distinct, and unique ids stay unique when the new id is fresh. |
| App.TaskBoard.ToggleTask | src/App.tsx:106-112 | The new list is the toggled list. The admin flag and the message are unchanged. Distinct texts stay distinct and unique ids stay unique. |
| App.TaskBoard.DeleteTask | src/App.tsx:114-116 | The new list is the old one without the id's tasks. Overdue tasks are not protected. Distinct texts stay distinct and unique ids stay unique. |
| TaskItem.IsPastDueAndIncomplete | src/components/TaskItem.tsx:30 | The lock: a due date, not completed, and the date before `now`. |
| TaskItem.LockedIffOverdue | src/components/TaskItem.tsx:30 | At the same clock reading, the lock holds iff the task has a due date, is incomplete and the date is before `now`, which is the application's overdue-bucket rule. The two are evaluated against different clocks: the buckets use the application clock, refreshed once a minute (src/App.tsx:35-45), while the row reads the current time when it renders, so for up to a minute a task can sit in the upcoming list with its row already locked. |
| TaskItem.CompletedNeverLocked | src/components/TaskItem.tsx:30 | A completed task is never locked, whatever its due date. |
| TaskItem.ToggleClick | src/components/TaskItem.tsx:55 | A click toggles nothing exactly when the task is locked. Otherwise it toggles the task's own id. |
| TaskItem.DeleteDisabled | src/components/TaskItem.tsx:89 | Delete is disabled iff the task is locked and the user is not admin. An admin can always delete. |
| TaskItem.TextColor | src/components/TaskItem.tsx:32-36 | The completed style is chosen iff the task is completed. The past-due style is chosen iff it is locked. Otherwise the normal style is chosen. |
| Pomodoro.Duration | src/components/PomodoroTimer.tsx:6-10 | A work session is 25 minutes, a short break 5 minutes and a long break 15 minutes. |
| Pomodoro.BreakAfter | src/components/PomodoroTimer.tsx:48-54 | The break after a work session is long exactly when the new count is a multiple of 4. |
| Pomodoro.PomodoroTimer.constructor | src/components/PomodoroTimer.tsx:13-16 | The timer starts in work mode with 1500 seconds, inactive, with nothing completed. |
| Pomodoro.PomodoroTimer.Tick | src/components/PomodoroTimer.tsx:29-31 | A tick takes exactly one second off, and only while the timer is active with time left. Nothing else changes. |
| Pomodoro.PomodoroTimer.HandleSessionEnd | src/components/PomodoroTimer.tsx:43-59 | The timer stops. After work, the count goes up by one and the mode becomes a long break on every fourth session and a short break otherwise. After a break, the mode becomes work and the count is kept. The new mode starts with its full length. |
| Pomodoro.PomodoroTimer.OnRemainingChange | src/components/PomodoroTimer.tsx:25-41 | The effect changes nothing while time is left. At zero it ends the session as above. |
| Pomodoro.PomodoroTimer.ToggleTimer | src/components/PomodoroTimer.tsx:61 | Only `isActive` flips. |
| Pomodoro.PomodoroTimer.ResetTimer | src/components/PomodoroTimer.tsx:63-68 | Reset restores the exact initial state, including the count. |
| Pomodoro.PomodoroTimer.SelectMode | src/components/PomodoroTimer.tsx:70-74 | The timer stops and enters the chosen mode with its full length. The count is kept. |
| Pomodoro.PomodoroTimer.RunSession | src/components/PomodoroTimer.tsx:25-61 | Starting the timer and letting it count down to zero ends in exactly one session change, with the count updated as `handleSessionEnd` says. Every step keeps 0 ≤ `timeRemaining` ≤ the mode's length. |
| Pomodoro.FourPomodoros | src/components/PomodoroTimer.tsx:45-50 | From a fresh timer, four work sessions alternating with three breaks end in a long break with a count of 4. |
| Pomodoro.Clock | src/components/PomodoroTimer.tsx:76-77 | minutes·60 + seconds is the time remaining, with seconds below 60. At most 25 minutes are shown within a work session. |
| Leaderboard.RankKey | src/components/Leaderboard.tsx:31-34 | The `sorted` comparator as a sort key: minutes descending, then `updatedAt` descending. |
| Leaderboard.CompareEntries | src/components/Leaderboard.tsx:31-34 | The `sorted` comparator as written. It returns zero exactly when the two entries have the same minutes and the same `updatedAt`. |
| Leaderboard.RankKeyAgrees | src/components/Leaderboard.tsx:31-34 | One entry may precede another under the key exactly when the comparator as written does not put it after the other. |
| Leaderboard.Ranking | src/components/Leaderboard.tsx:30-35 | `sorted` is a permutation of the entries, with minutes descending and, on equal minutes, the last update descending. |
| Leaderboard.RankingStable | src/components/Leaderboard.tsx:31-34 | Entries tied on both keys keep their input order. |
| Leaderboard.Rows | src/components/Leaderboard.tsx:118-126 | There is one displayed row per entry. |
| Leaderboard.RowsRanks | src/components/Leaderboard.tsx:118-126 | The row at position i shows number i+1 and the i-th ranked entry. An entry with more minutes gets a smaller number. |
| Leaderboard.AllNames | src/components/Leaderboard.tsx:24-28 | A name is listed iff some entry has it. No name is listed twice, even when entries repeat a name. |
| Leaderboard.AddNameForm.constructor | src/components/Leaderboard.tsx:22 | The add-name field starts empty. |
| Leaderboard.AddNameForm.Edit | src/components/Leaderboard.tsx:81-82 | The field holds what was typed. |
| Leaderboard.AddNameForm.Submit | src/components/Leaderboard.tsx:88-96 | A field that is blank after trimming calls nothing and is left as it was. Otherwise the trimmed name goes to `onAddName` and then to `onSelectName`, and the field is cleared. |

## Left out

- Storage: reading and writing the theme and tasks to `localStorage`, and the JSON parse. The constructor takes the parse result as an `Option`, where `None` covers both a missing entry and a failed parse.
- Scheduling:
  - the minute clock interval;
  - the 4-second auto-dismiss of notifications;
  - the registration and clearing of the one-second interval;
  - loading and playing the completion sound.

  A tick and a run of the effect are explicit method calls, and the clock is a parameter.
- Date parsing and display: due dates and times are integers, and the locale date formatting is not modelled.
- `crypto.randomUUID()` is the `freshId` parameter. Unique ids are preserved only when the caller supplies a fresh id.
- Leaderboard.AllNames: the final sort by Arabic collation (`localeCompare`) is not modelled. The names come in order of first appearance, and only membership and uniqueness are stated.
- Text.ToLower: only ASCII letters are lower-cased. Full Unicode case mapping is not modelled.
- App.ProductivityPercentage: exact rational rounding is modelled. The source computes a floating-point product before `Math.round`, and it may differ at exact half-way points.
- The pie-chart percentages of the timer and the productivity tracker are floating-point display values.
- The notification texts are modelled only as the three `Notice` values.
- Rendering and wiring, which hold no rules: the header, navigation menu, theme toggle, view switching, task list, task input form, notification banners, bootstrapping and the service worker.
