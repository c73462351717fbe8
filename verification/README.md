# RemindMe task list and password change, modelled in Dafny

RemindMe is a React Native reminder app: a user keeps a list of class
assignments with due dates, and can change their password. This project
models the two pieces of it that carry sequential logic of their own.

- The task screen (`client/screens/Tasks.js`). Its in-memory task list is kept
  sorted by due date with `Array.prototype.sort`, which must be stable (section
  23.1.3.30 of ECMA-262, 2023 edition). Its add-task handler rejects a duplicate
  assignment name first, then a form with an empty field. Otherwise it appends
  the task, re-sorts the list and resets the form. Picking a calendar day fills
  the due date. `formatDate` renders a date as `MM/DD/YYYY`. An effect re-sorts
  the list whenever it changes.
- The change-password handler (`screens/ChangePassword.js`). It runs three
  client-side checks in a fixed order. It then awaits three remote calls in a
  fixed order inside one try/catch/finally, and manages a `loading` flag.

Modules, one per concept:

- `Wrappers` (`wrappers.dfy`): `Option` and the `Alert(title, message)` that
  `Alert.alert` shows.
- `Decimal` (`decimal.dfy`): integer `toString`, `padStart`, and the parser
  that reads them back.
- `Dates` (`dates.dfy`): calendar dates, the comparator's order, and
  `formatDate` as written plus the corrected rendering.
- `TaskList` (`task_list.dfy`): the `Task` record and the stable sort.
- `TaskScreen` (`task_screen.dfy`): form state, `handleAddTask`,
  `handleDateSelect`, the form's other controls, the re-sort effect, and the
  invariant every reachable list satisfies.
- `ChangePassword` (`change_password.dfy`): `handleChangePassword`, as a pure
  function of its three input strings, whether a user is signed in, and the
  abstract outcome of each remote call. It returns the alert shown, the remote
  calls attempted, the `setLoading` calls made, and whether it navigated back.

Modelling choices:

- A task's due date is a `Date(year, month, day)`. The form's `dueDate` and
  `markedDate` strings are only ever `""` or a calendar `dateString`, so they
  are `Option<Date>`, with `None` for `""`.
- The comparator `new Date(a.dueDate) - new Date(b.dueDate)` is taken as the
  lexicographic (year, month, day) order. This holds because a calendar day's
  time value grows with the date.
- `formatDate` is modelled from the local year, month index (0..11) and day of
  month (1..31) that `new Date(dateString)` yields. The time-zone-dependent
  parse itself is left out.
- The `id` built from `Date.now()` is a parameter.
- Each remote call (`reauthenticateWithCredential`, `updatePassword`,
  `updateDoc`) is an abstract outcome: `Succeeds` or `Fails(message)`.

## Model

| member | source | states |
|---|---|---|
| `TaskList.SortByDueDate` | client/screens/Tasks.js:7-9 | The result is in non-decreasing due-date order and is a permutation of the input. For every day, the tasks due that day keep their input order, so the sort is stable. |
| `TaskList.SortIsTheStableSort` | client/screens/Tasks.js:7-9 | A list equals the sort's result exactly when it is sorted and keeps every day's tasks in input order. Both directions are proved. |
| `TaskList.SortedUnique` | client/screens/Tasks.js:7-9 | Two sorted lists with the same tasks, in the same order, on every day are the same list. So a stable sort has only one possible result. |
| `TaskList.SortKeepsSorted` | client/screens/Tasks.js:7-9 | Sorting a list already in due-date order returns it unchanged. |
| `TaskList.SortIdempotent` | client/screens/Tasks.js:76-79 | Sorting a sorted result again changes nothing, so the re-sort effect is a no-op. |
| `TaskList.SortAppended` | client/screens/Tasks.js:49-50 | Appending a task to a sorted list and sorting puts it after every task due on or before its day and before every task due later. |
| `TaskList.PermutationKeepsDistinctNames` | client/screens/Tasks.js:49-50 | Reordering a list with pairwise distinct assignment names keeps them distinct. |
| `TaskScreen.SomeNamed` | client/screens/Tasks.js:31 | The duplicate test is true exactly when some task's assignment name equals the entered name. |
| `TaskScreen.HandleAddTask` | client/screens/Tasks.js:29-58 | A duplicate name gives the "Duplicate Task" alert, and list and form are unchanged. This check runs before the empty-field check. Otherwise an empty class, name or due date gives "Please fill out all fields.", and nothing changes. Otherwise there is no alert. The new list is one longer, holds the old tasks plus the entered task, and is the stable sort of old list plus new task. The modal closes and the four fields reset to empty. |
| `TaskScreen.AddKeepsNamesDistinct` | client/screens/Tasks.js:31-35 | If the list's assignment names are pairwise distinct before an add, they still are after it. |
| `TaskScreen.AddInsertsByDueDate` | client/screens/Tasks.js:42-50 | A successful add to a sorted list splices the new task in after every task not due later than it, and before every task due later. |
| `TaskScreen.HandleDateSelect` | client/screens/Tasks.js:69-74 | The picked day becomes both the due date and the calendar mark. The calendar closes, and the text fields and modal flag keep their values. |
| `TaskScreen.DateSelectFillsDueDate` | client/screens/Tasks.js:37 | After a day is picked, the empty-field check fails only if class or assignment name is empty. |
| `TaskScreen.DueDateLabel` | client/screens/Tasks.js:132 | With no date picked, the label is "Select a date". Otherwise it is `formatDate` of the picked day's local fields, and reads back as the local month `getMonth() + 1`, the local day plus one, and the local year. |
| `TaskScreen.DueDateLabelShowsNextDay` | client/screens/Tasks.js:132 | Where the local fields are the picked day's own (UTC), the label shows the day after the picked day, never the picked day. On a month's last day that day does not exist. |
| `TaskScreen.CorrectedDueDateLabel` | client/screens/Tasks.js:132 | The corrected label: the placeholder with no date picked, otherwise a `MM/DD/YYYY` text that reads back as exactly the picked day. |
| `TaskScreen.Handle` | client/screens/Tasks.js:95-172 | The save button runs `handleAddTask`. Every other control leaves the list as it is and raises no alert. The add button opens the modal and cancel closes it. Typing sets the class or assignment name field. The due-date button opens the calendar and the calendar's close button closes it. Picking a day runs `handleDateSelect`. Each control changes only its own form field. |
| `TaskScreen.ResortEffect` | client/screens/Tasks.js:76-79 | When the list did not change, the effect leaves it as it is. When it changed, the result is the stable due-date sort of the new list, with the same tasks. A list already in due-date order comes back unchanged either way. |
| `TaskScreen.StepKeepsInvariant` | client/screens/Tasks.js:76-79 | From a sorted list with distinct names, every event keeps both properties, and the re-sort effect then has nothing to change. |
| `TaskScreen.RunKeepsInvariant` | client/screens/Tasks.js:76-79 | Any sequence of events preserves due-date order and distinct assignment names. |
| `TaskScreen.ReachableListsAreSorted` | client/screens/Tasks.js:21-27 | Starting from the empty list, the list is in due-date order with distinct assignment names after any sequence of events. |
| `Dates.BeforeTrichotomy` | client/screens/Tasks.js:8 | For any two due dates, exactly one of "before", "same day" or "after" holds, so the comparator is a consistent total order. |
| `Dates.SlashDate` | client/screens/Tasks.js:14-17 | The `month/day/year` template has exactly two '/', at positions 2 and 5. Its length is 6 plus the length of the year, and it reads back as the month, day and year it was built from. |
| `Dates.FormatDate` | client/screens/Tasks.js:12-18 | The as-written rendering has exactly two '/'. Month and day are two characters each, and it reads back as month `getMonth() + 1`, day `getDate() + 1` and the same year. |
| `Dates.FormatDateShiftsDay` | client/screens/Tasks.js:15 | For every local date, the date shown is not the local date. On the last day of a month it is a day that does not exist. |
| `Dates.FormatDateCounterexample` | client/screens/Tasks.js:15 | In any year, 30 April is shown as day 31 of April and 31 May as day 32 of May, and neither day exists. |
| `Dates.FormatDueDate` | client/screens/Tasks.js:12-18 | The corrected rendering of a calendar date reads back as exactly that date, with exactly two '/'. |
| `Decimal.NatToString` | client/screens/Tasks.js:14-16 | `toString` of a non-negative integer gives digits with no leading zero whose value is the integer. One digit below 10, two digits from 10 to 99. |
| `Decimal.ParseIntToString` | client/screens/Tasks.js:16-17 | The year's `toString`, with a minus sign when negative, reads back as the year. |
| `Decimal.PadStart` | client/screens/Tasks.js:14-15 | `padStart` keeps a string already `width` long. A shorter one gets fill characters in front until it is exactly `width` long, and ends with the original string. |
| `Decimal.TwoDigitsShape` | client/screens/Tasks.js:14-15 | A number below 100, rendered and zero-padded to two characters, gives exactly two digits whose value is n. |
| `ChangePassword.RunRemote` | screens/ChangePassword.js:41-52 | The calls made are a prefix of the given order. All calls are made, with no error, exactly when every call succeeds. Otherwise the last call made is the first that failed, its message is the error, and every earlier call succeeded. |
| `ChangePassword.HandleChangePassword` | screens/ChangePassword.js:24-60 | Checks run in order: empty field, then mismatch, then signed-in. The first two make no remote call and never touch `loading`. The signed-in check sets it true then false. Remote calls follow the fixed order reauthenticate, update password, record timestamp, and the first failure stops the rest and shows its message. Success, shown with navigation back, needs exactly: non-empty fields, new equal to confirm, a signed-in user and three successful calls. No length rule and no "differs from current" rule apply. `loading` ends false on every modelled path. |

## Left out

- Parsing dates with `new Date(dateString)` and converting them to local time
  (client/screens/Tasks.js:8, 13). Results depend on the device time zone.
  `formatDate` takes the local fields as inputs, and the sort compares calendar
  dates directly. An invalid date string (time value NaN) is not modelled. The
  calendar widget only produces valid `YYYY-MM-DD` strings.
- `Dates.Before`: stands for the sign of `new Date(a) - new Date(b)`. It matches
  that sign for calendar dates, but this is assumed, not proved from the ECMAScript
  date algorithms.
- `Date.now()` for the task id (client/screens/Tasks.js:43). It is nondeterministic,
  so it is a parameter.
- `TaskScreen.ResortEffect`: React's rule for when an effect re-runs is simplified
  to "the list value changed". `Array.prototype.sort` sorts in place, and React
  compares by reference. Both are left out. The effect is proved to change nothing
  on every reachable list either way.
- Rendering, styles, `FlatList`, the modal views, and the calendar's `minDate`
  restriction (client/screens/Tasks.js:82), which the calendar library enforces.
- `TaskScreen.Handle`: covers only the screen's state changes, not which controls
  are visible. A save pressed while the modal is closed is therefore not ruled out.
- The Firebase calls in `ChangePassword`. Each of the three remote calls is an
  abstract success or failure with a message. Building the credential from
  `user.email` is not modelled, and neither is the `Date` written as
  `passwordLastUpdated`.
- `ChangePassword.HandleChangePassword`: `getAuth()` and building the credential
  (screens/ChangePassword.js:36-40) run after `setLoading(true)` and outside the
  `try`. The model assumes they do not throw. If one did (for example `getAuth()`
  with no Firebase app initialised), `setLoading(false)` would never run, `loading`
  would stay true, and the button would stay disabled. So "`loading` ends false"
  holds only on the paths the model has.
- `ChangePassword.HandleChangePassword`: errors thrown by `Alert.alert` or
  `navigation.goBack` inside the try block are not modelled. Neither is a second
  press while `loading` is true, which the disabled button prevents.
- `Alert.alert` is a returned `Alert` value. Navigation back is a returned flag.
- The registration and login screens, their Yup schemas, the auth context, the
  Firebase configuration, the loading spinner, the navigators and the
  placeholder screens contain no modelled logic.
- Automatic deletion of overdue tasks and due-date notifications are not part of
  this model. Neither appears in the modelled screens.

## Findings

| source | as written | input that shows it | evidently intended | confidence | as-written member | corrected member |
|---|---|---|---|---|---|---|
| client/screens/Tasks.js:15 | the day shown is `getDate() + 1` of the parsed date, and the month is `getMonth() + 1` of the same parsed date | due date `2024-05-01` on a device west of UTC: local date 30 April 2024, shown `04/31/2024`. Due date `2024-05-31` in UTC: shown `05/32/2024` | show the stored calendar date's own month, day and year | not executed; high (the shown date is never the local date, and on a month's last day it does not exist) | `Dates.FormatDateCounterexample` | `Dates.FormatDueDate` |

The due-date label is modelled both ways: `TaskScreen.DueDateLabel` calls
`formatDate` as written, and `TaskScreen.CorrectedDueDateLabel` uses the
corrected `Dates.FormatDueDate`.
