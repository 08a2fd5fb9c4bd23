# TaskTracker: dashboard pipeline, account rules and admin panel

This project models three parts of the TaskTracker web application and proves properties about them.

- **The dashboard client** (`app/static/js/app.js`). The browser holds the user's task list. It derives the cards it shows in four steps: the mobile status tab, the filter select, the sort select and the search box. The filtered cards go into three status columns, while the header counts, the progress percentage and the quick statistics come from the full list. Around this pipeline sit:
  - the status checkbox cycle;
  - the tab toggle;
  - the task modal, which either edits or creates a task;
  - the handlers that reload the list after every change.
- **The account rules of the server** (`app/auth.py`):
  - registration and login, with the order of their error messages;
  - the session after login and logout;
  - the `login_required` and `admin_required` gates;
  - the user API, including the ban on deleting your own account.
- **The admin panel** (`app/static/js/admin.js`):
  - the user table, with a lock instead of a delete button on the admin's own row;
  - the user and admin totals;
  - the confirm → delete → remove row → reload flow.

Modules:

- `Basics`: `Option`, server replies, and `Filter`, which models the order-keeping `Array.prototype.filter`.
- `Text`: ASCII `toLowerCase` and `includes`.
- `Tasks`: the task record, calendar days, `isOverdue` and the status cycle.
- `Pipeline`: `applyFilters`. The comparator is modelled, and an in-place insertion sort on an array is proved equal to a functional sort.
- `Board`: `renderTasks`, `updateProgressBar` and `updateQuickStats`.
- `Auth`: the server. Pure decision functions plus an `AuthService` class that holds the user table, the session and the queued flashes.
- `Admin`: an `AdminPanel` class whose methods update the rendered container, the totals and the alerts.
- `Dashboard`: a `DashboardState` class that holds the module-level variables of `app.js`, with one method per handler.

Modelling choices:

- **Days.** A day is a `Date(year, month, day)` and "today" is a parameter. `Ordinal` places days on a time line with 31-day months. On valid days this ordering is the calendar order (`Tasks.BeforeIsCalendarOrder`).
- **Outside inputs.** Server replies, `confirm()` answers, the values of the page controls and the viewport width are all method parameters.
- **Password hashing.** `generate_password_hash` and `check_password_hash` are opaque functions given to the `AuthService` constructor.
- **User table.** It is a sequence of rows in id order. A new row gets SQLite's rowid: one more than the largest id.
- **Code over description.** The `due_today` filter compares only the day of the month and the month (app.js:401-406), not the whole calendar day. The model follows the code. `Pipeline.DueTodayIgnoresYear` and `Board.DueTodayFilterDisagreesWithStat` show the consequence: a task due on today's date last year is listed as due today and is also overdue, while the "due today" statistic, which compares whole dates, does not count it.

## Model

| member | source | states |
|---|---|---|
| Basics.Filter | app/static/js/app.js:381-392 | `filter` keeps exactly the elements satisfying the predicate, never more than it had, each at most as often |
| Basics.FilterAppend | app/static/js/app.js:392-411 | filtering a concatenation filters each part |
| Basics.FilterKeepsAll | app/static/js/app.js:408-409 | a predicate every element satisfies keeps the whole list, in order |
| Basics.FilterKeepsNone | app/static/js/app.js:453 | a predicate no element satisfies keeps nothing |
| Basics.FilterAgree | app/static/js/app.js:397-399 | predicates that agree on every element filter alike |
| Basics.FilterCountMono | app/static/js/app.js:146-173 | a weaker predicate keeps at least as many elements |
| Basics.FilterFilter | app/static/js/app.js:378-411 | filtering twice keeps what both predicates accept |
| Text.Contains | app/static/js/app.js:437-438 | `includes` holds exactly when some position starts a copy of the needle |
| Text.ContainsEmpty | app/static/js/app.js:435 | the empty string occurs in every string |
| Text.LowerIdempotent | app/static/js/app.js:373 | lower-casing twice is lower-casing once |
| Tasks.BeforeIsCalendarOrder | app/static/js/app.js:444-449 | on valid days, "before" is year, then month, then day order |
| Tasks.NextStatusMoves | app/static/js/app.js:590-598 | the checkbox never leaves a status unchanged |
| Tasks.ToggledCycle | app/static/js/app.js:590-598 | todo → in_progress → done → todo has period three, so only the click count modulo 3 matters |
| Tasks.ToggledVisitsAll | app/static/js/app.js:590-598 | within three clicks every status is reached from any start |
| Pipeline.SortInPlace | app/static/js/app.js:413-433 | the in-place sort of the array copy leaves it equal to the insertion sort of its old contents |
| Pipeline.InsertInPlace | app/static/js/app.js:413-433 | one insertion step turns the sorted prefix plus the next element into their insertion, and the rest of the array is untouched |
| Pipeline.ShiftLarger | app/static/js/app.js:413-433 | the shift loop moves right exactly the prefix elements the comparator places after the key, and stops at the first that is not |
| Pipeline.InsertAt | app/static/js/app.js:413-433 | inserting splits the list where the comparator stops moving the element left |
| Pipeline.OverdueFilterAgrees | app/static/js/app.js:397-399 | the `overdue` filter equals `isOverdue` on every task: dated, not done, due before today |
| Pipeline.HighPriorityKeepsHigh | app/static/js/app.js:394-395 | `high_priority` keeps exactly the high-priority tasks |
| Pipeline.ShowAllKeepsAll | app/static/js/app.js:408-409 | any other filter value keeps every task, in order |
| Pipeline.DueTodayKeepsOpenDated | app/static/js/app.js:401-406 | `due_today` keeps a task iff it is in the list, has a due date, is not done, and its day and month are today's |
| Pipeline.DueTodayIgnoresYear | app/static/js/app.js:401-406 | a task due on today's day and month of last year passes `due_today` and is also overdue |
| Pipeline.PriorityCompareSign | app/static/js/app.js:418-428 | the priority comparator puts `a` first iff its rank is lower, or the ranks tie and `a` is overdue; it never returns 0 |
| Pipeline.PriorityCompareNotAntisymmetric | app/static/js/app.js:424-425 | two overdue tasks of one rank each compare as first |
| Pipeline.CompareCoherent | app/static/js/app.js:413-433 | every comparator's sign agrees with a sort key (when due dates are present for `due_date`) |
| Pipeline.InsertPermutes | app/static/js/app.js:413 | insertion adds exactly the element |
| Pipeline.SortPermutes | app/static/js/app.js:413 | the sort is a permutation |
| Pipeline.SortedAppend | app/static/js/app.js:413-433 | appending an element ranked no lower keeps a list sorted |
| Pipeline.InsertSorted | app/static/js/app.js:413-433 | inserting into a sorted list keeps it sorted |
| Pipeline.SortSorted | app/static/js/app.js:413-433 | the sort's result is ordered by the comparator's key |
| Pipeline.PrioritySortOrder | app/static/js/app.js:418-428 | sorting by priority: ranks never decrease, and overdue tasks come first within a rank |
| Pipeline.CreatedSortNewestFirst | app/static/js/app.js:430-431 | sorting by `created_at` puts the newest first |
| Pipeline.DueDateSortEarliestFirst | app/static/js/app.js:415-416 | sorting dated tasks by due date puts the earliest first |
| Pipeline.UnlistedSortKeepsOrder | app/static/js/app.js:413-433 | an unlisted sort value leaves the order alone |
| Pipeline.SearchKeepsMatches | app/static/js/app.js:435-440 | the search only removes tasks; it keeps exactly the tasks whose lower-cased title or tags contain the query, and keeps all of them for an empty query |
| Pipeline.SortKeepsMembers | app/static/js/app.js:413-433 | the sort keeps the same members |
| Pipeline.DisplayedExactly | app/static/js/app.js:370-442 | a task is shown iff it is in the list and passes the tab (on narrow screens), the filter and the search; nothing is added or duplicated |
| Pipeline.TabShowsOnlyItsStatus | app/static/js/app.js:378-390 | with a tab active below 768px, every shown task has the tab's status |
| Board.OfStatusCons | app/static/js/app.js:291-293 | the bucket of a list starting with `h` holds `h` iff `h` has that status, followed by the bucket of the rest |
| Board.BucketsPartition | app/static/js/app.js:271-293 | the three status buckets together hold every task exactly once |
| Board.BucketSizes | app/static/js/app.js:271-273 | the three header counts add up to the list length |
| Board.OpenIsTodoAndInProgress | app/static/js/app.js:146-152 | the open count is the to-do count plus the in-progress count |
| Board.ColumnOfBucket | app/static/js/app.js:296-364 | a column shows its bucket (a placeholder iff the bucket is empty, otherwise one card per task in order) with its status's checkbox class |
| Board.RenderShowsBuckets | app/static/js/app.js:263-368 | the header counts come from the full list and sum to its length; the columns show the filtered buckets in filtered order; only done cards are completed, and none of them is overdue |
| Board.RoundedPercent | app/static/js/app.js:455 | integer `Math.round(100·part/total)`: the result is the nearest integer, with halves rounded up; 0 when the total is 0 |
| Board.RoundedPercentRange | app/static/js/app.js:455 | the percentage lies in 0..100; it is 0 when nothing is done and 100 when everything is |
| Board.ProgressRange | app/static/js/app.js:451-455 | progress is 0 for an empty or all-open list, 100 for an all-done list, and in 0..100 in every case |
| Board.QuickStatsConsistent | app/static/js/app.js:137-176 | open = todo + in progress; due-today and overdue are at most open; overdue equals what the `overdue` filter keeps; completed today is at most done; the workload is at most the list length |
| Board.DueTodayFilterDisagreesWithStat | app/static/js/app.js:155-160 | the `due_today` filter lists a task from last year's same date, while the quick statistic does not count it |
| Auth.FindById | app/auth.py:37 | `User.query.get` returns a row with that id, or none iff no row has it |
| Auth.FindByName | app/auth.py:88 | `filter_by(username).first()` returns a row with that name, or none iff no row has it |
| Auth.FindByIdUnique | app/auth.py:37 | in a well-formed table the lookup by id returns that row |
| Auth.NewIdFresh | app/auth.py:61-63 | a new row's id is positive and larger than every existing id |
| Auth.ConsWellFormed | app/auth.py:61-63 | a row placed before rows with larger ids and other names keeps the table well formed |
| Auth.WithoutUser | app/auth.py:148-149 | after deleting an id, exactly the rows with other ids remain |
| Auth.WithoutAbsent | app/auth.py:143-145 | deleting an id no row has changes nothing |
| Auth.WellFormedTail | app/auth.py:61-63 | the tail of a well-formed table is well formed, and its rows come after the head |
| Auth.WithoutUserWellFormed | app/auth.py:148-149 | deleting keeps ids increasing and names unique |
| Auth.WithId | app/auth.py:143 | only rows with that id are picked out |
| Auth.WithoutSplits | app/auth.py:148-149 | deleting an id splits the table into the kept rows and the rows with that id |
| Auth.WithIdSingle | app/auth.py:143-149 | a well-formed table has exactly one row for an id it holds |
| Auth.NoRowWithId | app/auth.py:143-145 | a missing id picks out no row |
| Auth.WithoutUserExactly | app/auth.py:143-150 | deleting an existing id removes exactly the row found for it; deleting a missing id changes nothing |
| Auth.WithoutUserKeepsOthers | app/auth.py:148-149 | deleting one id leaves every lookup of another id unchanged |
| Auth.UserViews | app/auth.py:128-134 | one entry per user, in table order, with id, name and role and no hash |
| Auth.SessionUser | app/auth.py:30-37 | `g.user` is a row of the table whose id is the session's `user_id`; there is no user iff the session has no `user_id` or no row has that id |
| Auth.LoginGateDecides | app/auth.py:11-17 | `login_required` lets exactly logged-in users through, as themselves, and redirects everyone else to login |
| Auth.StackedGatesAreAdminGate | app/auth.py:19-28 | both gates stacked decide as `admin_required` alone: only admins pass; anonymous users go to login, other users to the index with an error flash |
| Auth.RegisterError | app/auth.py:50-59 | the first complaint: "Username is required." iff the username is empty; otherwise "Password is required." iff the password is empty; otherwise "already registered" iff the name is taken; none otherwise |
| Auth.LoginCheck | app/auth.py:88-93 | a login succeeds iff the row found by that name has a hash that checks, and it logs in that row; "Incorrect username." iff no row has the name; "Incorrect password." iff the row's hash fails |
| Auth.FindByNameUnique | app/auth.py:88 | in a well-formed table the lookup by name returns that row |
| Auth.CorrectPasswordLogsIn | app/auth.py:88-97 | every user of a well-formed table logs in as themselves with a password their hash accepts, and gets "Incorrect password." with any other |
| Auth.RegisterKeepsWellFormed | app/auth.py:57-63 | adding an accepted registration keeps the table well formed |
| Auth.RegisterThenLogin | app/auth.py:57-97 | after a registration is accepted, logging in with the same name and password logs in the new row |
| Auth.FindNameAppended | app/auth.py:58-63 | a name no row had is found at the appended row |
| Auth.DeleteEndsOnlyThatSession | app/auth.py:30-37 | deleting a row ends the sessions that point to it and leaves every other session's user unchanged |
| Auth.AuthService.constructor | app/auth.py:9 | starts with an empty table, session and flash queue |
| Auth.AuthService.Enter | app/auth.py:11-28 | the route's decorators decide, and the admin gate's refusal flash is queued |
| Auth.AuthService.Register | app/auth.py:39-74 | GET shows the form; a refused POST flashes the complaint and adds nothing; an accepted POST adds exactly one non-admin row with the hashed password and returns 201; the table stays well formed |
| Auth.AuthService.Login | app/auth.py:76-108 | a refused login flashes the complaint and leaves the session unchanged; an accepted one replaces the whole session (pending flashes included) with that user's id, so the session's user is that user |
| Auth.AuthService.Logout | app/auth.py:110-114 | the session is cleared, nobody is logged in, and only the goodbye flash is queued |
| Auth.AuthService.AdminUsersPage | app/auth.py:117-121 | the admin page, behind both gates |
| Auth.AuthService.ApiUsers | app/auth.py:124-134 | behind both gates: every user in table order, plus the asking admin's id |
| Auth.AuthService.ApiDeleteUser | app/auth.py:136-150 | deleting your own id gives 400; a missing id gives 404; both leave the table unchanged; otherwise exactly that row goes and the message names it; the asking admin stays logged in |
| Auth.AuthService.DeleteRow | app/auth.py:147-149 | removing another user's existing row keeps the table well formed and the session's user |
| Auth.AuthService.ApiCurrentUser | app/auth.py:153-160 | behind the login gate: the session's own user |
| Admin.RowsOf | app/static/js/admin.js:47 | one row per user, in order, each rendered by `renderUserRow` |
| Admin.RemoveFirstRow | app/static/js/admin.js:112-119 | at most one row goes; with no matching row nothing changes |
| Admin.RemoveFirstRowExactly | app/static/js/admin.js:112-119 | when the first row tagged with the id is at position i, exactly that row goes and the others keep their order |
| Admin.RenderShowsEveryUser | app/static/js/admin.js:26-74 | the empty state appears iff the list is empty; otherwise one row per user, in order, tagged with id, name and role; the lock appears iff the id is the current user's, and every other row gets a delete button for its own user |
| Admin.LockCount | app/static/js/admin.js:53-62 | the number of locked rows equals the number of users with the current id |
| Admin.StatsBounds | app/static/js/admin.js:76-82 | total users is the list length; admins are at most the users; 0 when no one is an admin; all when everyone is |
| Admin.DeleteButtonsMatchServer | app/static/js/admin.js:53-62 | on the server's list, a row offers delete iff it is not the asking admin's own row (which the server would refuse with 400), and every delete targets a user in the table (so not 404) |
| Admin.RowsOfCons | app/static/js/admin.js:47 | the rows of a table starting with `h` are `h`'s row followed by the rows of the rest |
| Admin.RemoveHeadRow | app/static/js/admin.js:112-119 | removing the first user's row gives the rows of the server's table without that user |
| Admin.RemoveRowMatchesServer | app/static/js/admin.js:99-102 | removing the deleted user's row by hand gives the rows the server's new table renders |
| Admin.AdminPanel.constructor | app/static/js/admin.js:3-10 | starts with no current user, then loads the users once |
| Admin.AdminPanel.LoadUsers | app/static/js/admin.js:12-24 | stores the current id, then renders the rows with it and the totals; on failure, alerts and leaves everything else unchanged |
| Admin.AdminPanel.RemoveUserRow | app/static/js/admin.js:112-119 | removes the first row tagged with the id, or nothing |
| Admin.AdminPanel.DeleteUser | app/static/js/admin.js:84-110 | the DELETE request for the user's id goes out iff the confirmation is accepted. Declined: no request and no change. Failed: "Failed to delete user". Refused: the server's error, rows unchanged. Deleted: the message, the row removed, the list reloaded |
| Dashboard.ModalShowsTask | app/static/js/app.js:490-528 | the modal is open; the delete button shows iff a task is given; heading and label are Edit/Update or Add New/Add; editing pre-fills the task's values, which a save sends back unchanged |
| Dashboard.FindTask | app/static/js/app.js:568 | `find` returns the first task with the id, or none iff no task has it |
| Dashboard.NextTab | app/static/js/app.js:646-659 | a tab click selects the clicked tab unless it was already selected, in which case it clears the selection |
| Dashboard.NextTabTwice | app/static/js/app.js:646-659 | two clicks on one tab restore no selection or that tab; after another tab, they leave none |
| Dashboard.SaveRequest | app/static/js/app.js:546-558 | the save sends PUT to the edited task iff `editingTaskId` is truthy, and POST otherwise, with the form as the body |
| Dashboard.ModalDecidesSave | app/static/js/app.js:490-558 | a modal opened on a task updates that task; one opened for a new task creates one |
| Dashboard.FilterSortSearch | app/static/js/app.js:370-440 | the copy, filtered, sorted in an array and searched, is exactly `Displayed` |
| Dashboard.DashboardState.constructor | app/static/js/app.js:245-248 | the globals start empty: no tasks, no edited task, no tab, no user |
| Dashboard.DashboardState.ApplyFilters | app/static/js/app.js:370-442 | the board shows the pipeline's result; the global `tasks` and all other state are unchanged |
| Dashboard.DashboardState.LoadTasks | app/static/js/app.js:250-261 | on success the list is replaced and shown through the current controls; on failure "Failed to load tasks" and nothing else changes |
| Dashboard.DashboardState.TabClick | app/static/js/app.js:637-665 | toggles the tab and re-filters; below 768px with a tab active, only tasks of that status are shown |
| Dashboard.DashboardState.ShowTaskModal | app/static/js/app.js:490-528 | `editingTaskId` is the given task's id or null; the modal opens for it |
| Dashboard.DashboardState.CloseModal | app/static/js/app.js:530-534 | hides the modal and clears `editingTaskId` |
| Dashboard.DashboardState.EditTask | app/static/js/app.js:567-570 | opens the modal on the first task with the id; an unknown id does nothing |
| Dashboard.DashboardState.SaveTask | app/static/js/app.js:536-565 | the request is PUT or POST by `editingTaskId`; on success the modal closes and the list reloads (a failed reload's alert replaces the success alert); on failure only the error alert changes |
| Dashboard.DashboardState.DeleteTask | app/static/js/app.js:572-582 | declined: no request. Otherwise DELETE; on success the alert and a reload; on failure the error alert |
| Dashboard.DashboardState.ModalDelete | app/static/js/app.js:716-724 | only with an edited task and the first confirmation; `deleteTask` asks again, and the modal closes whatever happens |
| Dashboard.DashboardState.ToggleTaskStatus | app/static/js/app.js:584-608 | an unknown id sends nothing and changes nothing; otherwise the next status in the cycle is sent, then a reload or the error alert |
| Dashboard.DashboardState.LoadCurrentUser | app/static/js/app.js:217-243 | stores and names the user, and shows the admin button for an admin; on failure, goes to `/auth/login` |

## Left out

- Date parsing and time zones: `new Date(...)`, `toDateString` and `setHours` are modelled as calendar days compared on a time line, and "today" is a parameter. Months are treated as 31 days long, which orders valid days correctly but does not check that a day exists.
- Pipeline.Compare: for `due_date` the source subtracts millisecond times, and the model subtracts day ordinals. Only the sign reaches `sort`. The model returns 0 whenever either task has no due date. That matches a due date saved as the empty string, which the task form sends when the date is left blank (app.js:541): `new Date("")` is invalid, the difference is `NaN`, and `sort` reads it as 0. It does not match a `null` due date (the column is nullable, app/models.py:22, and is sent as JSON `null`): `new Date(null)` is 1970-01-01, so the source sorts such a task before every task dated after that day, while the model leaves it in place. Sorting tasks without due dates is specified only through that comparator value.
- Pipeline.SortTasks: `Array.prototype.sort` leaves its algorithm to the engine, and the priority comparator is not antisymmetric (`Pipeline.PriorityCompareNotAntisymmetric`). A concrete insertion sort stands in for the engine's sort, so the order among ties is that sort's, not the browser's.
- Text.Lower: `toLowerCase` is modelled on ASCII A–Z only. Other Unicode case mappings are not modelled.
- Board.RoundedPercent: computed in exact integer arithmetic, not floating point. The progress circle's `strokeDashoffset` and the stat bar widths (floating point, `Math.PI`) are not modelled.
- DOM rendering and display-only text are not modelled:
  - `escapeHtml`, `getPriorityColor` and the card's HTML;
  - `handleTaskCardClick`, which depends on DOM event targets;
  - the greeting, date and week number of `updateDashboardContext`;
  - the light-mode toggle;
  - the login and registration page handlers.
- Asynchronous behaviour and outside effects: `fetch`, `setTimeout` fades and alert expiry, and `window.location` are not modelled. Awaited calls run in order, and a server reply is a parameter of the method that receives it.
- Dashboard.DashboardState.LoadTasks: the first `renderTasks(tasks)` is not kept, because `applyFilters` renders over it at once.
- Dashboard.DashboardState.ModalDelete: the reload's alert after a deletion is not stated; the method states the requests sent and that the modal closes.
- Dashboard.ModalShowsTask: the round trip assumes the task's description and tags are not stored as empty strings. An empty string is falsy in the client and is modelled as no value.
- Request and JSON plumbing: a missing JSON field is modelled as an empty string. werkzeug's 400 for a missing form field, and any answer that is not JSON (which the admin panel's `response.json()` turns into its generic failure), are modelled as failed replies.
- Auth: the hash and check functions are opaque. The register-then-login round trip assumes that checking a password against its own hash succeeds.
- Auth.NewId: SQLite's rowid rule (largest id + 1) stands in for the database's id assignment. Other database behaviour is not modelled: transactions, `Task` rows owned by a deleted user, and concurrent requests.
- Auth.AuthService: one client's session. Cookie signing and several clients are not modelled.
- Not part of this model:
  - app/static/js/sw.js (service-worker caching);
  - app/__init__.py (application wiring);
  - app/tasks.py (task routes);
  - the `Task` columns of app/models.py. The server's `is_done` flag is not reconciled with the client's three statuses, and the client's statuses are used.
