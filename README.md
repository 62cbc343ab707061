# Building-management workflow, modelled in Dafny

The application is a small campus building-management service on a MySQL
database. Students report complaints (electrical faults, leaks, broken
infrastructure, network outages, security concerns) and lost items. A
complaint is routed at submission to an officer of the department its
category belongs to. An administrator later updates its status. The users
table carries a points balance: a student earns one point per submitted
complaint, and three more the first time that complaint is marked
`Resolved`. The top ten students are shown on a leaderboard.

This project models the data layer of `app.py`:
- the three tables with their column defaults and the seven default accounts;
- the statements that insert and update rows;
- the queries that read them back.

The modules:

- `Wrappers`: `Option`, standing for SQL `NULL`.
- `Schema`: the rows of `users`, `complaints` and `lost_items`, the status and
  role strings, the seed accounts of `init_db`, uniqueness of usernames, and
  the rule that `created_at` stamps grow with ids.
- `Tables`: two scans over a table keyed by its auto-increment id: the first
  matching row (used by `login` and `get_officer_by_department`), and all
  matching ids newest first (used by the complaint and lost-item lists).
- `Router`: the category-to-department table, `get_officer_by_department`, and
  the officer a new complaint is assigned to.
- `Ledger`: `award_points`, and the points ledger. The ledger says that every
  user holds exactly 1 point per own complaint, plus 3 per own complaint whose
  `points_awarded` flag is set.
- `Queries`: `login`, `get_user_complaints`, `get_lost_items` and `get_leaderboard`.
- `Lifecycle`: the whole database as a value. Each insert or update is a
  function from the old state to the new one. Lemmas show that each keeps the
  schema's constraints (ids, foreign keys, timestamps, flags) and the ledger.
- `Workflow`: class `Store`, the database as a mutable object. It has one
  method per function of the application that inserts or updates rows. Each method is
  proved to end in the state the matching `Lifecycle` transition gives. Each
  method also preserves `Valid()` (the constraints) and `LedgerBalanced()`
  (the ledger), with three exceptions:
  - `AwardPoints` keeps only `Valid()`, since a bare award of any amount
    breaks the ledger;
  - `InsertUserIgnore` keeps the ledger only for an account with 0 points;
  - `UpdateComplaintStatus` keeps `Valid()` only when the assignee is a user.
- `Scenarios`: scenarios proved on the freshly seeded database. The student logs in, a
  Water & Sanitation complaint goes to the plumber and pays one point, and
  resolving it twice pays three points once.

Modelling choices:
- Timestamps (`created_at`) come from a logical clock that each insert
  advances. `ORDER BY created_at DESC` is therefore stated as non-increasing
  timestamps. The order among equal timestamps is not specified.
- The complaint and lost-item lists are returned newest id first. The
  leaderboard is sorted by points.
- Statuses, roles and categories are strings, as the `VARCHAR` columns are.
  `update_complaint_status` and `update_lost_item_status` accept any status
  from any status.
- An insert whose `user_id` names no user violates the `FOREIGN KEY`. The
  statement fails and no row changes. In `submit_new_complaint` the point is
  awarded after the `INSERT`, so a failed insert pays nothing either. The
  auto-increment counter is not advanced on that path (see "Left out").
- `get_officer_by_department` has no `ORDER BY`. The model picks the lowest
  matching id and proves only what holds for any choice the database could
  make: the result is an officer of the department, and it is `None` exactly
  when there is none.
- Every status-update call from the user interface passes no `assigned_to`, so
  `assigned_to` is overwritten with `NULL` on every update. The model
  overwrites it with whatever is passed, as the code does.

## Model

| member | source | states |
|---|---|---|
| Lifecycle.SeedInsertsEveryDefault | app.py:107-121 | `Seed(i)`, the state after the first i `INSERT IGNORE`s of the seed loop, has none of them ignored: account k of the list gets id k+1, and the other tables are empty |
| Lifecycle.SeedIsConsistent | app.py:107-121 | the seeded database satisfies every constraint and the points ledger |
| Lifecycle.SeededUsersShape | app.py:107-121 | after i seed inserts, the user ids are exactly 1..i, and id k holds seed account k-1 |
| Lifecycle.SeedUsernamesFresh | app.py:107-121 | no seed account's username is taken by an earlier one |
| Lifecycle.InsertUserIgnore | app.py:118-121 | a taken username changes nothing; otherwise the user is added under the next id, and nothing else changes |
| Lifecycle.InsertUserKeepsInvariants | app.py:55-62 | the insert keeps UNIQUE(username) and the id bounds; with 0 points (the column default) it keeps the ledger |
| Lifecycle.UsersOkInsert | app.py:56-57 | inserting a fresh username under the next id keeps the users table's constraints |
| Lifecycle.UsersOkAward | app.py:138-142 | changing points keeps the users table's constraints |
| Ledger.Award | app.py:132-148 | user u gains k points; every other user is unchanged; an unknown id changes nothing |
| Workflow.Store.AwardPoints | app.py:132-148 | the object's users become `Award(old users, u, k)`, the rest is unchanged, and Valid is kept |
| Router.CategoryTableShape | app.py:277-283 | the keys are the five categories and the values the five departments, injectively (exactly 5 pairs) |
| Router.DepartmentFor | app.py:285 | a department exactly for the five categories, and it is one of the five departments |
| Router.DepartmentExamples | app.py:278-279 | Electrical Issues maps to Electrical, Water & Sanitation to Plumbing, any other category to none |
| Router.OfficerByDepartment | app.py:239-251 | Some: an existing user with role officer and that department; None exactly when no such user exists |
| Router.AssignedOfficer | app.py:285-286 | an unknown category gets none; otherwise an officer of its department, or none exactly when the department has no officer |
| Lifecycle.NewComplaint | app.py:294-297 | the inserted row has the given columns, status Pending Admin Review, the routed officer, no notes, award flag false and the current timestamp |
| Lifecycle.SubmitComplaint | app.py:269-315 | an unknown reporter changes nothing and yields no id; otherwise a row under the next id, reporter +1 point, the other complaints and lost items unchanged |
| Lifecycle.SubmitKeepsConsistent | app.py:294-300 | the new id was free, and the submission keeps every constraint, including both foreign keys of the row |
| Lifecycle.SubmitKeepsBalance | app.py:299-300 | the one point paid is matched by the new complaint's share of the ledger |
| Lifecycle.ComplaintsOkInsert | app.py:68-84 | inserting a row with existing reporter and assignee and the current stamp keeps the complaints table's constraints |
| Lifecycle.UpdateComplaintStatus | app.py:317-351 | an unknown id changes nothing; otherwise status, assignee and admin notes are overwritten and the other columns and rows kept; the flag becomes set on Resolved; the reporter gains 3 points exactly when the status is Resolved and the flag was clear |
| Lifecycle.UpdateKeepsConsistent | app.py:328-343 | given an assignee that is a user, the update keeps every constraint, including that a Resolved complaint has its flag set |
| Lifecycle.UpdateKeepsBalance | app.py:328-335 | the three points are paid exactly when the flag goes from clear to set, so the ledger is kept |
| Lifecycle.ComplaintsOkReplace | app.py:338-343 | rewriting a row keeps the table's constraints when reporter and stamp are left alone |
| Lifecycle.ResolutionPaidOnce | app.py:328-335 | two updates to Resolved leave the flag set, the second pays nothing, and together they pay 3 exactly when the flag was clear |
| Ledger.SubmissionKeepsBalance | app.py:300 | adding an unflagged complaint and paying its reporter 1 keeps points equal to earned rewards |
| Ledger.UpdateKeepsBalance | app.py:328-343 | replacing a complaint (same reporter, flag never cleared) pays 3 exactly when the flag goes from clear to set, and keeps the ledger |
| Ledger.NewUserKeepsBalance | app.py:61 | a new user with 0 points and no complaints keeps the ledger |
| Lifecycle.NewLostItem | app.py:365-368 | the inserted row has the given columns, status Lost (the column default), no notes and the current timestamp |
| Lifecycle.SubmitLostItem | app.py:353-376 | an unknown reporter changes nothing; otherwise a row under the next id with status Lost and no notes; users, points and complaints are unchanged |
| Lifecycle.SubmitLostItemKeepsInvariants | app.py:364-367 | the new id was free, and the insert keeps every constraint and the ledger |
| Lifecycle.LostItemsOkInsert | app.py:90-102 | inserting a row with an existing reporter and the current stamp keeps the lost_items table's constraints |
| Lifecycle.UpdateLostItemStatus | app.py:405-422 | an unknown id changes nothing; otherwise only that item's status and admin notes are overwritten, whatever the old status |
| Lifecycle.UpdateLostItemKeepsInvariants | app.py:409-413 | the update keeps every constraint and the ledger |
| Lifecycle.LostItemsOkReplace | app.py:409-413 | rewriting a row keeps the table's constraints when reporter and stamp are left alone |
| Lifecycle.ComplaintsOkWider | app.py:82-83 | the complaint constraints survive more users and a later clock |
| Lifecycle.LostItemsOkWider | app.py:101 | the lost-item constraints survive more users and a later clock |
| Workflow.Store.Init | app.py:107-121 | Init ends in the seeded state and satisfies Valid and LedgerBalanced |
| Workflow.Store.InsertDefaults | app.py:117-121 | the seed loop, started on empty tables, ends in `Seed(7)`: each default account went through `INSERT IGNORE` in list order |
| Workflow.Store.InsertUserIgnore | app.py:118-121 | the object ends in `Lifecycle.InsertUserIgnore` of its old state; Valid is kept, and LedgerBalanced is kept for an account with 0 points |
| Workflow.Store.SubmitComplaint | app.py:269-315 | the object and the returned id are `Lifecycle.SubmitComplaint` of the old state; Valid and LedgerBalanced are kept |
| Workflow.Store.UpdateComplaintStatus | app.py:317-351 | the object ends in `Lifecycle.UpdateComplaintStatus` of the old state; LedgerBalanced is kept, and Valid is kept when the assignee is a user |
| Workflow.Store.SubmitLostItem | app.py:353-376 | the object and the returned id are `Lifecycle.SubmitLostItem` of the old state; Valid and LedgerBalanced are kept |
| Workflow.Store.UpdateLostItemStatus | app.py:405-422 | the object ends in `Lifecycle.UpdateLostItemStatus` of the old state; Valid and LedgerBalanced are kept |
| Tables.FirstMatch | app.py:176-177 | the least id of a matching row, and None exactly when no row matches |
| Tables.NewestFirst | app.py:192-218 | exactly the ids of the matching rows, strictly decreasing |
| Queries.Login | app.py:172-186 | Some: a user with exactly this username and password; None exactly when there is none |
| Queries.LoginUnique | app.py:57 | under UNIQUE(username), a user with these credentials is the one login returns |
| Queries.ComplaintsFor | app.py:188-224 | admin sees every complaint, an officer those assigned to them, anyone else their own; each row carries the reporter's and assignee's usernames (NULL when absent); every visible complaint is listed once, newest id first |
| Queries.ComplaintsNewestFirst | app.py:198 | when stamps follow ids, the rows' created_at is non-increasing |
| Queries.LostItemsFor | app.py:378-403 | admin sees every item, anyone else their own, with the reporter's username; every visible item is listed once, newest id first |
| Queries.LostItemsNewestFirst | app.py:387 | when stamps follow ids, the rows' created_at is non-increasing |
| Queries.Students | app.py:157-159 | every entry is the username, points and role of a user whose role is student, and every such user has an entry |
| Queries.StudentsCount | app.py:157-159 | one entry per student: the list is exactly as long as the set of student ids |
| Queries.StudentsDistinct | app.py:157-159 | under UNIQUE(username), no username is listed twice |
| Queries.Insert | app.py:160 | inserting into a list sorted by points, highest first, keeps it sorted and adds exactly that entry |
| Queries.SortByPoints | app.py:160 | a permutation of the input, sorted by points, highest first |
| Queries.PrefixIsTop | app.py:160-161 | in a list sorted by points, nobody outside the first m has more points than anyone inside |
| Queries.Top | app.py:160-161 | min(10, n) entries taken from the input, sorted by points, and nobody left out outranks anyone kept |
| Queries.Leaderboard | app.py:150-170 | at most 10 students, all with role student, drawn from the users, highest points first, and no student left out has more points than one shown |
| Queries.LeaderboardOncePerStudent | app.py:156-162 | under UNIQUE(username), no student appears twice, and the board shows ten students, or all of them when there are fewer |
| Scenarios.Initial | app.py:107-121 | the seeded database: users 1..7 are the seed accounts, and the other tables are empty |
| Scenarios.StudentLogsIn | app.py:172-180 | the seeded student logs in with password `student` as user 7 |
| Scenarios.StudentWrongPasswordRefused | app.py:176 | any other password for `student` is refused |
| Scenarios.WaterGoesToPlumber | app.py:277-286 | on the seeded database, Water & Sanitation is routed to the plumber, user 3 |
| Scenarios.PlumbingComplaintRouted | app.py:294-300 | the student's first such complaint gets id 1, status Pending Admin Review, user 3 as assignee, and the student ends with 1 point |
| Scenarios.ResolvedTwicePaysOnce | app.py:328-335 | resolving that complaint twice leaves the student with 4 points |

## Left out

- The Streamlit user interface, session state, form validation and messages: presentation only.
- The connection pool, connection failures and the errno handling in
  `get_connection` are not modelled; the model assumes every connection
  succeeds. When `award_points` gets no connection it pays nothing, but its
  caller still inserts the complaint or sets `points_awarded`, so the ledger
  would no longer hold. Functions that call `init_connection` raise instead.
- `DROP TABLE` and `CREATE TABLE` in `init_db`: the model starts from empty
  tables with the declared columns, defaults and constraints.
- `save_uploaded_file`: the image path it returns is an opaque optional
  string parameter; file I/O and the timestamped file name are not modelled.
- Wall-clock time: `created_at` and `lost_time` are natural numbers; the
  clock is a logical counter, not `CURRENT_TIMESTAMP`.
- Concurrency: two updates of the same complaint running at once could both
  read a clear flag and both pay the resolution reward. The model treats
  statements one at a time.
- Database errors other than an unknown reporter on insert. In particular,
  `award_points` in the Resolved branch runs before the `UPDATE`, so an
  `UPDATE` that then fails would leave the points paid and the flag clear.
- Workflow.Store.UpdateComplaintStatus: keeps Valid only when `assigned_to`
  names an existing user (or is NULL). The foreign key on `assigned_to` would
  make any other update fail after points were paid, and that error path is
  not modelled.
- Ledger.Award: points are unbounded integers; the `INT` column's 32-bit
  overflow is not modelled.
- Username and password comparison is exact. MySQL's default collations
  compare case-insensitively. MySQL 8.0's `utf8mb4_0900_ai_ci` also ignores
  accents, and the older PAD SPACE collations ignore trailing spaces.
- The `is_admin` parameter of `update_complaint_status` is never read, and
  the model has no counterpart.
- `get_officers` is not part of this model: nothing in the application calls it.
- The order among rows with equal `created_at`, and among students with equal
  points, is whatever MySQL returns. The model fixes one order (newest id
  first, insertion order for ties) and states only what ORDER BY guarantees.
- Auto-increment values used up without a row are not modelled. With InnoDB,
  an `INSERT` that fails on a foreign key still consumes the id it was given.
  An `INSERT IGNORE` skipped for a duplicate username may consume one too,
  depending on the lock mode. The model advances `nextUserId`,
  `nextComplaintId` and `nextLostItemId` only when a row is inserted, so after
  such a failure later rows get smaller ids than MySQL would give. No property
  here depends on ids being contiguous.
- `login` returns the whole row; the model returns its id, from which the row
  is `users[id]`.
