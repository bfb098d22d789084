# Weekly 1:1 report back end, modelled in Dafny

The system is a small HTTP back end for weekly one-to-one reports between
mentors and mentees.

- A user registers with a name, an e-mail, a password and three profile fields.
- A registration that names an existing mentor's e-mail creates a **mentee**
  linked to that mentor. A registration without a mentor e-mail creates a
  **mentor**. A taken e-mail, an unknown mentor e-mail or the e-mail of a user
  who is not a mentor is refused.
- A user logs in with e-mail and password. The stored password is a hash.
- A mentee files at most one report per (week, year). Each report holds
  accomplishments, blockers and aspirations. It records the mentee's mentor at
  filing time and a submission time.
- A mentee's page lists their two latest reports, by (year, week) descending.
- A mentor's page lists every report filed to them, newest submission first,
  each labelled with its mentee's name.
- A report can be updated (its five fields replaced) or deleted.

The model has these modules:

- `Models`: the two tables as datatypes (`User`, `Report`), plus the request
  and response records and the errors. It also holds the store's integrity
  rules (`StoreInvariant`) and one lemma per kind of write showing that the
  write keeps those rules.
- `Seqs`: the two query shapes the code uses. `Find` is the first row
  matching a filter; `Filter` is all matching rows in table order.
- `Security`: password hashing and verification over an injected hash
  function.
- `UserService`: the lookups by e-mail and by id, the profile endpoint, the
  list of a mentor's active mentees, and the registration decision (`NewUser`:
  the refusals, the new row, its role and link). `Backend.Store.Register` only
  commits the row `NewUser` decides.
- `AuthService`: login.
- `ReportService`: the queries behind the report endpoints, as pure functions.
  This covers the two listings, their ordering and limit (a verified insertion
  sort), and the field replacement done by an update.
- `Backend.Store`: a class holding the two tables and the next key of each
  (the largest key plus one, as SQLite assigns it).
  - One method for each endpoint that writes: register, create, update and
    delete a report. Each is specified against the old state and keeps
    `Valid()`.
  - One method for each endpoint that builds its response in a loop: latest
    reports and mentor reports. Each is proved equal to its `ReportService`
    function.
- `Scenarios`: concrete runs whose outcomes follow from the contracts. A mentor
  and a mentee sign up, each of the three sign-up refusals, login, filing, the
  duplicate week, both listings, an edit, a move onto a taken week,
  deleting twice, and a deleted newest report's key handed out again.

Every handler in `main.py` repeats one service function of `app/services/`
with the same logic. The rows below cite the service lines, and the `main.py`
lines only where they are shown. The handlers and the members that model them:

- `/register`, main.py:82-127: `UserService.NewUser`, `Backend.Store.Register`.
- `/login`, main.py:130-146: `AuthService.Authenticate`.
- `/users/{id}`, main.py:149-157: `UserService.GetUser`.
- `/mentors/{id}/mentees`, main.py:160-175: `UserService.GetMentees`.
- `POST /weekly-reports`, main.py:178-238: `ReportService.NewReport`,
  `Backend.Store.CreateReport`.
- `/mentees/{id}/reports/latest`, main.py:241-275: `Backend.Store.LatestReports`.
- `/mentors/{id}/reports`, main.py:278-315: `Backend.Store.MentorReports`.
- `PUT /weekly-reports/{id}`, main.py:318-359: `Backend.Store.UpdateReport`.
- `DELETE /weekly-reports/{id}`, main.py:362-373: `Backend.Store.DeleteReport`.

## Model

| member | source | states |
|---|---|---|
| Seqs.FindIndex | app/services/report_service.py:145 | the index returned holds a row that matches, and no earlier row matches; None only when no row matches |
| Seqs.Find | app/services/user_service.py:10-17 | `.first()`: the row returned is in the table and matches; None exactly when no row matches |
| Seqs.Filter | app/services/user_service.py:79-81 | `.all()`: exactly the matching rows, each with its multiplicity in the table |
| Models.ProfileOf | main.py:30-41 | the `UserResponse` shape: id, name, e-mail, role, the three profile fields and the mentor link of a user, without the password hash or the active flag |
| Models.NextUserKey | models.py:11 | the key SQLite gives a new user: one more than the last (largest) key, 1 for an empty table |
| Models.NextReportKey | models.py:32 | the key SQLite gives a new report: one more than the last (largest) key, 1 for an empty table, so a deleted newest key comes back |
| Models.NextUserKeyIsMaxPlusOne | models.py:11 | with increasing keys, the next user key is above every stored key and is one more than a stored key (1 when empty) |
| Models.NextReportKeyIsMaxPlusOne | models.py:32 | with increasing keys, the next report key is above every stored key and is one more than a stored key (1 when empty) |
| Models.ProfileHidesSecrets | main.py:30-41 | the user response does not depend on the password hash or the active flag |
| Models.StoreInvariant | models.py:11-49 | the rules every store state keeps: increasing unique keys below the next key, which is the largest plus one (models.py:11, :32); unique e-mails (models.py:13); one report per (mentee, week, year) (models.py:48-49); every mentee linked to a mentor and no mentor linked (app/services/user_service.py:31-47); every report filed by a mentee under that mentee's own mentor (app/services/report_service.py:38-40) |
| Models.AddUserKeepsInvariant | models.py:11-20 | adding a user with the next id, an unused e-mail and a valid mentor link keeps unique ids, unique e-mails and valid links |
| Models.AddReportKeepsInvariant | models.py:32-49 | adding a report with the next id, a free (mentee, week, year) and its mentee's mentor keeps unique ids, the unique week constraint and the report links |
| Models.ReplaceReportKeepsInvariant | models.py:48-49 | rewriting a report in place, keeping its id and links and clashing with no other report's week, keeps every rule |
| Models.RemoveReportKeepsInvariant | models.py:32-49 | deleting any report keeps every rule, with the next report key recomputed from the rows left |
| Security.HashPassword | main.py:66-67 | the stored form of a password: the injected hash of it |
| Security.VerifyPassword | main.py:69-70 | a password verifies when its hash equals the stored hash |
| Security.VerifyMatchesHash | main.py:66-70 | a password verifies against its own hash, and a stored hash accepts exactly the passwords that hash to it |
| UserService.FindByEmail | app/services/user_service.py:10-12 | a user returned has exactly that e-mail; None iff no user has it |
| UserService.FindById | app/services/user_service.py:15-17 | a user returned has that id; None iff no user has it |
| UserService.FindByEmailUnique | models.py:13 | with unique e-mails, looking up a stored user's e-mail returns that user |
| UserService.FindByIdUnique | models.py:11 | with unique ids, looking up a stored user's id returns that user |
| UserService.FindByEmailOwner | models.py:13 | with unique e-mails, any stored user with an e-mail is the one the lookup returns |
| UserService.MentorEmailGiven | app/services/user_service.py:34 | a mentor e-mail counts as given only when present and non-empty, as the truthiness test does |
| UserService.Account | app/services/user_service.py:50-59 | the stored row has the given id, the request's e-mail, the chosen role and link, the active flag, and a hash the request's password verifies against |
| UserService.NewUserKeepsInvariant | app/services/user_service.py:20-65 | a registration `NewUser` accepts, appended under the next key, keeps every rule of the store |
| UserService.NewUser | app/services/user_service.py:20-59 | the three refusals in the code's order (e-mail taken, mentor e-mail unknown, not a mentor); success iff none applies; the new row has the given id, the request's fields, the hashed password and the active flag; it is a mentor with no link when no mentor e-mail is given, otherwise a mentee linked to the named mentor, so its link is valid |
| UserService.GetUser | main.py:149-157 | "User not found" iff no user has the id; otherwise the response shape of a stored user with that id |
| UserService.FindMentor | app/services/user_service.py:71 | a user returned has that id and the mentor role; None iff there is no such user |
| UserService.GetMentees | app/services/user_service.py:68-83 | "Mentor not found" iff no mentor-role user has the id; otherwise exactly the active users whose mentor link is that id, with their multiplicities |
| UserService.MenteesAreMentees | app/services/user_service.py:79-81 | in a consistent store every listed user has the mentee role |
| AuthService.Authenticate | app/services/auth_service.py:10-26 | success only for a stored, active user with that e-mail whose hash matches; an unknown e-mail is "Invalid email or password"; those two are the only errors; "deactivated" only after the password matched |
| AuthService.AuthenticateKnownUser | app/services/auth_service.py:12-24 | for a stored user: a wrong password gives "Invalid email or password" whatever the active flag; otherwise an inactive user gives "Account is deactivated"; otherwise that user is returned |
| AuthService.LoginAfterRegister | main.py:112-121 | a user stored with the hash of a password and the active flag set logs in with that password and gets that user back |
| ReportService.Precedes | app/services/report_service.py:80-82 | the two listing orders: (year, week) descending, and submission time descending |
| ReportService.SortedBy | app/services/report_service.py:80-82 | the meaning of `ORDER BY ... DESC` (here and at line 121): every element precedes every later one under the chosen order |
| ReportService.PrecedesTotal | app/services/report_service.py:80-82 | any two reports are comparable under either ordering |
| ReportService.PrecedesTransitive | app/services/report_service.py:80-82 | each ordering is transitive |
| ReportService.SortedCons | app/services/report_service.py:80-82 | an element that precedes all others can be put at the front of a sorted list |
| ReportService.PrecedesHead | app/services/report_service.py:80-82 | an element that precedes the head of a sorted list precedes every element of it |
| ReportService.HeadPrecedesRest | app/services/report_service.py:80-82 | when an element is inserted behind the head, the head still precedes every element behind it |
| ReportService.Insert | app/services/report_service.py:80-82 | inserting into a sorted list gives a sorted list with exactly one more copy of the element |
| ReportService.Sort | app/services/report_service.py:80-82 | `order_by(... desc)`: the result is sorted and is a permutation of the input |
| ReportService.SortedPrefix | app/services/report_service.py:83 | the first k of a sorted list are sorted |
| ReportService.PrefixPrecedesRest | app/services/report_service.py:83 | in a sorted list the first k ranks above everything after them |
| ReportService.MenteeReports | app/services/report_service.py:78-79 | exactly the reports with that mentee id, each with its multiplicity in the table |
| ReportService.LatestTwo | app/services/report_service.py:78-83 | at most two, exactly min(2, n) for n own reports; each is the mentee's; no report more often than the mentee's reports hold it; in (year, week) descending order; no own report left out ranks above one kept |
| ReportService.Label | app/services/report_service.py:86-100 | the response keeps the rows in order and labels every one with the given name |
| ReportService.LatestReports | app/services/report_service.py:67-100 | "Mentee not found" iff no user of any role has the id; otherwise the latest two rows, all labelled with that user's name |
| ReportService.ForMentor | app/services/report_service.py:116-119 | the inner join's filter: the report carries that mentor id and some user has its mentee id |
| ReportService.MentorRows | app/services/report_service.py:116-122 | exactly the reports carrying that mentor id whose mentee row exists, with their multiplicities, newest submission first |
| ReportService.MenteeName | app/services/report_service.py:116-117 | the name a joined row carries belongs to a user with the row's mentee id |
| ReportService.Enrich | app/services/report_service.py:125-139 | the response keeps the rows in order and labels every one with the name of a user whose id is the row's mentee id |
| ReportService.MentorReports | app/services/report_service.py:103-139 | "Mentor not found" iff no mentor-role user has the id; otherwise the mentor's rows, each carrying that mentor id and labelled with its own mentee's name |
| ReportService.MentorRowsExact | app/services/report_service.py:116-119 | in a consistent store the join drops nothing: the rows are exactly the reports with that mentor id |
| ReportService.MentorRowsAreMenteesReports | app/services/report_service.py:116-119 | in a consistent store every row belongs to a mentee linked to that mentor |
| ReportService.FindMentee | app/services/report_service.py:13-15 | a user returned has that id and the mentee role; None iff there is no such user |
| ReportService.FindWeek | app/services/report_service.py:23-29 | a report returned is stored for that mentee, week and year; None iff the mentee has no report for that week and year |
| ReportService.FindReportIndex | app/services/report_service.py:145 | the position returned holds a report with that id; None iff no report has it |
| ReportService.FindReport | app/services/report_service.py:182 | a report returned has that id; None iff no report has it |
| ReportService.NewReport | app/services/report_service.py:10-64 | "Mentee not found" unless the id is a mentee-role user, then the duplicate week; with valid mentor links, success iff neither applies; the new row has the given id, the caller's fields, the clock's time and the mentee's own mentor, and is labelled with the mentee's name |
| ReportService.Revise | app/services/report_service.py:153-157 | the five caller fields are replaced; the id, both user links and the submission time are kept |
| ReportService.FetchAfterReplace | app/services/report_service.py:160-164 | after an in-place rewrite, fetching the id gives the new row, and every other row is unchanged |
| ReportService.RemoveOne | app/services/report_service.py:189-190 | deleting position i removes one copy of that row and nothing else |
| ReportService.RemoveExactly | app/services/report_service.py:189-190 | after a delete, the remaining rows are exactly the old rows with a different id |
| Backend.Store.constructor | models.py:56-57 | empty tables, both next keys at 1, every rule holds |
| Backend.Store.Valid | models.py:11-49 | the store's two tables and next keys satisfy `StoreInvariant` |
| Backend.Store.Register | app/services/user_service.py:20-65 | the outcome is `NewUser` on the old table with the next id; on error nothing is written; on success the row is appended, the next key advances, and every rule still holds |
| Backend.Store.CreateReport | app/services/report_service.py:10-64 | the outcome is `NewReport` on the old tables with the next id; the NOT NULL mentor column never fails in a consistent store; on error nothing is written; on success the row is appended, the next key advances, and every rule still holds |
| Backend.Store.LatestReports | main.py:241-275 | the response built row by row equals `ReportService.LatestReports` |
| Backend.Store.MentorReports | main.py:278-315 | the response built row by row equals `ReportService.MentorReports` |
| Backend.Store.UpdateReport | app/services/report_service.py:142-177 | "Report not found" for an unknown id; a rewrite that clashes with another report's week is refused and changes nothing; otherwise that row is replaced in place by its revision and returned with its mentee's name |
| Backend.Store.DeleteReport | app/services/report_service.py:180-192 | "Report not found" for an unknown id and nothing removed; otherwise exactly that row is removed, no report with that id is left, the next report key is recomputed from the rows left, and the rules still hold |
| Scenarios.MentorSignsUp | main.py:82-127 | a first registration with no mentor e-mail creates mentor 1 |
| Scenarios.SignUp | main.py:82-127 | a registration naming that mentor's e-mail creates mentee 2 linked to mentor 1 |
| Scenarios.FileOne | main.py:178-238 | the mentee's first report gets id 1 and carries their mentor |
| Scenarios.FileTwo | main.py:178-238 | a second week gets id 2 |

## Left out

- The HTTP layer is not modelled: routing, status codes, request parsing and
  `response_model` serialisation. Only the profile endpoint
  (`UserService.GetUser`) applies the `UserResponse` shape (`ProfileOf`).
  Registration, login and the mentee list return the stored `User` row,
  hash included, which the response shape would trim. Errors are the `Error`
  datatype, one constructor per distinct `detail` message.
- The `e-mail` type validation on the request bodies is not modelled. E-mails
  are plain strings compared exactly.
- SHA-256 is not modelled. The hash is a parameter of the store, so every
  result holds for any deterministic hash.
- Database plumbing is not modelled: the engine, sessions, `create_tables`,
  `get_db`, ORM relationships and `refresh`. Keys are modelled as SQLite
  assigns an integer primary key declared without AUTOINCREMENT: the largest
  key in the table plus one (`NextUserKey`, `NextReportKey`). Deleting the
  newest report therefore frees its key for the next report. SQLite's
  fallback to a random unused key once the largest key reaches 2^63 - 1 is
  not modelled.
- Week numbers, years and submission times are unbounded integers. SQLite
  stores INTEGER columns in at most 64 bits, and Python's `sqlite3` raises
  `OverflowError` for a value outside that range. The model accepts such
  values, and it does not check that a week lies in 1..53, as the code does
  not either.
- `created_at` and `updated_at` are not modelled. `submission_date` is the
  store's clock, passed to `CreateReport` as `now`. An update also refreshes
  `updated_at` (app/services/report_service.py:158, main.py:338, the
  `onupdate` of models.py:22 and :42). `Backend.Store.UpdateReport` does not
  track this.
- Concurrency is not modelled. The check-then-insert in registration and
  report creation is atomic in the model. Concurrent requests could reach the
  unique constraints instead.
- Tie order in the two `ORDER BY` clauses is unspecified in SQL. The model
  uses a stable insertion sort, and the contracts constrain the order only up
  to ties.
- `Backend.Store.UpdateReport`: the service does not re-check the week. A
  rewrite that collides with another report of the same mentee violates the
  `unique_mentee_week_year` constraint at commit. The model returns
  `IntegrityError` and leaves the tables unchanged, as a rolled-back commit
  does.
- `UserService.NewUser`: requires unique e-mails in the users table, which
  the unique index on the e-mail column guarantees. Without it, "not a mentor"
  would depend on which of two rows with the same e-mail comes first.
- `Backend.Store.Register`: the code tests `mentor_email` for truthiness, so
  the model treats an empty mentor e-mail as absent (`MentorEmailGiven`). In
  the program an empty mentor e-mail never reaches that test: the request
  field is an optional `EmailStr` (app/schemas/users.py:12, main.py:24),
  whose validation rejects `""` before registration runs. The request
  validation is not modelled, so the model accepts such a request and
  creates a mentor.
- `ReportService.LatestReports`: the code checks only that some user has the
  id, not that the user is a mentee. The model keeps that. A mentor id gives
  an empty list, not "Mentee not found".
- No endpoint deactivates a user. `isActive` is set at registration and can be
  false only in a store built outside these operations. Login and the mentee
  listing still handle the false case.
- The streamlit front end, the duplicate routers under `app/api/` and the
  `/` greeting endpoint are not part of this model.
