# Student report portal — a Dafny model

`Home.py` is a Streamlit school portal with three roles. Teachers enter six
subject marks per student; the app turns them into a total, a percentage and a
letter grade, and stores the result as a report card. Teachers also manage
students, parent e-mail links and parents' meeting requests, and an
administrator can add teachers. Students see their latest report and a
predicted next percentage. Parents sign in with the student's roll number, the
linked e-mail and a one-time code, see the latest report and ask for a meeting.

This project models the logic behind those screens:

- **Grading** (`grading.dfy`): the sum of the six marks, the percentage rounded
  to two decimals, and the six grade bands with their exact labels.
- **Tables** (`tables.dfy`): one datatype per table row, and the queries the
  repository functions run, as functions on sequences of rows:
  - login lookups;
  - the one-e-mail-per-student upsert;
  - the latest meeting request and the latest report;
  - the join of meeting requests with students;
  - the orders used by `ORDER BY`.
- **Repository** (`repository.dfy`): the two SQLite files as classes whose
  fields are their tables.
  - `UsersDb` holds `teachers`, `students`, `parent_accounts` and
    `meeting_requests`.
  - `ReportsDb` holds `reports`.
  - Every write states the exact new table contents. Every read changes
    nothing and is tied to the query function it runs.
  - `Valid()` holds the UNIQUE constraints and fresh AUTOINCREMENT ids, and
    every write preserves it.
- **Predictor** (`predictor.dfy`): the one-step-ahead training window, the
  rule that a prediction needs at least three reports, and the clamp into
  [0, 100].
- **Sequences** (`sequences.dfy`): generic helpers.
  - Filtering (`WHERE`), first match and latest match.
  - SQLite's BINARY string order.
  - An insertion sort used to model `ORDER BY`, with a proof that it sorts
    and permutes.
  - A proof that two sorted permutations are equal when the order has no ties.
- **Scenarios** (`scenarios.dfy`): call sequences of the portals, proved from
  the repository contracts alone.

Representation choices:

- **Percentages** are integer hundredths. `Percentage(total)` is the hundredth
  nearest to total/6. Because total/6 is never exactly halfway between two
  hundredths, this is what `round(total / 600 * 100, 2)` yields for
  totals 0..600.
- **Timestamps** are whole seconds. The source's `%Y-%m-%d %H:%M:%S` text sorts
  the same way these numbers do.
- **Password hashing** (hex SHA-256) is the function `hash`, fixed when a
  `UsersDb` is built and otherwise uninterpreted.
- **The regression fit** is a parameter `fit` of type `Regression`. It
  receives the training inputs, the training targets and the latest scores,
  and returns the raw prediction. `None` means the fit raised, and the
  source's `except` then returns `None`.
- **Rows with equal timestamps**: the source's `ORDER BY ... DESC LIMIT 1`
  leaves their order to SQLite. The contracts therefore promise "a row with the
  greatest time" and "sorted by time, a permutation of the matching rows",
  not one particular row.

## Model

| member | source | states |
|---|---|---|
| Grading.Total | Home.py:584 | the sum of no marks is 0, and adding marks from the left, as `sum` does, gives the same total: the sum of all but the last mark plus the last |
| Grading.TotalBounds | Home.py:571-584 | the sum of marks each in 0..100 lies between 0 and 100 per subject |
| Grading.ValidTotal | Home.py:569-584 | six marks from the 0..100 number inputs give a total in 0..600 |
| Grading.Percentage | Home.py:585 | the stored percentage is within a third of a hundredth of total/6, so it is the two-decimal rounding of total/600*100, and lies in 0..100.00 for totals 0..600 |
| Grading.PercentageNearest | Home.py:585 | no other hundredth is as close to total/6 (rounding is unique) |
| Grading.PercentageMonotone | Home.py:584-585 | a larger total never gives a smaller percentage |
| Grading.GradeOf | Home.py:587-598 | grade O exactly from 90.00, A on [75, 90), B on [60, 75), C on [50, 60), D on [40, 50), F below 40 |
| Grading.GradeMonotone | Home.py:587-598 | a higher percentage never gives a lower grade |
| Grading.LabelInjective | Home.py:588-598 | the six stored grade labels are pairwise distinct |
| Grading.GradeByTotal | Home.py:584-598 | the grade of the rounded percentage equals the band of the raw total (O from 540, A from 450, B from 360, C from 300, D from 240) |
| Tables.AdminSeed | Home.py:143-149 | the seeded row is "Lam" with admin rights, and logging in with "Lam" and "Lam123" on it returns "Admin Teacher" as an admin |
| Tables.WithAdminColumn | Home.py:64-71 | adding the column changes no row except its admin flag, which becomes true exactly for "Lam" |
| Tables.TeacherLogin | Home.py:263-286 | a name is returned iff some teacher has that username and password hash, and it is that teacher's name; the admin flag is the stored `is_admin`, or `username == "Lam"` on a table without the column; no match gives (None, False) |
| Tables.TeacherLoginFindsAccount | Home.py:263-276 | with unique usernames, a teacher's own credentials return that teacher's name and admin flag |
| Tables.TeacherWrongPassword | Home.py:270-286 | a wrong password for an existing username returns (None, False) |
| Tables.StudentLogin | Home.py:288-297 | a name is returned iff some student has that roll number and password hash, and it is that student's name |
| Tables.CreatedStudentLogsIn | Home.py:288-312 | a student just inserted under a new roll number logs in with its own password and gets its full name |
| Tables.StudentWrongPassword | Home.py:288-297 | a wrong password for an existing roll number returns None |
| Tables.StudentInfo | Home.py:166-181 | nothing is found iff no student has the roll number; otherwise the roll number, name, class and section of a student with it |
| Tables.StudentInfoFindsStudent | Home.py:166-181 | with unique roll numbers, the lookup returns exactly that student's details |
| Tables.Listings | Home.py:369-375 | the listing has one row per student |
| Tables.ClassOrderTransitive | Home.py:376 | ordering by class, then section, then roll number is transitive |
| Tables.ClassOrderIsTotalPreorder | Home.py:376 | that order is total and transitive, so it can sort |
| Tables.ClassOrderAntisymmetric | Home.py:376 | two rows each ordered before the other agree on class, section and roll number |
| Tables.StudentOrderDetermined | Home.py:367-378 | with unique roll numbers, any two listings sorted by class, section and roll number are equal: the student list has one order |
| Tables.Upsert | Home.py:242-254 | after delete-then-insert the table holds the new row and exactly the other students' old rows |
| Tables.LinksOfWithout | Home.py:246-249 | after the DELETE the student has no links and every other student's links are unchanged |
| Tables.UpsertLinks | Home.py:242-257 | after delete-then-insert the student has exactly the new link and every other student's links are unchanged |
| Tables.ParentEmail | Home.py:440-448 | an e-mail is returned iff the student has a link, and it is a linked e-mail |
| Tables.HasLink | Home.py:157-164 | the e-mail validates iff a row links it to that roll number |
| Tables.UpsertThenLookup | Home.py:714-729 | after saving an e-mail, the lookup returns it and it is the only one that validates |
| Tables.RemoveThenLookup | Home.py:731-743 | after removing, the lookup returns None and no e-mail validates |
| Tables.NewRequest | Home.py:904-911 | the new request carries its id, roll number, date and request time, is Pending with no notes or answer time, and passes its own teacher's filter in `get_meeting_requests` |
| Tables.WithStatus | Home.py:183-191 | the UPDATE keeps the number of rows and every row's id, roll number and request time |
| Tables.LatestRequest | Home.py:193-207 | None iff the student has no request; otherwise a request of that student with the greatest request time |
| Tables.AnsweredRequestIsLatest | Home.py:183-207 | a request newer than the student's earlier ones, once answered, is the one the parent portal shows, with its new status, notes and answer time |
| Tables.JoinOne | Home.py:221-222 | a request joins to at most one row, and to none iff no student has its roll number |
| Tables.JoinStudents | Home.py:209-240 | the join has no more rows than there are requests |
| Tables.JoinSound | Home.py:209-240 | every listed row comes from a selected request and the student with its roll number |
| Tables.JoinComplete | Home.py:209-240 | every selected request whose student exists is listed |
| Tables.LaterOrSameIsTotalPreorder | Home.py:224 | newest-first by request time is a total preorder |
| Tables.BuildReport | Home.py:584-609 | the card carries the student's name, roll number, class and section and the marks; its total is their sum, its percentage the rounded total/6, and its grade label the band of the total |
| Tables.BuildReportConsistent | Home.py:569-609 | for marks from the six 0..100 inputs, the total is in 0..600 and the percentage in 0..10000 hundredths |
| Tables.LatestReport | Home.py:342-365 | None iff the student has no report; otherwise a report of that student with the greatest timestamp |
| Tables.SavedReportIsLatest | Home.py:315-365 | after saving a report no earlier than every stored one, the next read returns a report of that student with the saved timestamp |
| Tables.EarlierOrSameIsTotalPreorder | Home.py:384 | oldest-first by timestamp is a total preorder |
| Predictor.ScoreRows | Home.py:390 | one score row per report |
| Predictor.PercentColumn | Home.py:391 | one percentage per report |
| Predictor.Inputs | Home.py:390 | the training inputs are the score rows of every report but the last, in order |
| Predictor.Targets | Home.py:391 | the training targets are the percentages of every report but the first, in order |
| Predictor.TrainingPairs | Home.py:389-393 | there are n-1 training pairs, and pair i is report i's scores with report i+1's percentage |
| Predictor.Clamp | Home.py:399 | the result lies in [0, 100], equals the input inside it, and is 0 below and 100 above |
| Predictor.Predict | Home.py:381-402 | fewer than three reports give no prediction, and any prediction lies in [0, 100] |
| Predictor.PredictUsesWindow | Home.py:389-399 | with at least three reports, the prediction is the clamped fit of the training pairs at the latest scores |
| Sequences.Where | Home.py:246-249 | `WHERE` keeps exactly the rows that satisfy the condition, and never more rows than the table has (also the `WHERE` at Home.py:384) |
| Sequences.WhereAppend | Home.py:250-253 | inserting a row extends the rows a `WHERE` selects by that row when it matches, and leaves them as they were otherwise (also the INSERT at Home.py:318-323) |
| Sequences.FirstWhere | Home.py:164 | `fetchone` finds nothing iff no row matches; otherwise it returns a matching row of the table (also Home.py:274, 296, 447) |
| Sequences.LatestWhere | Home.py:204-205 | `ORDER BY ... DESC LIMIT 1` finds nothing iff no row matches; otherwise a matching row with the greatest key (also Home.py:362-363) |
| Sequences.LexLeTotal | Home.py:376 | the BINARY string order compares any two strings |
| Sequences.LexLeAntisymmetric | Home.py:376 | the BINARY string order has no ties between distinct strings |
| Sequences.LexLeTransitive | Home.py:376 | the BINARY string order is transitive |
| Sequences.SortBy | Home.py:224 | ORDER BY returns a permutation of the rows, sorted by the order |
| Sequences.SortedUnique | Home.py:376 | two sorted permutations of the same rows are equal when the order has no ties among them |
| Repository.UsersDb.constructor | Home.py:99-142 | a fresh file has empty tables and the `is_admin` column |
| Repository.UsersDb.Open | Home.py:99-142 | an existing file, possibly without `is_admin`, satisfies the table constraints |
| Repository.UsersDb.SeedAdmin | Home.py:143-150 | "Lam" is inserted with hashed "Lam123", "Admin Teacher" and admin rights iff absent; on a table without `is_admin` the INSERT fails and nothing changes |
| Repository.UsersDb.UpgradeDatabase | Home.py:56-72 | a missing `is_admin` column is added with 0 for every teacher but "Lam"; with the column present nothing changes |
| Repository.UsersDb.Startup | Home.py:143-154 | start-up completes iff "Lam" exists or the column does; a failed start leaves `teachers` and the column unchanged; a completed one leaves exactly the seeded or upgraded table, with the column and the administrator account |
| Repository.UsersDb.StartupUpgradeFirst | Home.py:56-72 | with the upgrade run before the seed, start-up completes on every file and leaves the upgraded table plus the administrator row when it was missing |
| Repository.UsersDb.AuthenticateTeacher | Home.py:263-286 | returns the teacher login on the current table, changing nothing |
| Repository.UsersDb.AuthenticateStudent | Home.py:288-297 | returns the student login on the current table, changing nothing |
| Repository.UsersDb.GetStudentInfo | Home.py:166-181 | returns the student lookup on the current table, changing nothing |
| Repository.UsersDb.CreateStudent | Home.py:300-312 | succeeds iff the roll number is new, and then appends exactly the new row with the hashed password; otherwise the table is unchanged |
| Repository.UsersDb.AddTeacher | Home.py:757-777 | checks in order: a missing field, a password mismatch, the missing column, a taken username; appends the hashed teacher with the chosen admin flag only when all pass |
| Repository.UsersDb.AddParentAccount | Home.py:242-257 | replaces the student's link by the new one, keeps one link per student, and returns True |
| Repository.UsersDb.RemoveParentAccount | Home.py:731-743 | deletes exactly the student's link |
| Repository.UsersDb.SaveParentEmail | Home.py:711-743 | a non-empty e-mail upserts the link, an empty one removes it |
| Repository.UsersDb.ValidateParentEmail | Home.py:157-164 | tells whether the pair is linked, changing nothing |
| Repository.UsersDb.GetStudentParentEmail | Home.py:440-448 | returns the parent e-mail lookup, changing nothing |
| Repository.UsersDb.RequestMeeting | Home.py:904-918 | without a date or a teacher nothing is written; otherwise one Pending request is appended under a fresh id |
| Repository.UsersDb.UpdateMeetingRequestStatus | Home.py:183-191 | the rows with that id get the new status, notes and answer time; every other row is unchanged |
| Repository.UsersDb.GetSingleStudentMeetingRequest | Home.py:193-207 | returns a latest request of the student, if any |
| Repository.UsersDb.GetMeetingRequests | Home.py:209-240 | on a table with unique roll numbers, returns a permutation of the joined rows for the teacher (all when none or an empty name is given), newest first |
| Repository.UsersDb.GetAllStudents | Home.py:367-378 | returns every student, ordered by class, section and roll number |
| Repository.ReportsDb.constructor | Home.py:76-97 | a fresh file has no reports |
| Repository.ReportsDb.SaveReport | Home.py:315-340 | the report is appended under a fresh id and the current time; no row is replaced |
| Repository.ReportsDb.SubmitMarks | Home.py:579-612 | "Save Marks" appends the report card built from the student and the marks |
| Repository.ReportsDb.GetStudentReport | Home.py:342-365 | returns a latest report of the student, if any |
| Repository.ReportsDb.PredictStudentPerformance | Home.py:381-402 | the student's history sorted oldest first; no prediction below three reports; any prediction lies in [0, 100] |
| Scenarios.CreateStudentTwice | Home.py:300-312 | a second create with the same roll number fails, one row remains, and the first password logs in |
| Scenarios.ReplaceParentEmail | Home.py:711-729 | after saving two e-mails, only the second is stored and validates, and the student has one link |
| Scenarios.ApproveNewRequest | Home.py:660-680 | a new request that the teacher approves is what the parent portal shows, with the notes and answer time |
| Scenarios.SaveThenView | Home.py:579-612 | marks saved after every stored report are exactly the report card the student portal shows next, with their total and the grade of that total |
| Scenarios.LegacyFileWithoutAdmin | Home.py:143-154 | on a file without `is_admin` and without "Lam", start-up fails, fails again on the next start, and the column is never added |
| Scenarios.LegacyFileUpgradedFirst | Home.py:56-72 | on the same file, upgrading first completes start-up, adds the column, and "Lam" with "Lam123" logs in as an admin |

## Findings

| source | as written | input that shows it | evidently intended | confidence | as-written member | corrected member |
|---|---|---|---|---|---|---|
| Home.py:143-154 | `init_db` seeds the administrator with an INSERT that names `is_admin` before `upgrade_database` adds that column | a users.db written before `is_admin` existed whose `teachers` table has no "Lam" row: every start raises in the seed and the upgrade never runs | run the upgrade first, or seed without the column, so an old file is upgraded and gets its administrator | medium, not executed | Scenarios.LegacyFileWithoutAdmin | Repository.UsersDb.StartupUpgradeFirst |

## Left out

- The Streamlit UI is not modelled: page layout, CSS, forms, session state, reruns and messages.
- PDF report generation (`generate_pdf_report`, Home.py:405-438) is not modelled. It formats the card with FPDF, writes it to `report_card_temp.pdf` and offers it for download: a foreign library plus file I/O.
- The parent login's TOTP second factor (`pyotp.TOTP` with a hardcoded shared secret, Home.py:490-535) is not modelled; only the `validate_parent_email` check it sits beside is.
- SHA-256 itself is not modelled. The model assumes only that `hash` is a fixed function.
- The linear-regression fit is a parameter. Whether a constant history is fitted exactly is a property of scikit-learn, not of this code, so it is not stated.
- Floating point is not modelled: percentages are exact hundredths and predictions are reals.
- Connections, `timeout=10`, lock contention and `OperationalError` are left out. `AddParentAccount` therefore always returns True, and no write fails on a busy database.
- The predictor opens a connection without closing it. That leak is not modelled.
- The "View Reports" tab reads every report with its own query (Home.py:641). That query is not modelled.
- The parent portal's teacher list (Home.py:899) is not modelled. Any non-empty username can be passed to `RequestMeeting`.
- The `id` columns of `teachers`, `students` and `parent_accounts` are not modelled because nothing reads them. The `FOREIGN KEY` on `parent_accounts` is not modelled either, because SQLite does not enforce it by default.
- pandas DataFrames and the column aliases are not modelled. Reads return rows or `Option` values.
- Repository.UsersDb.GetMeetingRequests and Repository.ReportsDb.PredictStudentPerformance do not say how rows with equal times are ordered. Repository.UsersDb.GetSingleStudentMeetingRequest and Repository.ReportsDb.GetStudentReport do not say which of several equally latest rows is returned. SQLite leaves these unspecified.
- Repository.ReportsDb.PredictStudentPerformance: `history` is a ghost out-parameter. The real result is `prediction`.
- Repository.UsersDb.GetMeetingRequests: only tables with unique roll numbers are covered. With duplicate roll numbers the SQL JOIN would list a request once per matching student, but the model lists it once. The UNIQUE constraint on `students.roll_no` rules duplicates out.
