# AAS attendance administration: a verified model

This project models the core of the AAS attendance administration site in Dafny. It has two parts:

- the HTTP handlers of the Node back end: attendance, students, reports, courses, instructors and authentication;
- the client-side filtering and form validation of the React pages for attendance, students, instructors, courses and registration.

It proves properties of both.

The back end works on a relational store. Here that store is a class `Store.Db`:

- it has one `seq` field per table and one counter per `SERIAL` key;
- its invariant `Valid` states every primary key and unique constraint the handlers rely on.

Each kind of handler is modelled in its own form:

- A read-only handler is a function of a snapshot of the tables (`Schema.Tables`). Its `WHERE` clause is a `Sequences.Filter` with a named predicate, and its `ORDER BY` is a stable sort `Sequences.SortBy`.
- A writing handler is a method over `Db`. It states its reply and the whole new state of each table it may change, for every branch the source takes: missing fields, a taken key, a missing department or instructor, a store failure, success.
- The React pages are pure functions over the lists they display.

Modules:

- `Text`: lower-casing; the six-letter Turkish fold of the name searches; substring tests (`includes`, `ILIKE '%…%'`); JavaScript `trim`; decimal id text; string order.
- `Sequences`: filter, subsequence, stable insertion sort, and their lemmas.
- `Schema`: the table rows, keys, lookups, store errors and replies.
- `Store`: the mutable database.
- `AttendanceApi`, `StudentsApi`, `ReportsApi`, `CoursesApi`, `InstructorsApi`, `AuthApi`: the route files of `backend-node/routes`.
- `AttendancePage`, `StudentsPage`, `InstructorsPage`, `CoursesPage`, `RegisterPage`: the components under `src/components`.

Some properties hold only because the store's constraints hold, for example "a looked-up student is that student" or "a delete removes exactly one row". Those lemmas take the relevant uniqueness predicate as a precondition.

Two places where the code and its own comments disagree; the model follows the code:

- The comments at `backend-node/routes/attendance.js` lines 12 and 105 say a date filter lists only students with attendance on that date. The code puts the date into the `LEFT JOIN` condition, so every student is still listed: students without a record on that date get the no-record row. `AttendanceApi.DateFilterKeepsEveryStudent` proves this.
- The instructor search at `backend-node/routes/instructors.js:22` reuses one placeholder. The behaviour as written is recorded under "## Findings". The listing itself (`ListInstructors`) models the query as intended.

## Model

| member | source | states |
|---|---|---|
| Text.FoldTurkishIsCharwise | backend-node/routes/students.js:25-31 | the chain of six replacements acts letter by letter and keeps the length, so no replacement feeds another |
| Text.FoldInputIsClean | backend-node/routes/attendance.js:40-46 | after lower-casing and the six replacements, no folded Turkish letter and no capital ASCII letter remains in the search term |
| Text.FoldInputIdempotent | backend-node/routes/attendance.js:40-46 | folding the search term twice gives the same text as folding it once |
| Text.FoldOrdersAgree | backend-node/routes/attendance.js:40-51 | the input-side fold (lower-case, then replace) and the stored-side fold (replace, then LOWER) agree on every text without a Turkish capital |
| Text.FoldOrdersDiffer | backend-node/routes/attendance.js:40-51 | the two orders differ on a capital Ü: the term folds to "u", the stored name keeps a small ü, so the folded search misses it |
| Text.FoldedMatchIsContains | backend-node/routes/attendance.js:50-51 | the ILIKE on the two folded texts is a plain substring test of the folded term in the folded stored value |
| Text.FoldedMatchExample | backend-node/routes/students.js:25-36 | the folded search for "ısık" finds the stored name "Işık" |
| Text.TrimEmptyIffBlank | src/components/Register.jsx:37-50 | a field's trimmed text is empty exactly when the field is all white space |
| Text.IdTextILike | backend-node/routes/courses.js:22 | an ILIKE against the decimal text of a numeric id is a substring test of the lower-cased term |
| Schema.OrNull | backend-node/routes/students.js:176 | `x \|\| null` is null exactly for an empty text and is the text otherwise |
| Schema.FindStudent | backend-node/routes/students.js:122-128 | the lookup by id returns a stored student with that id, and returns none exactly when no stored student has it |
| Schema.FindStudentUnique | backend-node/routes/students.js:122-128 | under unique ids the lookup returns exactly the student with that id |
| Schema.FindCourse | backend-node/routes/courses.js:57-60 | the lookup by course id returns a stored course with that id, and returns none exactly when there is none |
| Schema.FindCourseUnique | backend-node/routes/courses.js:57-60 | under unique course ids the lookup returns exactly that course |
| Schema.FindInstructor | backend-node/routes/courses.js:67-70 | the instructor lookup returns a stored instructor with that id, and returns none exactly when there is none |
| Schema.DepartmentNameOf | backend-node/routes/students.js:72 | the left-joined department name exists exactly when a department has the id, and it is that department's name |
| Schema.FindDepartmentByName | backend-node/routes/students.js:158-161 | the department lookup by name returns a department with that name, and returns none exactly when no department has it |
| Schema.UniqueViolationRecognised | backend-node/routes/students.js:212 | every unique-violation message passes the handlers' "duplicate key / unique constraint" test, and it names the email when the constraint does |
| AttendanceApi.FormatRow | backend-node/routes/attendance.js:116-125 | a reply row keeps the student's name and surname, shows the course name or "No course assigned", and sets the no-attendance flag exactly when there is no record; without a record it shows "N/A" and "No attendance record yet", with one its date and its status capitalised |
| AttendanceApi.RowsForShape | backend-node/routes/attendance.js:26-28 | a student contributes one row per record joined on its id (and the date, when given), each on that date, or a single row with no record |
| AttendanceApi.JoinMembers | backend-node/routes/attendance.js:26-28 | a row is in the left join exactly when its student is stored and the row is one of that student's rows |
| AttendanceApi.ListingMembers | backend-node/routes/attendance.js:29-103 | a row is listed exactly when the join produces it and every given filter keeps it |
| AttendanceApi.StudentRowsListed | backend-node/routes/attendance.js:27-35 | with at most a date filter a student is listed once per joined record, or exactly once with no record |
| AttendanceApi.StudentWithoutRecordsListedOnce | backend-node/routes/attendance.js:17-28 | without filters a student who has no records appears exactly once, shown as having no attendance record |
| AttendanceApi.DateFilterKeepsEveryStudent | backend-node/routes/attendance.js:27 | with only a date filter every stored student is still listed |
| AttendanceApi.ListedRecordsOnDate | backend-node/routes/attendance.js:27 | under a date filter every listed record is the student's own record on that date |
| AttendanceApi.NameMatchesMeaning | backend-node/routes/attendance.js:38-58 | the name filter is a case-insensitive substring of name or surname, or a match of the Turkish-folded forms |
| AttendanceApi.FoldedBranchFindsAyse | backend-node/routes/attendance.js:81-103 | "ayse" does not find a stored "Ayşe" through the plain case-insensitive match, and does find it through the folded one, so the name search finds it |
| AttendanceApi.SearchMatchesMeaning | backend-node/routes/attendance.js:81-103 | the search is a case-insensitive substring of name, surname or course name (an empty course name for a row without a record), or a folded name match |
| AttendanceApi.EnrolledStudentKeepsAllRows | backend-node/routes/attendance.js:60-73 | a student enrolled in the filtered course keeps every one of its joined rows, whatever course those rows have |
| AttendanceApi.ListAttendance | backend-node/routes/attendance.js:13-125 | a reply row is exactly the shaped form of a row the join produces and every given filter keeps; there is one reply row per sorted joined row, its shaped form, so the per-student counts of `StudentRowsListed` hold of the reply; dated rows come before undated ones, dates descending, and equal dates by student name |
| AttendanceApi.StoredStatus | backend-node/routes/attendance.js:147 | an empty status or "present" stores present, and "absent" stores absent; any other text is refused by the status type |
| AttendanceApi.CreateAttendance | backend-node/routes/attendance.js:135-158 | missing fields give 400 and a status outside the enumeration gives 500, both changing neither the table nor the id sequence; otherwise one record with the next id is appended, the id sequence advances by one, and 201 returns that id |
| StudentsApi.StudentSearchMeaning | backend-node/routes/students.js:22-44 | the student search is a case-insensitive substring of name, surname or id text, or a folded name match |
| StudentsApi.JoinEnrollmentsMembers | backend-node/routes/students.js:11-18 | a joined row comes from exactly a junction row whose student and course both exist |
| StudentsApi.ListEnrollments | backend-node/routes/students.js:11-53 | a listed enrollment row is exactly a junction row whose student and course both exist, with their names, that passes the search and the course filter; there is one row per such junction row, and the rows are ordered by student id, then by course id |
| StudentsApi.JoinEnrollmentsCount | backend-node/routes/students.js:11-18 | the inner joins give at most one row per junction row: the joined rows a filter keeps are as many as the junction rows whose student and course exist and whose joined row it keeps |
| StudentsApi.ListStudents | backend-node/routes/students.js:68-108 | a listed row is exactly the view of a stored student that passes the search and the department filter; there is one row per such student, the rows are ordered by id, and without filters every student is listed |
| StudentsApi.GetStudent | backend-node/routes/students.js:119-140 | 200 with the student's view exactly when a stored student has the id, and 404 "Student not found" otherwise |
| StudentsApi.EnrollAllMembers | backend-node/routes/students.js:182-200 | the enrollment loop keeps every old pair and adds exactly the pairs for listed ids of existing courses |
| StudentsApi.EnrollAllUnique | backend-node/routes/students.js:194-197 | because of `ON CONFLICT DO NOTHING`, the junction table keeps unique pairs even when a course id is listed twice |
| StudentsApi.EnrollAllNothingNew | backend-node/routes/students.js:182-200 | enrolling in courses that are already enrolled, or that do not exist, changes nothing |
| StudentsApi.EnrollAllIdempotent | backend-node/routes/students.js:182-200 | running the loop a second time with the same ids changes nothing |
| StudentsApi.EmailClashMessage | backend-node/routes/students.js:211-218 | the store's violation for a taken email is answered "This email address is already registered" |
| StudentsApi.StudentErrorMessage | backend-node/routes/students.js:210-217 | a message that is not a duplicate-key message is passed through unchanged; a duplicate-key message becomes "This email address is already registered" exactly when it mentions "email", and "A student with this information already exists" otherwise |
| StudentsApi.PrimaryKeyClashMessage | backend-node/routes/students.js:210-217 | the store's violation of the student primary key is answered "A student with this information already exists", not as a taken email |
| StudentsApi.AppendStudentEmails | backend-node/routes/students.js:171-176 | appending a student keeps e-mails unique exactly when the new email is not taken |
| StudentsApi.EnrollCourses | backend-node/routes/students.js:182-200 | the loop over the listed course ids produces the junction table `EnrollAll` describes |
| StudentsApi.CreateStudent | backend-node/routes/students.js:143-223 | each branch in order: 400 for missing fields and 400 for an unknown department, both leaving the id sequence alone; 500 with nothing stored for a taken email, the id sequence still advanced; else 201 with the new id, the student appended and the enrollments added |
| StudentsApi.CreatedStudentFound | backend-node/routes/students.js:119-135 | after a successful create, fetching the new id gives the student's view |
| StudentsApi.ResolvedDepartment | backend-node/routes/students.js:231-240 | the update writes a department id exactly when a non-empty department name is given and some department has it |
| StudentsApi.CoalescedMeaning | backend-node/routes/students.js:242-254 | the update writes exactly the non-empty fields, keeps the rest and the id, is idempotent, and with nothing given changes nothing |
| StudentsApi.UpdatedStudents | backend-node/routes/students.js:242-254 | the update keeps the table's length |
| StudentsApi.UpdatedStudentsMeaning | backend-node/routes/students.js:242-254 | only rows with the id change, every id stays in place, and an unknown id or an empty change leaves the table as it was |
| StudentsApi.UpdateStudent | backend-node/routes/students.js:226-265 | 404 with no change when no student has the id; 500 with the store's message and no change when the update would give two students one email; else 200 and the table updated |
| StudentsApi.DeleteMeaning | backend-node/routes/students.js:268-285 | the delete keeps exactly the students with other ids, in order, and removes one row when the id exists and none otherwise |
| StudentsApi.FilterKeepsStudentKeys | backend-node/routes/students.js:271-274 | removing rows keeps student ids and e-mails unique |
| StudentsApi.DeleteStudent | backend-node/routes/students.js:268-285 | 404 with no change for an unknown id; else 200 and the student removed |
| StudentsApi.DeletedStudentNotFound | backend-node/routes/students.js:268-285 | after a delete, fetching the id gives 404 |
| ReportsApi.FactOf | backend-node/routes/reports.js:15-18 | an attendance record takes part in the report exactly when its course, its student and that student's department all exist, and then it carries their names |
| ReportsApi.Facts | backend-node/routes/reports.js:15-18 | the joined rows are exactly the records that make it through the three inner joins, and there are no more of them than records |
| ReportsApi.FactsCount | backend-node/routes/reports.js:15-18 | each record gives at most one joined row: the joined rows a filter keeps are as many as the records that survive the joins and whose joined row it keeps |
| ReportsApi.GroupCounts | backend-node/routes/reports.js:70-95 | a course's group under a filter has as many rows as there are stored records that survive the joins, match the filter and name the course, and its present rows are as many as those records with status Present |
| ReportsApi.Qualifying | backend-node/routes/reports.js:11-46 | a row counts exactly when it comes from a stored record whose joins succeed and it passes the course, department and date-range filters that are given |
| ReportsApi.SummaryRowsMatch | backend-node/routes/reports.js:24-46 | every counted row has the filtered course and department and lies in the date range |
| ReportsApi.Dedup | backend-node/routes/reports.js:12 | the distinct course names have the same members as the input, with no repeats |
| ReportsApi.GroupKeys | backend-node/routes/reports.js:48 | the groups are exactly the course names of the rows, in strictly ascending order |
| ReportsApi.Group | backend-node/routes/reports.js:48 | a group holds exactly the rows with its course name |
| ReportsApi.GroupNonEmpty | backend-node/routes/reports.js:48 | every group has at least one row |
| ReportsApi.Dates | backend-node/routes/reports.js:13-14 | the dates of the group's rows, one per row |
| ReportsApi.MinOf | backend-node/routes/reports.js:13 | `MIN` is one of the dates and no later than any of them |
| ReportsApi.MaxOf | backend-node/routes/reports.js:14 | `MAX` is one of the dates and no earlier than any of them |
| ReportsApi.Summary | backend-node/routes/reports.js:11-58 | one entry per group, in group order, each carrying its course name |
| ReportsApi.SummaryCourses | backend-node/routes/reports.js:11-48 | the summary's course names are exactly the courses with a counted row, strictly ascending |
| ReportsApi.SummaryDates | backend-node/routes/reports.js:13-14 | each entry's start and end are the earliest and the latest counted date of its course |
| ReportsApi.RoundedPercent | backend-node/routes/reports.js:72-73 | in exact arithmetic, the percentage rounded half up: at most 100, and within half a unit of the true value |
| ReportsApi.RoundedPercentExamples | backend-node/routes/reports.js:101 | 3 of 4 gives 75, 1 of 8 gives 13, 2 of 3 gives 67 |
| ReportsApi.RoundedPercentExtremes | backend-node/routes/reports.js:72-73 | everyone present gives 100 and nobody present gives 0 |
| ReportsApi.Rate | backend-node/routes/reports.js:70-102 | one entry per group counted under the course and department filters only; the i-th entry carries the i-th course name, and its rate is the percentage of the group's present rows among its rows, rounded half up |
| ReportsApi.RateCourses | backend-node/routes/reports.js:70-95 | the rate's course names are exactly the courses with a counted row, strictly ascending |
| ReportsApi.RateValue | backend-node/routes/reports.js:72-73 | each rate is the percentage, rounded half up, of the stored attendance records of its course (surviving the joins and the course and department filters) that are Present, among all such records |
| CoursesApi.CourseView | backend-node/routes/courses.js:11-15 | a listed course keeps its id, name and instructor id, and carries its instructor's name and surname exactly when an instructor has that id, nulls otherwise |
| CoursesApi.ListCourses | backend-node/routes/courses.js:11-35 | a listed row is exactly the view of a stored course that passes the search and the instructor filter; there is one row per such course, and the rows are ordered by course id |
| CoursesApi.CourseSearchMeaning | backend-node/routes/courses.js:21-27 | the search is a case-insensitive substring of course id, course name or instructor id text, with no Turkish folding |
| CoursesApi.CourseErrorMessage | backend-node/routes/courses.js:89-93 | every duplicate-key message becomes "A course with this ID already exists", and any other message is passed through unchanged |
| CoursesApi.PrimaryKeyClashMessage | backend-node/routes/courses.js:88-95 | a primary-key clash from a racing create is answered "A course with this ID already exists" |
| CoursesApi.CreateCourse | backend-node/routes/courses.js:46-96 | in order: 400 for missing fields, 400 for a taken id, 400 for an unknown instructor, else 201 and the course appended |
| CoursesApi.CreatedCourseListed | backend-node/routes/courses.js:76-87 | a created course is found by its id and appears in the unfiltered listing |
| CoursesApi.CourseDeleteMeaning | backend-node/routes/courses.js:99-116 | the delete keeps exactly the other courses, in order, keeps ids unique, and the id is no longer found |
| CoursesApi.DeleteCourse | backend-node/routes/courses.js:99-116 | 404 with no change for an unknown id; else 200 and the course removed |
| InstructorsApi.ListInstructors | backend-node/routes/instructors.js:11-37 | a listed row is exactly the view of a stored instructor that passes the search and the department filter; there is one row per such instructor, and the rows are ordered by id |
| InstructorsApi.InstructorSearchMeaning | backend-node/routes/instructors.js:21-29 | the search is a case-insensitive substring of name, surname or id text, with no Turkish folding |
| InstructorsApi.SearchQueryRejected | backend-node/routes/instructors.js:21-35 | as written, the query's placeholders match the parameters sent exactly when no search is given |
| InstructorsApi.ListingQueryWellBound | backend-node/routes/instructors.js:21-35 | with one placeholder per parameter, the query's placeholders match its parameters for every search and department |
| InstructorsApi.EmailClashMessage | backend-node/routes/instructors.js:81-92 | the store's violation for a taken email is answered "This email address is already registered" |
| InstructorsApi.InstructorErrorMessage | backend-node/routes/instructors.js:83-90 | a message that is not a duplicate-key message is passed through unchanged; a duplicate-key message becomes "This email address is already registered" exactly when it mentions "email", and "An instructor with this information already exists" otherwise |
| InstructorsApi.PrimaryKeyClashMessage | backend-node/routes/instructors.js:83-90 | the store's violation of the instructor primary key is answered "An instructor with this information already exists", not as a taken email |
| InstructorsApi.AppendInstructor | backend-node/routes/instructors.js:68-74 | with a fresh id, appending keeps the keys unique exactly when the email is free |
| InstructorsApi.CreateInstructor | backend-node/routes/instructors.js:48-93 | in order: 400 for missing fields, 400 for a taken id, 500 with no change for a taken email, else 201 and the instructor appended |
| InstructorsApi.FilterKeepsInstructorKeys | backend-node/routes/instructors.js:99-102 | removing rows keeps instructor ids and e-mails unique |
| InstructorsApi.InstructorDeleteMeaning | backend-node/routes/instructors.js:96-113 | the delete keeps exactly the other instructors, in order, keeps keys unique, and the id is no longer found |
| InstructorsApi.DeleteInstructor | backend-node/routes/instructors.js:96-113 | 404 with no change for an unknown id; else 200 and the instructor removed |
| AuthApi.AppendEmployee | backend-node/routes/auth.js:36-48 | appending an employee with a fresh id, username and email keeps all three unique |
| AuthApi.Register | backend-node/routes/auth.js:7-48 | in order: 400 for missing fields, 400 for a taken username, 400 for a taken email, each changing neither the table nor the id sequence; else 201 with the new user, the employee appended and the id sequence advanced by one |
| AuthApi.RegisterErrorReply | backend-node/routes/auth.js:52-62 | a failed insert is always an error reply: 400 exactly for a unique violation whose constraint names the username or the email, "Username already exists" when it names the username and "Email already registered" otherwise; every other failure is 500 with the store's message |
| AuthApi.UsernameRaceReply | backend-node/routes/auth.js:52-56 | a racing insert that violates the username key gets the same reply as the username check |
| AuthApi.EmailRaceReply | backend-node/routes/auth.js:57-59 | a racing insert that violates the email key gets the same reply as the email check |
| AuthApi.FindCredentials | backend-node/routes/auth.js:75-78 | the lookup returns a stored employee with that username and password, and returns none exactly when there is none |
| AuthApi.Login | backend-node/routes/auth.js:67-92 | 400 for missing fields; otherwise 200 with a matching employee's view exactly when one exists, and 401 otherwise |
| AuthApi.RegisterThenLogin | backend-node/routes/auth.js:36-84 | logging in with the credentials just registered returns the registered user |
| AttendancePage.FilteredAttendance | src/components/Attendance.jsx:38-49 | a record is shown exactly when it passes all four filters, in the original order, as many times as it occurs in the list |
| AttendancePage.NoFiltersShowAll | src/components/Attendance.jsx:38-49 | with every input empty all records are shown |
| AttendancePage.MoreFiltersShowFewer | src/components/Attendance.jsx:38-49 | filling in one more input only hides records, in the same order |
| AttendancePage.NameFilterMeaning | src/components/Attendance.jsx:39-41 | the name filter is a lower-cased substring of name or surname, whatever the case of the input |
| AttendancePage.SampleCourseSelection | src/components/Attendance.jsx:18-29 | on the sample data, selecting "Database Management System" shows Ethan Cooper's and Noah Mitchell's records |
| StudentsPage.FilteredStudents | src/components/Students.jsx:61-68 | a student is shown exactly when it passes the search and the department filter, in order, as many times as it occurs in the list |
| StudentsPage.FilteredStudentsCourses | src/components/Students.jsx:70-77 | an enrollment is shown exactly when it passes the search and the course filter, in order, as many times as it occurs in the list |
| StudentsPage.NoFiltersShowAll | src/components/Students.jsx:61-77 | empty inputs show both lists whole |
| StudentsPage.DepartmentNarrows | src/components/Students.jsx:61-68 | adding a department only hides students |
| StudentsPage.SearchNarrows | src/components/Students.jsx:61-68 | adding a search only hides students |
| StudentsPage.CourseIdOrName | src/components/Students.jsx:75 | where a course's id and its name pick out the same items, selecting either shows the same list |
| StudentsPage.SearchCaseRules | src/components/Students.jsx:62-65 | for a non-empty query an id matches exactly when it contains the query as typed, and a name exactly when its lower case contains the query's lower case, so a name matches just as its lower case does |
| StudentsPage.IdSearchIsCaseSensitive | src/components/Students.jsx:62-65 | the query "A" finds the name "a" and misses the id "a" |
| InstructorsPage.FilteredInstructors | src/components/Instructors.jsx:39-46 | an instructor is shown exactly when it passes the search and the department filter, in order, as many times as it occurs in the list |
| InstructorsPage.NoFiltersShowAll | src/components/Instructors.jsx:39-46 | empty inputs show all instructors |
| InstructorsPage.FiltersCompose | src/components/Instructors.jsx:39-46 | searching and selecting a department equals selecting the department in the search result, and each shows a subsequence of the other's single filter |
| InstructorsPage.SearchMeaning | src/components/Instructors.jsx:40-43 | the search unfolded: a lower-cased substring of name or surname, or a substring of the id as typed |
| CoursesPage.FilteredCourses | src/components/Courses.jsx:39-45 | a course is shown exactly when it passes the search, in order, as many times as it occurs in the list (the sample list repeats two courses) |
| CoursesPage.EmptyQueryShowsAll | src/components/Courses.jsx:39-45 | an empty query shows every course |
| CoursesPage.LongerQueryNarrows | src/components/Courses.jsx:39-45 | typing more characters only hides courses |
| CoursesPage.HandleSearch | src/components/Courses.jsx:47-55 | the query becomes the typed text, and the sample instructor is selected exactly when the text is non-empty |
| CoursesPage.HandleSearchForgetsState | src/components/Courses.jsx:47-55 | the new state depends only on the typed text: typing the same text twice is typing it once, and clearing returns to the initial state |
| CoursesPage.CardIgnoresQuery | src/components/Courses.jsx:47-55 | from any state, every non-empty query selects the same sample instructor, so a search for "CSE-410" (instructor 16) shows instructor 22's card |
| RegisterPage.HandleSubmit | src/components/Register.jsx:36-72 | the first failing check in order sets its message (blank username, blank email, blank password, passwords differ, under six characters); a form passing all five is sent with its fields untrimmed |
| RegisterPage.SubmittedPassesRequiredFields | src/components/Register.jsx:66-72 | every form the page sends passes the server's required-fields check (backend-node/routes/auth.js:12-14) |
| RegisterPage.LengthCountsSpaces | src/components/Register.jsx:47-61 | six spaces are refused as a blank password, while " abcde" passes: the length check counts spaces the blank check ignores |

## Left out

- Express wiring, JSON encoding, `console.error` logging and the connection pool (`pool.connect`, `client.release`) are left out. `BEGIN`/`COMMIT`/`ROLLBACK` is modelled only as its effect: a failed create stores nothing.
- `backend-node/routes/departments.js`, `src/utils/api.js`, `backend-node/server.js` and the presentational components (Dashboard, Reports, Settings, Login, the Add* forms) are not part of this model.
- SQL `LIKE` wildcards (`%`, `_`) typed inside a search term are treated as literal characters.
- `Text.Lower` maps only ASCII letters and the Turkish capitals Ü, Ö, Ş, Ç and Ğ. JavaScript `toLowerCase` and PostgreSQL `LOWER` cover all of Unicode and depend on the collation.
- JavaScript `length` counts UTF-16 code units, while the model counts characters. They differ only outside the Basic Multilingual Plane.
- Dates are day numbers. The `toLocaleDateString('tr-TR')` formatting is left out, as are the date parsing of query parameters and time zones.
- ReportsApi.RoundedPercent: the store computes `COUNT(...) * 100.0 / NULLIF(COUNT(*), 0)` as a PostgreSQL `numeric` division, rounded to the scale of its result; `parseFloat` then turns that text into a float and `Math.round` rounds it half up. The model rounds the exact quotient half up instead. The two could differ only where the decimal rounding of the quotient, or its conversion to a float, moves it across a half.
- Text ordering (`ORDER BY` on a text column, in `AttendanceApi.RowLe`, `StudentsApi.EnrollmentRowLe`, `ReportsApi.GroupKeys` and `CoursesApi.CourseRowLe`) is `Text.StrLe`, code-point order, which is PostgreSQL's order under the `C` collation. Under a linguistic collation such as `tr_TR` or `en_US`, "ahmet" sorts before "Burak" and "Çelik" before "Demir", which code-point order reverses. The order clauses of `ListAttendance`, `ListEnrollments`, `GroupKeys`, `SummaryCourses`, `RateCourses` and `ListCourses` therefore hold under the `C` collation only.
- `parseInt` on `:id` and `instructor_id` is left out. A non-numeric id, which the store would reject with a 500, is not modelled; ids are natural numbers.
- The `Array.isArray(courses)` check in `POST /students` (students.js:182) is left out: `courses` is always a sequence of ids.
- Foreign keys, cascades and their failures are not modelled. A delete is never blocked by a referencing row, and a referencing row may dangle: the joins then drop it (inner joins) or show it with nulls (left joins).
- The constraint names are assumed to follow PostgreSQL's default naming (`student_student_email_key`, `course_pkey`, …), and the status enumeration type is assumed to be named `attendance_status` (it appears only in the text of `Schema.InvalidStatus`'s message), since the schema file is not part of this model.
- Store failures other than the unique violations and the status enumeration (lost connection, timeouts) are not modelled. The concurrent races behind the reply functions `AuthApi.RegisterErrorReply`, `StudentErrorMessage`, `CourseErrorMessage` and `InstructorErrorMessage` are stated as the reply to a given store error, not as interleavings.
- Passwords are compared and stored as plain text, exactly as written.
- The React pages filter their fixed sample arrays. Their filter functions take the list as a parameter, and the sample arrays are constants used by the sample lemmas.
- RegisterPage.HandleSubmit: the side effects `setError`, `setSuccess`, `setLoading`, the reply handling and `navigate` after the request are left out. The result states which message is set, or which request is sent.
- The Turkish fold is modelled in the attendance and student handlers only, where the source uses it. The course and instructor handlers do not fold, and neither does the model.

## Findings

| source | as written | input that shows it | evidently intended | confidence | as-written member | corrected member |
|---|---|---|---|---|---|---|
| backend-node/routes/instructors.js:22 | all three search conditions refer to `$1` (one placeholder, `paramCount` not advanced in the text), while lines 23-28 send three parameters; with a department the department condition then refers to `$4` | `GET /instructors?search=ann`: the text uses `$1` but three values are sent, so PostgreSQL refuses the query and the handler answers 500 | `$1`, `$2`, `$3` for the three conditions, as in courses.js:22 | not executed | InstructorsApi.SearchQueryRejected | InstructorsApi.ListingQueryWellBound |
