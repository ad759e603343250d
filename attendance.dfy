/** The attendance routes: the listing of every student with the attendance
    records that match the filters (`GET /attendance`) and the creation of one
    attendance record (`POST /attendance`). */
module AttendanceApi {
  import opened Text
  import opened Sequences
  import opened Schema
  import opened Store

  const NoCourseAssigned: string := "No course assigned"
  const NoAttendanceYet: string := "No attendance record yet"
  const MissingRequiredFields: string := "Missing required fields"

  /** `1900-01-01` as a day number counted from `1970-01-01`: the date the
      ordering substitutes for a missing one. */
  const NullSortDate: Date := -25567

  /** The query string: `name_surname`, `course`, `date` and `search`; an empty
      text and an absent date mean "no filter". */
  datatype ListFilter = ListFilter(nameSurname: string, course: string, date: Option<Date>, search: string)

  const NoFilter: ListFilter := ListFilter("", "", None, "")

  /** One row of `student s LEFT JOIN attendance a ... LEFT JOIN course c`:
      `record` and `course` are None where the outer joins found no match. */
  datatype JoinedRow = JoinedRow(student: Student, record: Option<AttendanceRecord>, course: Option<Course>)

  /** The reply's `date`: the formatted attendance date, or 'N/A'. */
  datatype DateText = Formatted(day: Date) | NotAvailable

  /** One element of the JSON reply. */
  datatype AttendanceRow = AttendanceRow(
    studentName: string, studentSurname: string, course: string,
    date: DateText, status: string, hasNoAttendance: bool)

  // ---- The join ----

  /** The join condition `s.student_id = a.student_id [AND a.attendance_date = $1]`:
      the date filter is part of the join, not of the WHERE clause. */
  predicate JoinsWith(a: AttendanceRecord, sid: nat, date: Option<Date>)
  {
    a.studentId == sid && (date.None? || a.date == date.value)
  }

  function JoinsWithFn(sid: nat, date: Option<Date>): AttendanceRecord -> bool
  {
    a => JoinsWith(a, sid, date)
  }

  /** The attendance records the left join pairs with one student. */
  function RecordsOf(records: seq<AttendanceRecord>, sid: nat, date: Option<Date>): seq<AttendanceRecord>
  {
    Filter(records, JoinsWithFn(sid, date))
  }

  /** The rows one student contributes: one per joined record, or a single row
      with no record and no course when nothing joins. */
  function RowsFor(t: Tables, s: Student, date: Option<Date>): seq<JoinedRow>
  {
    var matched := RecordsOf(t.attendance, s.id, date);
    if matched == [] then [JoinedRow(s, None, None)]
    else
      seq(|matched|, i requires 0 <= i < |matched| =>
        JoinedRow(s, Some(matched[i]), FindCourse(t.courses, matched[i].courseId)))
  }

  function JoinStudents(t: Tables, ss: seq<Student>, date: Option<Date>): seq<JoinedRow>
    decreases |ss|
  {
    if ss == [] then [] else RowsFor(t, ss[0], date) + JoinStudents(t, ss[1..], date)
  }

  /** The unfiltered result set: every student, left-joined to attendance and course. */
  function Join(t: Tables, date: Option<Date>): seq<JoinedRow>
  {
    JoinStudents(t, t.students, date)
  }

  // ---- The WHERE clause ----

  /** The `name_surname` filter: plain case-insensitive match on name or
      surname, or a match of the folded name or surname against the folded term. */
  predicate NameMatches(s: Student, term: string)
  {
    ILike(s.name, term) || ILike(s.surname, term) ||
    FoldedMatch(s.name, term) || FoldedMatch(s.surname, term)
  }

  /** The sub-query `s.student_id IN (SELECT sc.student_id FROM student_course sc
      JOIN course co ON sc.course_id = co.course_id WHERE co.course_name = $n)`. */
  predicate EnrolledInCourseNamed(t: Tables, sid: nat, name: string)
  {
    exists e, c :: e in t.enrollments && c in t.courses &&
      e.studentId == sid && c.id == e.courseId && c.name == name
  }

  /** The `course` filter: the joined course has that name, or the student is
      enrolled in a course with that name. */
  predicate CourseMatches(t: Tables, j: JoinedRow, course: string)
  {
    (j.course.Some? && j.course.value.name == course) || EnrolledInCourseNamed(t, j.student.id, course)
  }

  /** `COALESCE(c.course_name, '')`. */
  function CourseNameOrEmpty(j: JoinedRow): string
  {
    if j.course.Some? then j.course.value.name else ""
  }

  /** The `search` filter: name, surname or course name, case-insensitively, or
      the folded name or surname (the course name is not folded). */
  predicate SearchMatches(j: JoinedRow, term: string)
  {
    ILike(j.student.name, term) || ILike(j.student.surname, term) || ILike(CourseNameOrEmpty(j), term) ||
    FoldedMatch(j.student.name, term) || FoldedMatch(j.student.surname, term)
  }

  /** The WHERE clause: the filters that are given, ANDed. */
  predicate Keep(t: Tables, f: ListFilter, j: JoinedRow)
  {
    (f.nameSurname == "" || NameMatches(j.student, f.nameSurname)) &&
    (f.course == "" || CourseMatches(t, j, f.course)) &&
    (f.search == "" || SearchMatches(j, f.search))
  }

  function KeepFn(t: Tables, f: ListFilter): JoinedRow -> bool
  {
    j => Keep(t, f, j)
  }

  function Selected(t: Tables, f: ListFilter): seq<JoinedRow>
  {
    Filter(Join(t, f.date), KeepFn(t, f))
  }

  // ---- ORDER BY ----

  predicate Undated(j: JoinedRow)
  {
    j.record.None?
  }

  /** `COALESCE(a.attendance_date, '1900-01-01')`. */
  function SortDate(j: JoinedRow): Date
  {
    if j.record.Some? then j.record.value.date else NullSortDate
  }

  /** `ORDER BY CASE WHEN a.attendance_date IS NULL THEN 1 ELSE 0 END,
      COALESCE(a.attendance_date, '1900-01-01') DESC, s.student_name`. */
  predicate RowLe(a: JoinedRow, b: JoinedRow)
  {
    if Undated(a) != Undated(b) then !Undated(a)
    else if SortDate(a) != SortDate(b) then SortDate(a) > SortDate(b)
    else StrLe(a.student.name, b.student.name)
  }

  lemma RowLeIsTotalPreorder()
    ensures TotalPreorder(RowLe)
  {
    forall a, b ensures RowLe(a, b) || RowLe(b, a) {
      StrLeTotal(a.student.name, b.student.name);
    }
    forall a, b, c | RowLe(a, b) && RowLe(b, c) ensures RowLe(a, c) {
      if Undated(a) == Undated(b) == Undated(c) && SortDate(a) == SortDate(b) == SortDate(c) {
        StrLeTransitive(a.student.name, b.student.name, c.student.name);
      }
    }
  }

  /** The rows of the result in the order the query returns them. */
  function Ordered(t: Tables, f: ListFilter): seq<JoinedRow>
  {
    SortBy(Selected(t, f), RowLe)
  }

  // ---- Shaping the reply ----

  /** `record.status === 'No attendance record yet' ? ... : capitalised status`. */
  function FormatStatus(stored: string): string
  {
    if stored == NoAttendanceYet then stored else Capitalize(stored)
  }

  /** The shaped reply row: the student's name and surname, the course name or
      "No course assigned", the formatted date or "N/A", the status with its
      first letter upper-cased or "No attendance record yet", and the flag that
      says whether the row has no record. */
  function FormatRow(j: JoinedRow): (r: AttendanceRow)
    ensures r.studentName == j.student.name && r.studentSurname == j.student.surname
    ensures r.hasNoAttendance <==> j.record.None?
    ensures j.course.Some? ==> r.course == j.course.value.name
    ensures j.course.None? ==> r.course == "No course assigned"
    ensures j.record.None? ==> r.date == NotAvailable && r.status == "No attendance record yet"
    ensures j.record.Some? ==>
      r.date == Formatted(j.record.value.date) &&
      r.status == (if j.record.value.status == Present then "Present" else "Absent")
  {
    assert Capitalize("present") == "Present";
    assert Capitalize("absent") == "Absent";
    AttendanceRow(
      j.student.name,
      j.student.surname,
      if j.course.Some? then j.course.value.name else NoCourseAssigned,
      if j.record.Some? then Formatted(j.record.value.date) else NotAvailable,
      FormatStatus(if j.record.Some? then StatusText(j.record.value.status) else NoAttendanceYet),
      j.record.None?)
  }

  /** `GET /attendance`. A reply row is exactly the shaped form of a row the
      join produces and every given filter keeps; dated rows come before
      undated ones, dates descending, and equal dates (or no dates) by student
      name ascending. */
  function ListAttendance(t: Tables, f: ListFilter): (r: seq<AttendanceRow>)
    ensures forall x :: x in r <==>
      exists j: JoinedRow :: j.student in t.students && j in RowsFor(t, j.student, f.date) && Keep(t, f, j) && x == FormatRow(j)
    ensures |r| == |Ordered(t, f)|
    ensures forall i :: 0 <= i < |r| ==> r[i] == FormatRow(Ordered(t, f)[i])
    ensures forall i, j :: 0 <= i < j < |r| ==>
      (r[i].hasNoAttendance ==> r[j].hasNoAttendance) &&
      (r[i].date.Formatted? && r[j].date.Formatted? ==> r[i].date.day >= r[j].date.day) &&
      (r[i].date == r[j].date ==> StrLe(r[i].studentName, r[j].studentName))
  {
    var rows := Ordered(t, f);
    var r := seq(|rows|, i requires 0 <= i < |rows| => FormatRow(rows[i]));
    ListingMembers(t, f);
    MapMembers(rows, FormatRow, r);
    RowLeIsTotalPreorder();
    SortBySorted(Selected(t, f), RowLe);
    FormattedOrder(rows, r);
    r
  }

  /** Shaping keeps the order: rows sorted by `RowLe` give replies with dated
      rows first, dates descending and equal dates by name. */
  lemma FormattedOrder(rows: seq<JoinedRow>, r: seq<AttendanceRow>)
    requires Sorted(rows, RowLe)
    requires |r| == |rows| && forall i :: 0 <= i < |rows| ==> r[i] == FormatRow(rows[i])
    ensures forall i, j :: 0 <= i < j < |r| ==>
      (r[i].hasNoAttendance ==> r[j].hasNoAttendance) &&
      (r[i].date.Formatted? && r[j].date.Formatted? ==> r[i].date.day >= r[j].date.day) &&
      (r[i].date == r[j].date ==> StrLe(r[i].studentName, r[j].studentName))
  {
    forall i, j | 0 <= i < j < |r|
      ensures (r[i].hasNoAttendance ==> r[j].hasNoAttendance) &&
        (r[i].date.Formatted? && r[j].date.Formatted? ==> r[i].date.day >= r[j].date.day) &&
        (r[i].date == r[j].date ==> StrLe(r[i].studentName, r[j].studentName))
    {
      assert RowLe(rows[i], rows[j]);
    }
  }

  // ---- Properties of the listing ----

  function OfStudent(sid: nat): JoinedRow -> bool
  {
    (j: JoinedRow) => j.student.id == sid
  }

  lemma {:induction false} RowsForShape(t: Tables, s: Student, date: Option<Date>)
    ensures forall j :: j in RowsFor(t, s, date) ==> j.student == s
    ensures RecordsOf(t.attendance, s.id, date) == [] ==> RowsFor(t, s, date) == [JoinedRow(s, None, None)]
    ensures RecordsOf(t.attendance, s.id, date) != [] ==>
      |RowsFor(t, s, date)| == |RecordsOf(t.attendance, s.id, date)| &&
      forall j :: j in RowsFor(t, s, date) ==>
        j.record.Some? && j.record.value in t.attendance && JoinsWith(j.record.value, s.id, date) &&
        j.course == FindCourse(t.courses, j.record.value.courseId)
  {
    var matched := RecordsOf(t.attendance, s.id, date);
    forall j | j in RowsFor(t, s, date) && matched != []
      ensures j.record.Some? && j.record.value in t.attendance && JoinsWith(j.record.value, s.id, date)
    {
      var i :| 0 <= i < |matched| && RowsFor(t, s, date)[i] == j;
      assert JoinsWithFn(s.id, date)(matched[i]);
    }
  }

  lemma {:induction false} JoinMembers(t: Tables, ss: seq<Student>, date: Option<Date>)
    ensures forall j :: j in JoinStudents(t, ss, date) <==> j.student in ss && j in RowsFor(t, j.student, date)
    decreases |ss|
  {
    if ss != [] {
      JoinMembers(t, ss[1..], date);
      RowsForShape(t, ss[0], date);
      forall j ensures j in JoinStudents(t, ss, date) <==> j.student in ss && j in RowsFor(t, j.student, date) {
        if j.student in ss && j in RowsFor(t, j.student, date) && j.student != ss[0] {
          assert j.student in ss[1..];
        }
      }
    }
  }

  lemma {:induction false} JoinRowsOfAbsent(t: Tables, ss: seq<Student>, date: Option<Date>, sid: nat)
    requires forall i :: 0 <= i < |ss| ==> ss[i].id != sid
    ensures Filter(JoinStudents(t, ss, date), OfStudent(sid)) == []
  {
    JoinMembers(t, ss, date);
    forall j | j in JoinStudents(t, ss, date) ensures !OfStudent(sid)(j) {
      var k :| 0 <= k < |ss| && ss[k] == j.student;
    }
    FilterNone(JoinStudents(t, ss, date), OfStudent(sid));
  }

  /** The rows one student contributes, kept by the test for some student id. */
  lemma RowsForOfStudent(t: Tables, s: Student, date: Option<Date>, sid: nat)
    ensures Filter(RowsFor(t, s, date), OfStudent(sid)) == if s.id == sid then RowsFor(t, s, date) else []
  {
    RowsForShape(t, s, date);
    if s.id == sid {
      FilterAll(RowsFor(t, s, date), OfStudent(sid));
    } else {
      FilterNone(RowsFor(t, s, date), OfStudent(sid));
    }
  }

  /** Under unique student ids, the rows of the join that belong to a student
      are exactly that student's rows, in order. */
  lemma {:induction false} JoinRowsOf(t: Tables, ss: seq<Student>, date: Option<Date>, s: Student)
    requires UniqueStudentIds(ss) && s in ss
    ensures Filter(JoinStudents(t, ss, date), OfStudent(s.id)) == RowsFor(t, s, date)
    decreases |ss|
  {
    var head := RowsFor(t, ss[0], date);
    var rest := JoinStudents(t, ss[1..], date);
    assert JoinStudents(t, ss, date) == head + rest;
    FilterAppend(head, rest, OfStudent(s.id));
    RowsForOfStudent(t, ss[0], date, s.id);
    UniqueStudentIdsTail(ss);
    if ss[0] == s {
      JoinRowsOfAbsent(t, ss[1..], date, s.id);
      assert Filter(head, OfStudent(s.id)) + [] == head;
    } else {
      var k :| 0 <= k < |ss| && ss[k] == s;
      assert k > 0 && ss[1..][k - 1] == s;
      assert ss[0].id != s.id;
      JoinRowsOf(t, ss[1..], date, s);
      assert [] + Filter(rest, OfStudent(s.id)) == RowsFor(t, s, date);
    }
  }

  /** With none of the name, course and search filters the WHERE clause keeps everything. */
  lemma SelectedWithoutFilters(t: Tables, f: ListFilter)
    requires f.nameSurname == "" && f.course == "" && f.search == ""
    ensures Selected(t, f) == Join(t, f.date)
  {
    FilterAll(Join(t, f.date), KeepFn(t, f));
  }

  /** A row is listed exactly when the join produces it and every given filter keeps it;
      so the listing is a subset of the unfiltered join. */
  lemma ListingMembers(t: Tables, f: ListFilter)
    ensures forall j :: j in Ordered(t, f) <==> j.student in t.students && j in RowsFor(t, j.student, f.date) && Keep(t, f, j)
  {
    SortByMembers(Selected(t, f), RowLe);
    JoinMembers(t, t.students, f.date);
  }

  /** `ListingMembers` for one given row: the per-row form the proofs below
      call, so that the solver meets the one instance they need. */
  lemma ListingMember(t: Tables, f: ListFilter, j: JoinedRow)
    ensures j in Ordered(t, f) <==> j.student in t.students && j in RowsFor(t, j.student, f.date) && Keep(t, f, j)
  {
    ListingMembers(t, f);
  }

  /** With at most a date filter, a student contributes one row per attendance record
      the join pairs it with, or exactly one placeholder row when there is none --
      in particular a date matching none of its records does not hide it. */
  lemma StudentRowsListed(t: Tables, f: ListFilter, s: Student)
    requires UniqueStudentIds(t.students) && s in t.students
    requires f.nameSurname == "" && f.course == "" && f.search == ""
    ensures var k := |RecordsOf(t.attendance, s.id, f.date)|;
      |Filter(Ordered(t, f), OfStudent(s.id))| == (if k == 0 then 1 else k)
    ensures RecordsOf(t.attendance, s.id, f.date) == [] ==>
      JoinedRow(s, None, None) in Ordered(t, f) &&
      forall j :: j in Ordered(t, f) && j.student.id == s.id ==> j == JoinedRow(s, None, None)
    ensures RecordsOf(t.attendance, s.id, f.date) != [] ==>
      forall j :: j in Ordered(t, f) && j.student.id == s.id ==>
        j.student == s && j.record.Some? && j.record.value in t.attendance &&
        JoinsWith(j.record.value, s.id, f.date)
  {
    SelectedWithoutFilters(t, f);
    SortByFilterCount(Selected(t, f), RowLe, OfStudent(s.id));
    JoinRowsOf(t, t.students, f.date, s);
    RowsForShape(t, s, f.date);
    forall j | j in Ordered(t, f) && j.student.id == s.id ensures j in RowsFor(t, s, f.date) {
      ListingMember(t, f, j);
      FindStudentUnique(t.students, j.student);
      FindStudentUnique(t.students, s);
    }
    if RecordsOf(t.attendance, s.id, f.date) == [] {
      ListingMember(t, f, JoinedRow(s, None, None));
    }
  }

  /** With no filters at all, a student without attendance records is listed
      exactly once, as the placeholder row. */
  lemma StudentWithoutRecordsListedOnce(t: Tables, s: Student)
    requires UniqueStudentIds(t.students) && s in t.students
    requires forall a :: a in t.attendance ==> a.studentId != s.id
    ensures |Filter(Ordered(t, NoFilter), OfStudent(s.id))| == 1
    ensures JoinedRow(s, None, None) in Ordered(t, NoFilter)
    ensures FormatRow(JoinedRow(s, None, None)) ==
      AttendanceRow(s.name, s.surname, "No course assigned", NotAvailable, "No attendance record yet", true)
  {
    FilterNone(t.attendance, JoinsWithFn(s.id, None));
    StudentRowsListed(t, NoFilter, s);
  }

  /** With at most a date filter every student is listed, whatever the date. */
  lemma DateFilterKeepsEveryStudent(t: Tables, f: ListFilter, s: Student)
    requires s in t.students
    requires f.nameSurname == "" && f.course == "" && f.search == ""
    ensures exists j :: j in Ordered(t, f) && j.student == s
  {
    var rows := RowsFor(t, s, f.date);
    RowsForShape(t, s, f.date);
    assert rows[0] in rows;
    ListingMember(t, f, rows[0]);
  }

  /** Every listed row that has a record is a record on the requested date. */
  lemma ListedRecordsOnDate(t: Tables, f: ListFilter, j: JoinedRow)
    requires f.date.Some? && j in Ordered(t, f) && j.record.Some?
    ensures j.record.value.date == f.date.value && j.record.value.studentId == j.student.id
  {
    ListingMember(t, f, j);
    RowsForShape(t, j.student, f.date);
  }

  /** The name filter, unfolded: a plain case-insensitive substring of name or
      surname, or the input-folded term inside the stored-folded name or surname. */
  lemma NameMatchesMeaning(s: Student, term: string)
    ensures NameMatches(s, term) <==>
      Contains(Lower(s.name), Lower(term)) || Contains(Lower(s.surname), Lower(term)) ||
      Contains(FoldStored(s.name), FoldInput(term)) || Contains(FoldStored(s.surname), FoldInput(term))
  {
    FoldedMatchIsContains(s.name, term);
    FoldedMatchIsContains(s.surname, term);
  }

  /** The search filter, unfolded; a row without attendance searches its course as ''. */
  lemma SearchMatchesMeaning(j: JoinedRow, term: string)
    ensures SearchMatches(j, term) <==>
      Contains(Lower(j.student.name), Lower(term)) || Contains(Lower(j.student.surname), Lower(term)) ||
      Contains(Lower(if j.course.Some? then j.course.value.name else ""), Lower(term)) ||
      Contains(FoldStored(j.student.name), FoldInput(term)) || Contains(FoldStored(j.student.surname), FoldInput(term))
  {
    FoldedMatchIsContains(j.student.name, term);
    FoldedMatchIsContains(j.student.surname, term);
  }

  /** The folded branches are what make the name search diacritic-insensitive:
      typed as "ayse", a stored "Ayşe" escapes the plain `ILIKE` (whose
      lower-casing keeps the ş) and is found only through the folded one. */
  lemma FoldedBranchFindsAyse(s: Student)
    requires s.name == "Ay" + [SmallSCedilla] + "e"
    ensures !ILike(s.name, "ayse")
    ensures FoldedMatch(s.name, "ayse")
    ensures NameMatches(s, "ayse")
  {
    var lowered := Lower(s.name);
    assert lowered == "ay" + [SmallSCedilla] + "e";
    assert !("ayse" <= lowered) by { assert lowered[2] != "ayse"[2]; }
    ShorterLacks(lowered[1..], "ayse");
    assert Lower("ayse") == "ayse";
    FoldTurkishIsCharwise(s.name);
    FoldTurkishIsCharwise(Lower("ayse"));
    assert FoldStored(s.name) == "ayse";
    assert FoldInput("ayse") == "ayse";
    FoldedMatchIsContains(s.name, "ayse");
  }

  /** A student enrolled in a course with the filtered name keeps all of its
      rows -- its placeholder row and its rows for other courses included. */
  lemma EnrolledStudentKeepsAllRows(t: Tables, f: ListFilter, s: Student)
    requires UniqueStudentIds(t.students) && s in t.students
    requires f.nameSurname == "" && f.search == "" && f.course != ""
    requires EnrolledInCourseNamed(t, s.id, f.course)
    ensures forall j :: j in RowsFor(t, s, f.date) ==> j in Ordered(t, f)
    ensures |Filter(Ordered(t, f), OfStudent(s.id))| == |RowsFor(t, s, f.date)|
  {
    var join := Join(t, f.date);
    JoinMembers(t, t.students, f.date);
    RowsForShape(t, s, f.date);
    forall j | j in join && OfStudent(s.id)(j) ensures KeepFn(t, f)(j) {
      FindStudentUnique(t.students, j.student);
      FindStudentUnique(t.students, s);
    }
    FilterFilter(join, KeepFn(t, f), OfStudent(s.id));
    JoinRowsOf(t, t.students, f.date, s);
    SortByFilterCount(Selected(t, f), RowLe, OfStudent(s.id));
    forall j | j in RowsFor(t, s, f.date) ensures j in Ordered(t, f) {
      ListingMember(t, f, j);
    }
  }

  // ---- POST /attendance ----

  /** The request body; an empty text or an absent value is a missing field. */
  datatype AttendanceForm = AttendanceForm(studentId: Option<nat>, courseId: string, date: Option<Date>, status: string)

  predicate HasRequiredFields(form: AttendanceForm)
  {
    GivenNumber(form.studentId) && form.courseId != "" && form.date.Some?
  }

  /** `status || 'present'`, as the status column accepts it: None when the
      store rejects the value. */
  function StoredStatus(status: string): (r: Option<Status>)
    ensures r == Some(Present) <==> status == "" || status == "present"
    ensures r == Some(Absent) <==> status == "absent"
  {
    if status == "" || status == "present" then Some(Present)
    else if status == "absent" then Some(Absent)
    else None
  }

  /** `POST /attendance`: appends one record with a fresh id, or replies 400
      when a field is missing (and 500 when the store rejects the status). */
  method CreateAttendance(db: Db, form: AttendanceForm) returns (r: Response<nat>)
    requires db.Valid()
    modifies db`attendance, db`nextAttendanceId
    ensures db.Valid()
    ensures !HasRequiredFields(form) ==>
      r == Err(400, MissingRequiredFields) && db.attendance == old(db.attendance) &&
      db.nextAttendanceId == old(db.nextAttendanceId)
    ensures HasRequiredFields(form) && StoredStatus(form.status).None? ==>
      r == Err(500, InvalidStatus(form.status).message) && db.attendance == old(db.attendance) &&
      db.nextAttendanceId == old(db.nextAttendanceId)
    ensures HasRequiredFields(form) && StoredStatus(form.status).Some? ==>
      r == Ok(201, old(db.nextAttendanceId)) && db.nextAttendanceId == old(db.nextAttendanceId) + 1 &&
      db.attendance == old(db.attendance) + [AttendanceRecord(old(db.nextAttendanceId),
        form.studentId.value, form.courseId, form.date.value, StoredStatus(form.status).value)]
  {
    if !GivenNumber(form.studentId) || form.courseId == "" || form.date.None? {
      return Err(400, MissingRequiredFields);
    }
    var status := StoredStatus(form.status);
    if status.None? {
      return Err(500, InvalidStatus(form.status).message);
    }
    var id := db.nextAttendanceId;
    db.attendance := db.attendance + [AttendanceRecord(id, form.studentId.value, form.courseId, form.date.value, status.value)];
    db.nextAttendanceId := id + 1;
    r := Ok(201, id);
  }
}
