/** The student routes: the enrollment listing (`GET /students/courses`), the
    student listing (`GET /students`), the lookup by id, and the transactional
    create, the coalescing update and the delete. */
module StudentsApi {
  import opened Text
  import opened Sequences
  import opened Schema
  import opened Store

  const StudentNotFound: string := "Student not found"
  const MissingStudentFields: string := "Missing required fields: name, surname, email, and department are required"
  const EmailAlreadyRegistered: string := "This email address is already registered"
  const StudentAlreadyExists: string := "A student with this information already exists"

  function DepartmentNotFound(name: string): string
  {
    "Department \"" + name + "\" not found"
  }

  /** The `search` filter shared by both listings: name, surname or the id as
      text, case-insensitively, or the folded name or surname. */
  predicate StudentSearchMatches(id: nat, name: string, surname: string, term: string)
  {
    ILike(name, term) || ILike(surname, term) || ILike(NatToText(id), term) ||
    FoldedMatch(name, term) || FoldedMatch(surname, term)
  }

  lemma StudentSearchMeaning(id: nat, name: string, surname: string, term: string)
    ensures StudentSearchMatches(id, name, surname, term) <==>
      Contains(Lower(name), Lower(term)) || Contains(Lower(surname), Lower(term)) ||
      Contains(NatToText(id), Lower(term)) ||
      Contains(FoldStored(name), FoldInput(term)) || Contains(FoldStored(surname), FoldInput(term))
  {
    IdTextILike(id, term);
    FoldedMatchIsContains(name, term);
    FoldedMatchIsContains(surname, term);
  }

  // ---- GET /students/courses ----

  /** One row of `student_course JOIN student JOIN course`. */
  datatype EnrollmentRow = EnrollmentRow(studentId: nat, studentName: string, studentSurname: string,
                                         courseId: string, courseName: string)

  /** The inner join for one junction row: one row when both its student and its
      course exist, none otherwise. */
  function PairRows(t: Tables, e: Enrollment): (r: seq<EnrollmentRow>)
    ensures |r| <= 1
    ensures r != [] <==>
      (exists s :: s in t.students && s.id == e.studentId) && (exists c :: c in t.courses && c.id == e.courseId)
  {
    match (FindStudent(t.students, e.studentId), FindCourse(t.courses, e.courseId))
    case (Some(s), Some(c)) => [EnrollmentRow(s.id, s.name, s.surname, c.id, c.name)]
    case _ => []
  }

  function JoinEnrollments(t: Tables, es: seq<Enrollment>): seq<EnrollmentRow>
    decreases |es|
  {
    if es == [] then [] else PairRows(t, es[0]) + JoinEnrollments(t, es[1..])
  }

  /** A junction row whose joined row exists and satisfies `q`. */
  function JoinKept(t: Tables, q: EnrollmentRow -> bool): Enrollment -> bool
  {
    e => PairRows(t, e) != [] && q(PairRows(t, e)[0])
  }

  /** The join yields at most one row per junction row: as many joined rows
      satisfy `q` as there are junction rows whose joined row exists and does. */
  lemma {:induction false} JoinEnrollmentsCount(t: Tables, es: seq<Enrollment>, q: EnrollmentRow -> bool)
    ensures |Filter(JoinEnrollments(t, es), q)| == |Filter(es, JoinKept(t, q))|
    decreases |es|
  {
    if es != [] {
      FilterAppend(PairRows(t, es[0]), JoinEnrollments(t, es[1..]), q);
      JoinEnrollmentsCount(t, es[1..], q);
    }
  }

  predicate KeepEnrollment(search: string, course: string, r: EnrollmentRow)
  {
    (search == "" || StudentSearchMatches(r.studentId, r.studentName, r.studentSurname, search)) &&
    (course == "" || r.courseId == course || r.courseName == course)
  }

  function KeepEnrollmentFn(search: string, course: string): EnrollmentRow -> bool
  {
    r => KeepEnrollment(search, course, r)
  }

  /** `ORDER BY s.student_id, c.course_id`. */
  predicate EnrollmentRowLe(a: EnrollmentRow, b: EnrollmentRow)
  {
    a.studentId < b.studentId || (a.studentId == b.studentId && StrLe(a.courseId, b.courseId))
  }

  lemma EnrollmentRowLeIsTotalPreorder()
    ensures TotalPreorder(EnrollmentRowLe)
  {
    forall a, b ensures EnrollmentRowLe(a, b) || EnrollmentRowLe(b, a) {
      StrLeTotal(a.courseId, b.courseId);
    }
    forall a, b, c | EnrollmentRowLe(a, b) && EnrollmentRowLe(b, c) ensures EnrollmentRowLe(a, c) {
      if a.studentId == b.studentId == c.studentId {
        StrLeTransitive(a.courseId, b.courseId, c.courseId);
      }
    }
  }

  /** `r` is the joined row of junction row `e`. */
  predicate JoinedFrom(t: Tables, e: Enrollment, r: EnrollmentRow)
  {
    exists s, c :: s in t.students && c in t.courses && s.id == e.studentId && c.id == e.courseId &&
      FindStudent(t.students, e.studentId) == Some(s) && FindCourse(t.courses, e.courseId) == Some(c) &&
      r == EnrollmentRow(s.id, s.name, s.surname, c.id, c.name)
  }

  lemma {:induction false} JoinEnrollmentsMembers(t: Tables, es: seq<Enrollment>, r: EnrollmentRow)
    ensures r in JoinEnrollments(t, es) <==> exists e :: e in es && JoinedFrom(t, e, r)
    decreases |es|
  {
    if es != [] {
      JoinEnrollmentsMembers(t, es[1..], r);
      assert r in PairRows(t, es[0]) <==> JoinedFrom(t, es[0], r);
      if exists e :: e in es && JoinedFrom(t, e, r) {
        var e :| e in es && JoinedFrom(t, e, r);
        if e != es[0] {
          assert e in es[1..];
        }
      }
    }
  }

  lemma JoinEnrollmentsAll(t: Tables, es: seq<Enrollment>)
    ensures forall r :: r in JoinEnrollments(t, es) <==> exists e :: e in es && JoinedFrom(t, e, r)
  {
    forall r ensures r in JoinEnrollments(t, es) <==> exists e :: e in es && JoinedFrom(t, e, r) {
      JoinEnrollmentsMembers(t, es, r);
    }
  }

  /** `GET /students/courses`. A listed row is exactly a junction pair whose
      student and course both exist, with their names, that passes the given
      filters, so a pair with a missing student or course is never listed; each
      such pair gives one row, and the rows are ordered by student id, then by
      course id. */
  function ListEnrollments(t: Tables, search: string, course: string): (r: seq<EnrollmentRow>)
    ensures forall x :: x in r <==>
      (exists e :: e in t.enrollments && JoinedFrom(t, e, x)) && KeepEnrollment(search, course, x)
    ensures forall i, j :: 0 <= i < j < |r| ==>
      r[i].studentId <= r[j].studentId &&
      (r[i].studentId == r[j].studentId ==> StrLe(r[i].courseId, r[j].courseId))
    ensures |r| == |Filter(t.enrollments, JoinKept(t, KeepEnrollmentFn(search, course)))|
  {
    var kept := Filter(JoinEnrollments(t, t.enrollments), KeepEnrollmentFn(search, course));
    JoinEnrollmentsCount(t, t.enrollments, KeepEnrollmentFn(search, course));
    assert |multiset(SortBy(kept, EnrollmentRowLe))| == |multiset(kept)|;
    KeptEnrollments(t, search, course, kept);
    SortByMembers(kept, EnrollmentRowLe);
    EnrollmentRowLeIsTotalPreorder();
    SortBySorted(kept, EnrollmentRowLe);
    SortBy(kept, EnrollmentRowLe)
  }

  lemma KeptEnrollments(t: Tables, search: string, course: string, kept: seq<EnrollmentRow>)
    requires kept == Filter(JoinEnrollments(t, t.enrollments), KeepEnrollmentFn(search, course))
    ensures forall x :: x in kept <==>
      (exists e :: e in t.enrollments && JoinedFrom(t, e, x)) && KeepEnrollment(search, course, x)
  {
    JoinEnrollmentsAll(t, t.enrollments);
    FilterMembers(JoinEnrollments(t, t.enrollments), KeepEnrollmentFn(search, course));
  }

  // ---- GET /students and GET /students/:id ----

  /** One row of `student LEFT JOIN department`: `department` is None when the
      student's department does not exist. */
  datatype StudentRow = StudentRow(id: nat, name: string, surname: string, email: string,
                                   photoPath: Option<string>, faceData: Option<string>, department: Option<string>)

  function DepartmentName(t: Tables, s: Student): Option<string>
  {
    DepartmentNameOf(t.departments, s.departmentId)
  }

  function StudentView(t: Tables, s: Student): StudentRow
  {
    StudentRow(s.id, s.name, s.surname, s.email, s.photoPath, s.faceData, DepartmentName(t, s))
  }

  predicate KeepStudent(t: Tables, search: string, department: string, s: Student)
  {
    (search == "" || StudentSearchMatches(s.id, s.name, s.surname, search)) &&
    (department == "" || DepartmentName(t, s) == Some(department))
  }

  function KeepStudentFn(t: Tables, search: string, department: string): Student -> bool
  {
    s => KeepStudent(t, search, department, s)
  }

  function Views(t: Tables, ss: seq<Student>): (r: seq<StudentRow>)
    ensures |r| == |ss|
    ensures forall x :: x in r <==> exists s :: s in ss && x == StudentView(t, s)
  {
    var r := seq(|ss|, i requires 0 <= i < |ss| => StudentView(t, ss[i]));
    MapMembers(ss, s => StudentView(t, s), r);
    r
  }

  predicate StudentRowLe(a: StudentRow, b: StudentRow)
  {
    a.id <= b.id
  }

  /** `GET /students`. A listed row is exactly the view of a stored student that
      passes the search and department filters, one row per such student; the
      rows are ordered by id, and without filters every student is listed. */
  function ListStudents(t: Tables, search: string, department: string): (r: seq<StudentRow>)
    ensures forall x :: x in r <==>
      exists s :: s in t.students && KeepStudent(t, search, department, s) && x == StudentView(t, s)
    ensures forall i, j :: 0 <= i < j < |r| ==> r[i].id <= r[j].id
    ensures |r| == |Filter(t.students, KeepStudentFn(t, search, department))|
    ensures search == "" && department == "" ==> |r| == |t.students|
  {
    var kept := Filter(t.students, KeepStudentFn(t, search, department));
    var views := Views(t, kept);
    FilterMembers(t.students, KeepStudentFn(t, search, department));
    SortByMembers(views, StudentRowLe);
    SortBySorted(views, StudentRowLe);
    UnfilteredKeepsEveryone(t, search, department);
    assert |multiset(SortBy(views, StudentRowLe))| == |multiset(views)|;
    SortBy(views, StudentRowLe)
  }

  lemma UnfilteredKeepsEveryone(t: Tables, search: string, department: string)
    ensures search == "" && department == "" ==> Filter(t.students, KeepStudentFn(t, search, department)) == t.students
  {
    if search == "" && department == "" {
      FilterAll(t.students, KeepStudentFn(t, search, department));
    }
  }

  /** `GET /students/:id`. */
  function GetStudent(t: Tables, id: nat): (r: Response<StudentRow>)
    ensures r.Ok? <==> exists s :: s in t.students && s.id == id
    ensures r.Ok? ==> r.status == 200 && r.value.id == id
    ensures r.Ok? ==> exists s :: s in t.students && s.id == id && r.value == StudentView(t, s)
    ensures r.Err? ==> r == Err(404, StudentNotFound)
  {
    match FindStudent(t.students, id)
    case Some(s) => Ok(200, StudentView(t, s))
    case None => Err(404, StudentNotFound)
  }

  // ---- POST /students ----

  /** The request body; an empty text is a missing value, and `courses` is the
      list of course ids to enroll in. */
  datatype StudentForm = StudentForm(name: string, surname: string, email: string, department: string,
                                     photoPath: string, faceData: string, courses: seq<string>)

  predicate HasRequiredFields(form: StudentForm)
  {
    form.name != "" && form.surname != "" && form.email != "" && form.department != ""
  }

  function NewStudent(id: nat, form: StudentForm, departmentId: nat): Student
  {
    Student(id, form.name, form.surname, form.email, OrNull(form.photoPath), OrNull(form.faceData), departmentId)
  }

  /** `INSERT INTO student_course ... ON CONFLICT DO NOTHING`, run only when the course exists. */
  function EnrollOne(es: seq<Enrollment>, cs: seq<Course>, sid: nat, cid: string): seq<Enrollment>
  {
    if FindCourse(cs, cid).Some? && Enrollment(sid, cid) !in es then es + [Enrollment(sid, cid)] else es
  }

  /** The enrollment loop over the listed course ids, in order. */
  function EnrollAll(es: seq<Enrollment>, cs: seq<Course>, sid: nat, ids: seq<string>): seq<Enrollment>
    decreases |ids|
  {
    if ids == [] then es else EnrollOne(EnrollAll(es, cs, sid, ids[..|ids| - 1]), cs, sid, ids[|ids| - 1])
  }

  /** After the loop the junction table holds exactly the old pairs and one pair
      for each listed id that names an existing course. */
  lemma {:induction false} EnrollAllMembers(es: seq<Enrollment>, cs: seq<Course>, sid: nat, ids: seq<string>)
    ensures es <= EnrollAll(es, cs, sid, ids)
    ensures forall e :: e in EnrollAll(es, cs, sid, ids) <==>
      e in es || (e.studentId == sid && e.courseId in ids && FindCourse(cs, e.courseId).Some?)
    decreases |ids|
  {
    if ids != [] {
      var init := ids[..|ids| - 1];
      EnrollAllMembers(es, cs, sid, init);
      forall e: Enrollment ensures e.courseId in ids <==> e.courseId in init || e.courseId == ids[|ids| - 1] {
        assert ids == init + [ids[|ids| - 1]];
      }
    }
  }

  /** A course id listed twice, or a pair already present, is not added twice. */
  lemma {:induction false} EnrollAllUnique(es: seq<Enrollment>, cs: seq<Course>, sid: nat, ids: seq<string>)
    requires UniqueEnrollments(es)
    ensures UniqueEnrollments(EnrollAll(es, cs, sid, ids))
    decreases |ids|
  {
    if ids != [] {
      var init := ids[..|ids| - 1];
      EnrollAllUnique(es, cs, sid, init);
      var prev := EnrollAll(es, cs, sid, init);
      var cid := ids[|ids| - 1];
      if FindCourse(cs, cid).Some? && Enrollment(sid, cid) !in prev {
        var next := prev + [Enrollment(sid, cid)];
        forall i, j | 0 <= i < j < |next| ensures next[i] != next[j] {
          if j == |prev| {
            assert next[i] == prev[i];
          } else {
            assert next[i] == prev[i] && next[j] == prev[j];
          }
        }
      }
    }
  }

  /** Enrolling in courses that are all already enrolled (or missing) changes nothing. */
  lemma {:induction false} EnrollAllNothingNew(es: seq<Enrollment>, cs: seq<Course>, sid: nat, ids: seq<string>)
    requires forall i :: 0 <= i < |ids| && FindCourse(cs, ids[i]).Some? ==> Enrollment(sid, ids[i]) in es
    ensures EnrollAll(es, cs, sid, ids) == es
    decreases |ids|
  {
    if ids != [] {
      var init := ids[..|ids| - 1];
      assert forall i :: 0 <= i < |init| ==> init[i] == ids[i];
      EnrollAllNothingNew(es, cs, sid, init);
    }
  }

  /** Running the enrollment loop a second time with the same ids is a no-op. */
  lemma EnrollAllIdempotent(es: seq<Enrollment>, cs: seq<Course>, sid: nat, ids: seq<string>)
    ensures EnrollAll(EnrollAll(es, cs, sid, ids), cs, sid, ids) == EnrollAll(es, cs, sid, ids)
  {
    var once := EnrollAll(es, cs, sid, ids);
    EnrollAllMembers(es, cs, sid, ids);
    forall i | 0 <= i < |ids| && FindCourse(cs, ids[i]).Some? ensures Enrollment(sid, ids[i]) in once {
      assert Enrollment(sid, ids[i]).courseId in ids;
    }
    EnrollAllNothingNew(once, cs, sid, ids);
  }

  /** The enrollment loop of `POST /students`: each listed course id that names
      an existing course is added once for the student. */
  method EnrollCourses(es: seq<Enrollment>, cs: seq<Course>, sid: nat, ids: seq<string>) returns (r: seq<Enrollment>)
    ensures r == EnrollAll(es, cs, sid, ids)
  {
    r := es;
    var i := 0;
    while i < |ids|
      invariant 0 <= i <= |ids|
      invariant r == EnrollAll(es, cs, sid, ids[..i])
    {
      if FindCourse(cs, ids[i]).Some? && Enrollment(sid, ids[i]) !in r {
        r := r + [Enrollment(sid, ids[i])];
      }
      assert ids[..i + 1][..i] == ids[..i];
      i := i + 1;
    }
    assert ids[..i] == ids;
  }

  /** The reply to an insert the store rejected: its own message, unless that
      message reports a unique-constraint violation, which is reported as a
      taken email when it mentions "email" and as a duplicate otherwise. */
  function StudentErrorMessage(msg: string): (r: string)
    ensures !IsDuplicateKeyMessage(msg) ==> r == msg
    ensures IsDuplicateKeyMessage(msg) ==> (r == EmailAlreadyRegistered <==> Contains(msg, "email"))
    ensures IsDuplicateKeyMessage(msg) ==> (r == StudentAlreadyExists <==> !Contains(msg, "email"))
  {
    if IsDuplicateKeyMessage(msg) then
      (if Contains(msg, "email") then EmailAlreadyRegistered else StudentAlreadyExists)
    else msg
  }

  /** The violation the store raises for a taken email is reported as such. */
  lemma EmailClashMessage()
    ensures StudentErrorMessage(UniqueViolation(StudentEmailKey).message) == EmailAlreadyRegistered
  {
    UniqueViolationRecognised(StudentEmailKey);
    EmailKeysMentionEmail();
  }

  /** The violation the store raises for a taken primary key is reported as a
      duplicate, not as a taken email. */
  lemma PrimaryKeyClashMessage()
    ensures StudentErrorMessage(UniqueViolation(StudentPrimaryKey).message) == StudentAlreadyExists
  {
    UniqueViolationRecognised(StudentPrimaryKey);
    PrimaryKeysLackEmail();
  }

  predicate EmailTaken(ss: seq<Student>, email: string)
  {
    exists i :: 0 <= i < |ss| && ss[i].email == email
  }

  lemma AppendStudentEmails(ss: seq<Student>, s: Student)
    requires UniqueStudentEmails(ss)
    ensures UniqueStudentEmails(ss + [s]) <==> !EmailTaken(ss, s.email)
  {
    var next := ss + [s];
    if !EmailTaken(ss, s.email) {
      forall i, j | 0 <= i < j < |next| ensures next[i].email != next[j].email {
        assert next[i] == ss[i];
      }
    } else {
      var i :| 0 <= i < |ss| && ss[i].email == s.email;
      assert next[i].email == next[|ss|].email;
    }
  }

  /** `POST /students`, one transaction: the department is resolved by name,
      the student inserted with the next id, and the listed existing courses
      enrolled; any failure leaves the student and junction tables as they
      were. The id sequence is not rolled back: a failed insert still uses up
      its id. */
  method CreateStudent(db: Db, form: StudentForm) returns (r: Response<nat>)
    requires db.Valid()
    modifies db`students, db`enrollments, db`nextStudentId
    ensures db.Valid()
    ensures !HasRequiredFields(form) ==>
      r == Err(400, MissingStudentFields) &&
      db.students == old(db.students) && db.enrollments == old(db.enrollments) &&
      db.nextStudentId == old(db.nextStudentId)
    ensures HasRequiredFields(form) && FindDepartmentByName(db.departments, form.department).None? ==>
      r == Err(400, DepartmentNotFound(form.department)) &&
      db.students == old(db.students) && db.enrollments == old(db.enrollments) &&
      db.nextStudentId == old(db.nextStudentId)
    ensures HasRequiredFields(form) && FindDepartmentByName(db.departments, form.department).Some? &&
            EmailTaken(old(db.students), form.email) ==>
      r == Err(500, EmailAlreadyRegistered) &&
      db.students == old(db.students) && db.enrollments == old(db.enrollments) &&
      db.nextStudentId == old(db.nextStudentId) + 1
    ensures HasRequiredFields(form) && FindDepartmentByName(db.departments, form.department).Some? &&
            !EmailTaken(old(db.students), form.email) ==>
      var id := old(db.nextStudentId);
      r == Ok(201, id) && db.nextStudentId == id + 1 &&
      db.students == old(db.students) +
        [NewStudent(id, form, FindDepartmentByName(db.departments, form.department).value.id)] &&
      db.enrollments == EnrollAll(old(db.enrollments), db.courses, id, form.courses)
  {
    if form.name == "" || form.surname == "" || form.email == "" || form.department == "" {
      return Err(400, MissingStudentFields);
    }
    var dept := FindDepartmentByName(db.departments, form.department);
    if dept.None? {
      return Err(400, DepartmentNotFound(form.department));
    }
    var id := db.nextStudentId;
    db.nextStudentId := id + 1;
    var student := NewStudent(id, form, dept.value.id);
    AppendStudentEmails(db.students, student);
    if !UniqueStudentEmails(db.students + [student]) {
      EmailClashMessage();
      return Err(500, StudentErrorMessage(UniqueViolation(StudentEmailKey).message));
    }
    var enrolled := EnrollCourses(db.enrollments, db.courses, id, form.courses);
    EnrollAllMembers(db.enrollments, db.courses, id, form.courses);
    EnrollAllUnique(db.enrollments, db.courses, id, form.courses);
    db.students, db.enrollments := db.students + [student], enrolled;
    r := Ok(201, id);
  }

  /** After a successful create the new student is found by its id. */
  lemma CreatedStudentFound(t: Tables, s: Student)
    requires forall x :: x in t.students ==> x.id != s.id
    ensures GetStudent(t.(students := t.students + [s]), s.id) == Ok(200, StudentView(t, s))
  {
    var t' := t.(students := t.students + [s]);
    assert t'.students[|t.students|] == s;
    var found := FindStudent(t'.students, s.id);
    assert found.value in t.students || found.value == s;
  }

  // ---- PUT /students/:id ----

  /** The request body of an update; an empty text leaves the field as it is. */
  datatype StudentChanges = StudentChanges(name: string, surname: string, email: string, department: string,
                                           photoPath: string, faceData: string)

  /** `COALESCE($n, column)` where `$n` is `value || null`. */
  function Coalesce(value: string, current: string): string
  {
    if value == "" then current else value
  }

  function CoalesceOption(value: string, current: Option<string>): Option<string>
  {
    if value == "" then current else Some(value)
  }

  /** The department id the update writes: None when no department is given or
      no department has that name. */
  function ResolvedDepartment(ds: seq<Department>, name: string): (r: Option<nat>)
    ensures r.Some? <==> name != "" && exists d :: d in ds && d.name == name
  {
    if name == "" then None
    else match FindDepartmentByName(ds, name)
      case Some(d) => Some(d.id)
      case None => None
  }

  function Coalesced(s: Student, ch: StudentChanges, departmentId: Option<nat>): Student
  {
    Student(s.id, Coalesce(ch.name, s.name), Coalesce(ch.surname, s.surname), Coalesce(ch.email, s.email),
            CoalesceOption(ch.photoPath, s.photoPath), CoalesceOption(ch.faceData, s.faceData),
            if departmentId.Some? then departmentId.value else s.departmentId)
  }

  /** The UPDATE applied to every row with the id. */
  function UpdatedStudents(ss: seq<Student>, id: nat, ch: StudentChanges, departmentId: Option<nat>): (r: seq<Student>)
    ensures |r| == |ss|
  {
    seq(|ss|, i requires 0 <= i < |ss| => if ss[i].id == id then Coalesced(ss[i], ch, departmentId) else ss[i])
  }

  /** An update writes exactly the fields given as non-empty values, writes the
      department only when it resolves, keeps the id, and applying it twice is
      applying it once. */
  lemma CoalescedMeaning(s: Student, ch: StudentChanges, departmentId: Option<nat>)
    ensures var u := Coalesced(s, ch, departmentId);
      u.id == s.id &&
      (u.name == if ch.name == "" then s.name else ch.name) &&
      (u.surname == if ch.surname == "" then s.surname else ch.surname) &&
      (u.email == if ch.email == "" then s.email else ch.email) &&
      (u.photoPath == if ch.photoPath == "" then s.photoPath else Some(ch.photoPath)) &&
      (u.faceData == if ch.faceData == "" then s.faceData else Some(ch.faceData)) &&
      (u.departmentId == if departmentId.None? then s.departmentId else departmentId.value)
    ensures Coalesced(Coalesced(s, ch, departmentId), ch, departmentId) == Coalesced(s, ch, departmentId)
    ensures ch == StudentChanges("", "", "", "", "", "") && departmentId.None? ==> Coalesced(s, ch, departmentId) == s
  {
  }

  /** The update touches only the rows with the id, keeps every id in place, and
      an update that gives nothing changes nothing. */
  lemma UpdatedStudentsMeaning(ss: seq<Student>, id: nat, ch: StudentChanges, departmentId: Option<nat>)
    ensures var r := UpdatedStudents(ss, id, ch, departmentId);
      (forall i :: 0 <= i < |ss| ==> r[i].id == ss[i].id) &&
      (forall i :: 0 <= i < |ss| && ss[i].id != id ==> r[i] == ss[i]) &&
      (forall i :: 0 <= i < |ss| && ss[i].id == id ==> r[i] == Coalesced(ss[i], ch, departmentId))
    ensures (forall i :: 0 <= i < |ss| ==> ss[i].id != id) ==> UpdatedStudents(ss, id, ch, departmentId) == ss
    ensures ch == StudentChanges("", "", "", "", "", "") && departmentId.None? ==>
      UpdatedStudents(ss, id, ch, departmentId) == ss
  {
    forall i | 0 <= i < |ss| ensures Coalesced(ss[i], StudentChanges("", "", "", "", "", ""), None) == ss[i] {
      CoalescedMeaning(ss[i], StudentChanges("", "", "", "", "", ""), None);
    }
  }

  /** `PUT /students/:id`: 404 when no student has the id; 500 with the store's
      message when the new email clashes with another student's; otherwise the
      coalesced update. */
  method UpdateStudent(db: Db, id: nat, ch: StudentChanges) returns (r: Response<bool>)
    requires db.Valid()
    modifies db`students
    ensures db.Valid()
    ensures var updated := UpdatedStudents(old(db.students), id, ch, ResolvedDepartment(db.departments, ch.department));
      ((forall i :: 0 <= i < |old(db.students)| ==> old(db.students)[i].id != id) ==>
        r == Err(404, StudentNotFound) && db.students == old(db.students)) &&
      ((exists i :: 0 <= i < |old(db.students)| && old(db.students)[i].id == id) && !UniqueStudentEmails(updated) ==>
        r == Err(500, UniqueViolation(StudentEmailKey).message) && db.students == old(db.students)) &&
      ((exists i :: 0 <= i < |old(db.students)| && old(db.students)[i].id == id) && UniqueStudentEmails(updated) ==>
        r == Ok(200, true) && db.students == updated)
  {
    var departmentId := ResolvedDepartment(db.departments, ch.department);
    var updated := UpdatedStudents(db.students, id, ch, departmentId);
    if FindStudent(db.students, id).None? {
      return Err(404, StudentNotFound);
    }
    if !UniqueStudentEmails(updated) {
      return Err(500, UniqueViolation(StudentEmailKey).message);
    }
    UpdatedStudentsMeaning(db.students, id, ch, departmentId);
    db.students := updated;
    r := Ok(200, true);
  }

  // ---- DELETE /students/:id ----

  function OtherThan(id: nat): Student -> bool
  {
    (s: Student) => s.id != id
  }

  function HasId(id: nat): Student -> bool
  {
    (s: Student) => s.id == id
  }

  function StudentIdOf(s: Student): nat { s.id }
  function StudentEmailOf(s: Student): string { s.email }

  /** Removing rows keeps the student keys unique. */
  lemma FilterKeepsStudentKeys(ss: seq<Student>, p: Student -> bool)
    requires UniqueStudentIds(ss) && UniqueStudentEmails(ss)
    ensures UniqueStudentIds(Filter(ss, p)) && UniqueStudentEmails(Filter(ss, p))
  {
    assert DistinctBy(ss, StudentIdOf) && DistinctBy(ss, StudentEmailOf);
    FilterKeepsDistinct(ss, StudentIdOf, p);
    FilterKeepsDistinct(ss, StudentEmailOf, p);
    var r := Filter(ss, p);
    assert forall i, j :: 0 <= i < j < |r| ==> StudentIdOf(r[i]) != StudentIdOf(r[j]);
    assert forall i, j :: 0 <= i < j < |r| ==> StudentEmailOf(r[i]) != StudentEmailOf(r[j]);
  }

  lemma {:induction false} OneStudentHasId(ss: seq<Student>, s: Student)
    requires UniqueStudentIds(ss) && s in ss
    ensures Filter(ss, HasId(s.id)) == [s]
    decreases |ss|
  {
    UniqueStudentIdsTail(ss);
    if ss[0] == s {
      FilterNone(ss[1..], HasId(s.id));
    } else {
      var k :| 0 <= k < |ss| && ss[k] == s;
      assert ss[1..][k - 1] == s;
      assert ss[0].id != s.id;
      OneStudentHasId(ss[1..], s);
    }
  }

  /** The delete keeps exactly the students with other ids, in order; under
      unique ids it removes exactly one row when the id exists. */
  lemma DeleteMeaning(ss: seq<Student>, id: nat)
    requires UniqueStudentIds(ss)
    ensures forall s :: s in Filter(ss, OtherThan(id)) <==> s in ss && s.id != id
    ensures IsSubsequence(Filter(ss, OtherThan(id)), ss)
    ensures (exists i :: 0 <= i < |ss| && ss[i].id == id) ==> |Filter(ss, OtherThan(id))| == |ss| - 1
    ensures (forall i :: 0 <= i < |ss| ==> ss[i].id != id) ==> Filter(ss, OtherThan(id)) == ss
  {
    FilterIsSubsequence(ss, OtherThan(id));
    forall s | s in ss && s.id != id ensures s in Filter(ss, OtherThan(id)) {
      var k :| 0 <= k < |ss| && ss[k] == s;
      assert OtherThan(id)(ss[k]);
    }
    if exists i :: 0 <= i < |ss| && ss[i].id == id {
      var i :| 0 <= i < |ss| && ss[i].id == id;
      OneStudentHasId(ss, ss[i]);
      FilterComplementCount(ss, OtherThan(id), HasId(id));
    } else {
      FilterAll(ss, OtherThan(id));
    }
  }

  /** `DELETE /students/:id`. */
  method DeleteStudent(db: Db, id: nat) returns (r: Response<bool>)
    requires db.Valid()
    modifies db`students
    ensures db.Valid()
    ensures (forall i :: 0 <= i < |old(db.students)| ==> old(db.students)[i].id != id) ==>
      r == Err(404, StudentNotFound) && db.students == old(db.students)
    ensures (exists i :: 0 <= i < |old(db.students)| && old(db.students)[i].id == id) ==>
      r == Ok(200, true) && db.students == Filter(old(db.students), OtherThan(id))
  {
    if FindStudent(db.students, id).None? {
      return Err(404, StudentNotFound);
    }
    var kept := Filter(db.students, OtherThan(id));
    FilterKeepsStudentKeys(db.students, OtherThan(id));
    db.students := kept;
    r := Ok(200, true);
  }

  /** After the delete the student is no longer found. */
  lemma DeletedStudentNotFound(t: Tables, id: nat)
    ensures GetStudent(t.(students := Filter(t.students, OtherThan(id))), id) == Err(404, StudentNotFound)
  {
    var kept := Filter(t.students, OtherThan(id));
    assert forall i :: 0 <= i < |kept| ==> OtherThan(id)(kept[i]);
  }
}
