/** The relational store's tables as records, the keys the store enforces, the
    lookups every handler uses, and the shapes of HTTP replies and store errors. */
module Schema {
  import opened Text

  datatype Option<T> = None | Some(value: T)

  /** A calendar date (the store's DATE column), as a day number. */
  type Date = int

  datatype Department = Department(id: nat, name: string)

  datatype Instructor = Instructor(id: nat, name: string, surname: string, email: string, departmentId: nat)

  datatype Course = Course(id: string, name: string, instructorId: nat)

  datatype Student = Student(
    id: nat, name: string, surname: string, email: string,
    photoPath: Option<string>, faceData: Option<string>, departmentId: nat)

  /** A row of the `student_course` junction table. */
  datatype Enrollment = Enrollment(studentId: nat, courseId: string)

  /** The attendance status enumeration. */
  datatype Status = Present | Absent

  datatype AttendanceRecord = AttendanceRecord(id: nat, studentId: nat, courseId: string, date: Date, status: Status)

  datatype Employee = Employee(
    id: nat, username: string, password: string, email: string,
    firstName: Option<string>, lastName: Option<string>)

  /** The contents of all seven tables, each in storage order. */
  datatype Tables = Tables(
    departments: seq<Department>,
    instructors: seq<Instructor>,
    courses: seq<Course>,
    students: seq<Student>,
    enrollments: seq<Enrollment>,
    attendance: seq<AttendanceRecord>,
    employees: seq<Employee>)

  /** `status::text`. */
  function StatusText(s: Status): string
  {
    match s
    case Present => "present"
    case Absent => "absent"
  }

  /** JavaScript truthiness of a numeric request field: absent, null and 0 are falsy. */
  predicate GivenNumber(x: Option<nat>)
  {
    x.Some? && x.value != 0
  }

  /** `x || null` for a text field of a request body. */
  function OrNull(x: string): (r: Option<string>)
    ensures r.None? <==> x == ""
    ensures r.Some? ==> r.value == x
  {
    if x == "" then None else Some(x)
  }

  // Keys and unique constraints the store enforces.

  predicate UniqueDepartments(ds: seq<Department>)
  {
    forall i, j :: 0 <= i < j < |ds| ==> ds[i].id != ds[j].id && ds[i].name != ds[j].name
  }

  predicate UniqueInstructors(xs: seq<Instructor>)
  {
    forall i, j :: 0 <= i < j < |xs| ==> xs[i].id != xs[j].id && xs[i].email != xs[j].email
  }

  predicate UniqueCourses(cs: seq<Course>)
  {
    forall i, j :: 0 <= i < j < |cs| ==> cs[i].id != cs[j].id
  }

  predicate UniqueStudentIds(ss: seq<Student>)
  {
    forall i, j :: 0 <= i < j < |ss| ==> ss[i].id != ss[j].id
  }

  predicate UniqueStudentEmails(ss: seq<Student>)
  {
    forall i, j :: 0 <= i < j < |ss| ==> ss[i].email != ss[j].email
  }

  predicate UniqueEnrollments(es: seq<Enrollment>)
  {
    forall i, j :: 0 <= i < j < |es| ==> es[i] != es[j]
  }

  predicate UniqueAttendance(rs: seq<AttendanceRecord>)
  {
    forall i, j :: 0 <= i < j < |rs| ==> rs[i].id != rs[j].id
  }

  predicate UniqueEmployees(es: seq<Employee>)
  {
    forall i, j :: 0 <= i < j < |es| ==>
      es[i].id != es[j].id && es[i].username != es[j].username && es[i].email != es[j].email
  }

  predicate WellFormed(t: Tables)
  {
    UniqueDepartments(t.departments) && UniqueInstructors(t.instructors) &&
    UniqueCourses(t.courses) && UniqueStudentIds(t.students) && UniqueStudentEmails(t.students) &&
    UniqueEnrollments(t.enrollments) && UniqueAttendance(t.attendance) && UniqueEmployees(t.employees)
  }

  // Lookups by key: the first row in storage order that has the key.

  /** The first element of `xs` that satisfies `p`, if any. */
  function Find<T>(xs: seq<T>, p: T -> bool): (r: Option<T>)
    ensures r.Some? ==> r.value in xs && p(r.value)
    ensures r.None? <==> forall i :: 0 <= i < |xs| ==> !p(xs[i])
  {
    if xs == [] then None
    else if p(xs[0]) then Some(xs[0])
    else Find(xs[1..], p)
  }

  function StudentWithId(id: nat): Student -> bool
  {
    (s: Student) => s.id == id
  }

  function CourseWithId(id: string): Course -> bool
  {
    (c: Course) => c.id == id
  }

  function FindStudent(ss: seq<Student>, id: nat): (r: Option<Student>)
    ensures r.Some? ==> r.value in ss && r.value.id == id
    ensures r.None? <==> forall i :: 0 <= i < |ss| ==> ss[i].id != id
  {
    Find(ss, StudentWithId(id))
  }

  function FindCourse(cs: seq<Course>, id: string): (r: Option<Course>)
    ensures r.Some? ==> r.value in cs && r.value.id == id
    ensures r.None? <==> forall i :: 0 <= i < |cs| ==> cs[i].id != id
  {
    Find(cs, CourseWithId(id))
  }

  function FindInstructor(xs: seq<Instructor>, id: nat): (r: Option<Instructor>)
    ensures r.Some? ==> r.value in xs && r.value.id == id
    ensures r.None? <==> forall i :: 0 <= i < |xs| ==> xs[i].id != id
  {
    Find(xs, (x: Instructor) => x.id == id)
  }

  function FindDepartment(ds: seq<Department>, id: nat): (r: Option<Department>)
    ensures r.Some? ==> r.value in ds && r.value.id == id
    ensures r.None? <==> forall i :: 0 <= i < |ds| ==> ds[i].id != id
  {
    Find(ds, (d: Department) => d.id == id)
  }

  /** `LEFT JOIN department d ON x.department_id = d.department_id`, the joined name. */
  function DepartmentNameOf(ds: seq<Department>, id: nat): (r: Option<string>)
    ensures r.Some? <==> exists d :: d in ds && d.id == id
    ensures r.Some? ==> exists d :: d in ds && d.id == id && d.name == r.value
  {
    match FindDepartment(ds, id)
    case Some(d) => Some(d.name)
    case None => None
  }

  /** `SELECT department_id FROM department WHERE department_name = $1`, first row. */
  function FindDepartmentByName(ds: seq<Department>, name: string): (r: Option<Department>)
    ensures r.Some? ==> r.value in ds && r.value.name == name
    ensures r.None? <==> forall i :: 0 <= i < |ds| ==> ds[i].name != name
  {
    Find(ds, (d: Department) => d.name == name)
  }

  /** Under a unique key the lookup finds exactly the element that has it. */
  lemma {:induction false} FindUnique<T>(xs: seq<T>, p: T -> bool, x: T)
    requires x in xs && p(x)
    requires forall i, j :: 0 <= i < j < |xs| && p(xs[i]) ==> !p(xs[j])
    ensures Find(xs, p) == Some(x)
  {
    if xs[0] != x {
      var k :| 0 <= k < |xs| && xs[k] == x;
      assert xs[1..][k - 1] == x;
      FindUnique(xs[1..], p, x);
    }
  }

  /** Under a unique key the lookup finds exactly the row that has the key. */
  lemma FindStudentUnique(ss: seq<Student>, s: Student)
    requires UniqueStudentIds(ss) && s in ss
    ensures FindStudent(ss, s.id) == Some(s)
  {
    FindUnique(ss, StudentWithId(s.id), s);
  }

  /** The tail of a table with unique ids has unique ids, none of them the head's. */
  lemma UniqueStudentIdsTail(ss: seq<Student>)
    requires ss != [] && UniqueStudentIds(ss)
    ensures UniqueStudentIds(ss[1..])
    ensures forall i :: 0 <= i < |ss[1..]| ==> ss[1..][i].id != ss[0].id
  {
    forall i, j | 0 <= i < j < |ss[1..]| ensures ss[1..][i].id != ss[1..][j].id {
      assert ss[1..][i] == ss[i + 1] && ss[1..][j] == ss[j + 1];
    }
    forall i | 0 <= i < |ss[1..]| ensures ss[1..][i].id != ss[0].id {
      assert ss[1..][i] == ss[i + 1];
    }
  }

  lemma FindCourseUnique(cs: seq<Course>, c: Course)
    requires UniqueCourses(cs) && c in cs
    ensures FindCourse(cs, c.id) == Some(c)
  {
    FindUnique(cs, CourseWithId(c.id), c);
  }

  // Replies: an HTTP status with either the success body's payload or `{ error }`.

  datatype Response<T> = Ok(status: int, value: T) | Err(status: int, error: string)

  /** An error raised by the store: its SQLSTATE code, the violated constraint
      (empty when none) and the message text the driver reports. */
  datatype StoreError = StoreError(code: string, constraint: string, message: string)

  const UniqueViolationCode: string := "23505"
  const InvalidTextCode: string := "22P02"

  // Constraint names the store reports; the schema's own names are not part of
  // this model, so these follow the store's default naming `<table>_<column>_key`.
  const StudentEmailKey: string := "student_student_email_key"
  const InstructorEmailKey: string := "instructor_instructor_email_key"
  const EmployeeUsernameKey: string := "employee_username_key"
  const EmployeeEmailKey: string := "employee_email_key"
  const CoursePrimaryKey: string := "course_pkey"
  const StudentPrimaryKey: string := "student_pkey"
  const InstructorPrimaryKey: string := "instructor_pkey"

  const DuplicateKeyPrefix: string := "duplicate key value violates unique constraint \""

  function UniqueViolation(constraint: string): StoreError
  {
    StoreError(UniqueViolationCode, constraint, DuplicateKeyPrefix + constraint + "\"")
  }

  /** The rejection of a value outside the status enumeration. */
  function InvalidStatus(value: string): StoreError
  {
    StoreError(InvalidTextCode, "", "invalid input value for enum attendance_status: \"" + value + "\"")
  }

  /** The message test the handlers use to recognise a unique-constraint violation. */
  predicate IsDuplicateKeyMessage(msg: string)
  {
    Contains(msg, "duplicate key") || Contains(msg, "unique constraint")
  }

  /** Every unique violation is recognised by that test, and its message
      mentions "email" whenever its constraint name does. */
  lemma UniqueViolationRecognised(constraint: string)
    ensures IsDuplicateKeyMessage(UniqueViolation(constraint).message)
    ensures Contains(constraint, "email") ==> Contains(UniqueViolation(constraint).message, "email")
  {
    var msg := UniqueViolation(constraint).message;
    assert "duplicate key" <= msg;
    if Contains(constraint, "email") {
      ContainsInfix(DuplicateKeyPrefix, constraint, "\"", "email");
    }
  }

  lemma PrefixLacksM()
    ensures 'm' !in DuplicateKeyPrefix
  {
    assert DuplicateKeyPrefix == "duplicate " + "key value " + "violates " + "unique " + "constraint \"";
    assert 'm' !in "duplicate " && 'm' !in "key value " && 'm' !in "violates ";
    assert 'm' !in "unique " && 'm' !in "constraint \"";
  }

  /** A violation of a constraint whose name has no 'm' never mentions "email". */
  lemma ViolationLacksEmail(constraint: string)
    requires 'm' !in constraint
    ensures !Contains(UniqueViolation(constraint).message, "email")
  {
    PrefixLacksM();
    assert 'm' !in "\"";
    ContainsChar(UniqueViolation(constraint).message, "email", 1);
  }

  /** A primary-key violation's message never mentions "email". */
  lemma PrimaryKeysLackEmail()
    ensures !Contains(UniqueViolation(StudentPrimaryKey).message, "email")
    ensures !Contains(UniqueViolation(InstructorPrimaryKey).message, "email")
  {
    assert 'm' !in StudentPrimaryKey && 'm' !in InstructorPrimaryKey;
    ViolationLacksEmail(StudentPrimaryKey);
    ViolationLacksEmail(InstructorPrimaryKey);
  }

  lemma EmailKeysMentionEmail()
    ensures Contains(StudentEmailKey, "email")
    ensures Contains(InstructorEmailKey, "email")
    ensures Contains(EmployeeEmailKey, "email")
  {
    ContainsInfix("student_student_", "email", "_key", "email");
    assert StudentEmailKey == "student_student_" + "email" + "_key";
    ContainsInfix("instructor_instructor_", "email", "_key", "email");
    assert InstructorEmailKey == "instructor_instructor_" + "email" + "_key";
    ContainsInfix("employee_", "email", "_key", "email");
    assert EmployeeEmailKey == "employee_" + "email" + "_key";
  }
}
