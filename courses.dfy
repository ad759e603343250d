/** The course routes: the listing with its search and instructor filter, the
    create with its ordered checks, and the delete. */
module CoursesApi {
  import opened Text
  import opened Sequences
  import opened Schema
  import opened Store

  const MissingCourseFields: string := "Missing required fields: course_id, course_name, and instructor_id are required"
  const CourseIdExists: string := "Course ID already exists"
  const InstructorNotFound: string := "Instructor not found"
  const CourseNotFound: string := "Course not found"
  const CourseAlreadyExists: string := "A course with this ID already exists"

  // ---- GET /courses ----

  /** One row of `course LEFT JOIN instructor`. */
  datatype CourseRow = CourseRow(id: string, name: string, instructorId: nat,
                                 instructorName: Option<string>, instructorSurname: Option<string>)

  /** A course with its instructor's name when that instructor exists, and
      with no name (the LEFT JOIN's nulls) when it does not. */
  function CourseView(t: Tables, c: Course): (r: CourseRow)
    ensures r.id == c.id && r.name == c.name && r.instructorId == c.instructorId
    ensures r.instructorName.Some? <==> exists x :: x in t.instructors && x.id == c.instructorId
    ensures r.instructorName.Some? ==>
      exists x :: x in t.instructors && x.id == c.instructorId &&
        r.instructorName == Some(x.name) && r.instructorSurname == Some(x.surname)
    ensures r.instructorName.None? ==> r.instructorSurname.None?
  {
    match FindInstructor(t.instructors, c.instructorId)
    case Some(i) => CourseRow(c.id, c.name, c.instructorId, Some(i.name), Some(i.surname))
    case None => CourseRow(c.id, c.name, c.instructorId, None, None)
  }

  /** The `search` filter: course id, course name or instructor id as text,
      case-insensitively; the `instructor_id` filter: equality. */
  predicate KeepCourse(search: string, instructorId: Option<nat>, c: Course)
  {
    (search == "" || ILike(c.id, search) || ILike(c.name, search) || ILike(NatToText(c.instructorId), search)) &&
    (instructorId.None? || c.instructorId == instructorId.value)
  }

  function KeepCourseFn(search: string, instructorId: Option<nat>): Course -> bool
  {
    c => KeepCourse(search, instructorId, c)
  }

  function CourseViews(t: Tables, cs: seq<Course>): (r: seq<CourseRow>)
    ensures |r| == |cs|
    ensures forall x :: x in r <==> exists c :: c in cs && x == CourseView(t, c)
  {
    var r := seq(|cs|, i requires 0 <= i < |cs| => CourseView(t, cs[i]));
    MapMembers(cs, c => CourseView(t, c), r);
    r
  }

  predicate CourseRowLe(a: CourseRow, b: CourseRow)
  {
    StrLe(a.id, b.id)
  }

  lemma CourseRowLeIsTotalPreorder()
    ensures TotalPreorder(CourseRowLe)
  {
    forall a: CourseRow, b: CourseRow ensures CourseRowLe(a, b) || CourseRowLe(b, a) {
      StrLeTotal(a.id, b.id);
    }
    forall a: CourseRow, b: CourseRow, c: CourseRow | CourseRowLe(a, b) && CourseRowLe(b, c)
      ensures CourseRowLe(a, c)
    {
      StrLeTransitive(a.id, b.id, c.id);
    }
  }

  /** `GET /courses`. A listed row is exactly the view of a stored course that
      passes both filters, one row per such course, and the rows are ordered
      by course id. */
  function ListCourses(t: Tables, search: string, instructorId: Option<nat>): (r: seq<CourseRow>)
    ensures forall x :: x in r <==>
      exists c :: c in t.courses && KeepCourse(search, instructorId, c) && x == CourseView(t, c)
    ensures forall i, j :: 0 <= i < j < |r| ==> StrLe(r[i].id, r[j].id)
    ensures |r| == |Filter(t.courses, KeepCourseFn(search, instructorId))|
  {
    var kept := Filter(t.courses, KeepCourseFn(search, instructorId));
    var views := CourseViews(t, kept);
    assert |multiset(SortBy(views, CourseRowLe))| == |multiset(views)|;
    FilterMembers(t.courses, KeepCourseFn(search, instructorId));
    SortByMembers(views, CourseRowLe);
    CourseRowLeIsTotalPreorder();
    SortBySorted(views, CourseRowLe);
    SortBy(views, CourseRowLe)
  }

  /** The search, unfolded; there is no Turkish folding here. */
  lemma CourseSearchMeaning(c: Course, search: string)
    requires search != ""
    ensures KeepCourse(search, None, c) <==>
      Contains(Lower(c.id), Lower(search)) || Contains(Lower(c.name), Lower(search)) ||
      Contains(NatToText(c.instructorId), Lower(search))
  {
    IdTextILike(c.instructorId, search);
  }

  // ---- POST /courses ----

  /** The request body; an empty text or an absent or zero id is missing. */
  datatype CourseForm = CourseForm(courseId: string, courseName: string, instructorId: Option<nat>)

  predicate HasRequiredFields(form: CourseForm)
  {
    form.courseId != "" && form.courseName != "" && GivenNumber(form.instructorId)
  }

  /** The reply to an insert the store rejected: its own message, unless that
      message reports a unique-constraint violation. */
  function CourseErrorMessage(msg: string): (r: string)
    ensures !IsDuplicateKeyMessage(msg) ==> r == msg
    ensures IsDuplicateKeyMessage(msg) ==> r == CourseAlreadyExists
  {
    if IsDuplicateKeyMessage(msg) then CourseAlreadyExists else msg
  }

  /** A primary-key clash raised by the store (a create racing another one with
      the same id) is reported as a duplicate id. */
  lemma PrimaryKeyClashMessage()
    ensures CourseErrorMessage(UniqueViolation(CoursePrimaryKey).message) == CourseAlreadyExists
  {
    UniqueViolationRecognised(CoursePrimaryKey);
  }

  /** `POST /courses`: the three checks run in order, and only a request that
      passes all of them inserts the course. */
  method CreateCourse(db: Db, form: CourseForm) returns (r: Response<string>)
    requires db.Valid()
    modifies db`courses
    ensures db.Valid()
    ensures !HasRequiredFields(form) ==>
      r == Err(400, MissingCourseFields) && db.courses == old(db.courses)
    ensures HasRequiredFields(form) && FindCourse(old(db.courses), form.courseId).Some? ==>
      r == Err(400, CourseIdExists) && db.courses == old(db.courses)
    ensures HasRequiredFields(form) && FindCourse(old(db.courses), form.courseId).None? &&
            FindInstructor(db.instructors, form.instructorId.value).None? ==>
      r == Err(400, InstructorNotFound) && db.courses == old(db.courses)
    ensures HasRequiredFields(form) && FindCourse(old(db.courses), form.courseId).None? &&
            FindInstructor(db.instructors, form.instructorId.value).Some? ==>
      r == Ok(201, form.courseId) &&
      db.courses == old(db.courses) + [Course(form.courseId, form.courseName, form.instructorId.value)]
  {
    if form.courseId == "" || form.courseName == "" || !GivenNumber(form.instructorId) {
      return Err(400, MissingCourseFields);
    }
    if FindCourse(db.courses, form.courseId).Some? {
      return Err(400, CourseIdExists);
    }
    if FindInstructor(db.instructors, form.instructorId.value).None? {
      return Err(400, InstructorNotFound);
    }
    var course := Course(form.courseId, form.courseName, form.instructorId.value);
    var cs := db.courses + [course];
    assert forall i, j :: 0 <= i < j < |cs| ==> cs[i].id != cs[j].id by {
      forall i, j | 0 <= i < j < |cs| ensures cs[i].id != cs[j].id {
        if j == |db.courses| {
          assert cs[i] == db.courses[i];
        }
      }
    }
    db.courses := cs;
    r := Ok(201, form.courseId);
  }

  /** After a successful create the new course is listed under its id. */
  lemma CreatedCourseListed(t: Tables, c: Course)
    requires forall x :: x in t.courses ==> x.id != c.id
    ensures FindCourse(t.courses + [c], c.id) == Some(c)
    ensures CourseView(t.(courses := t.courses + [c]), c) in ListCourses(t.(courses := t.courses + [c]), "", None)
  {
    var cs := t.courses + [c];
    assert cs[|t.courses|] == c;
    var found := FindCourse(cs, c.id);
    assert found.value in t.courses || found.value == c;
    assert KeepCourse("", None, c);
  }

  // ---- DELETE /courses/:id ----

  function CourseOtherThan(id: string): Course -> bool
  {
    (c: Course) => c.id != id
  }

  function CourseIdOf(c: Course): string { c.id }

  /** The delete keeps exactly the courses with other ids, in order, and keeps
      course ids unique. */
  lemma CourseDeleteMeaning(cs: seq<Course>, id: string)
    requires UniqueCourses(cs)
    ensures forall c :: c in Filter(cs, CourseOtherThan(id)) <==> c in cs && c.id != id
    ensures IsSubsequence(Filter(cs, CourseOtherThan(id)), cs)
    ensures UniqueCourses(Filter(cs, CourseOtherThan(id)))
    ensures FindCourse(Filter(cs, CourseOtherThan(id)), id).None?
  {
    var kept := Filter(cs, CourseOtherThan(id));
    FilterIsSubsequence(cs, CourseOtherThan(id));
    forall c ensures c in kept <==> c in cs && c.id != id {
      if c in kept {
        var i :| 0 <= i < |kept| && kept[i] == c;
        assert CourseOtherThan(id)(kept[i]);
      }
      if c in cs && c.id != id {
        var k :| 0 <= k < |cs| && cs[k] == c;
        assert CourseOtherThan(id)(cs[k]);
      }
    }
    FilterKeepsCourseIds(cs, CourseOtherThan(id));
    forall i | 0 <= i < |kept| ensures kept[i].id != id {
      assert CourseOtherThan(id)(kept[i]);
    }
  }

  /** Removing rows keeps course ids unique. */
  lemma FilterKeepsCourseIds(cs: seq<Course>, p: Course -> bool)
    requires UniqueCourses(cs)
    ensures UniqueCourses(Filter(cs, p))
  {
    assert DistinctBy(cs, CourseIdOf);
    FilterKeepsDistinct(cs, CourseIdOf, p);
    var kept := Filter(cs, p);
    forall i, j | 0 <= i < j < |kept| ensures kept[i].id != kept[j].id {
      assert CourseIdOf(kept[i]) != CourseIdOf(kept[j]);
    }
  }

  /** `DELETE /courses/:id`. */
  method DeleteCourse(db: Db, id: string) returns (r: Response<bool>)
    requires db.Valid()
    modifies db`courses
    ensures db.Valid()
    ensures FindCourse(old(db.courses), id).None? ==> r == Err(404, CourseNotFound) && db.courses == old(db.courses)
    ensures FindCourse(old(db.courses), id).Some? ==>
      r == Ok(200, true) && db.courses == Filter(old(db.courses), CourseOtherThan(id))
  {
    if FindCourse(db.courses, id).None? {
      return Err(404, CourseNotFound);
    }
    CourseDeleteMeaning(db.courses, id);
    db.courses := Filter(db.courses, CourseOtherThan(id));
    r := Ok(200, true);
  }
}
