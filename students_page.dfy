/** The students page: the search and department filter over the student list,
    and the search and course filter over the student-course list. */
module StudentsPage {
  import opened Text
  import opened Sequences

  datatype StudentItem = StudentItem(id: string, name: string, surname: string, email: string,
                                     department: string)

  datatype CourseItem = CourseItem(studentId: string, name: string, surname: string,
                                   courseId: string, courseName: string)

  const SampleStudents: seq<StudentItem> := [
    StudentItem("01", "Liam", "Carter", "l.carter@university.edu", "Software Eng."),
    StudentItem("02", "Emily", "Dawson", "e.dawson@university.edu", "Sociology"),
    StudentItem("03", "Noah", "Mitchell", "n.mitchell@university.edu", "Computer Eng."),
    StudentItem("04", "Ava", "Reynolds", "a.reynolds@university.edu", "Business Administration"),
    StudentItem("05", "Ethan", "Cooper", "ethan_c@university.edu", "Electrical Eng."),
    StudentItem("06", "Sophia", "Bennett", "s.bennett@university.edu", "Architecture"),
    StudentItem("07", "Mason", "Turner", "m.turner@university.edu", "Industrial Eng."),
    StudentItem("08", "Isabella", "Hayes", "i.hayes@university.edu", "Law"),
    StudentItem("09", "Logan", "Brooks", "l.brooks@university.edu", "Medicine"),
    StudentItem("10", "Olivia", "Parker", "o.parker@university.edu", "Software Eng."),
    StudentItem("11", "Jacob", "Harrison", "j.harrison@university.edu", "Computer Eng."),
    StudentItem("12", "Chloe", "Martinez", "c.martinez@university.edu", "Business Administration"),
    StudentItem("13", "Caleb", "Anderson", "c.anderson@university.edu", "Electrical Eng."),
    StudentItem("14", "Grace", "Sullivan", "g.sullivan@university.edu", "Architecture"),
    StudentItem("15", "Henry", "Chapman", "h.chapman@university.edu", "Industrial Eng.")
  ]

  const SampleStudentsCourses: seq<CourseItem> := [
    CourseItem("01", "Liam", "Carter", "CSE-410", "Software Architecture"),
    CourseItem("02", "Emily", "Dawson", "SOC-101", "Introduction to Sociology"),
    CourseItem("03", "Noah", "Mitchell", "CSE-320", "Database Management System"),
    CourseItem("04", "Ava", "Reynolds", "BUS-101", "Principles of Management"),
    CourseItem("05", "Ethan", "Cooper", "CSE-320", "Database Management System"),
    CourseItem("06", "Sophia", "Bennett", "EEE-210", "Circuit Analysis"),
    CourseItem("07", "Mason", "Turner", "SOC-101", "Introduction to Sociology"),
    CourseItem("08", "Isabella", "Hayes", "ARC-130", "Design Studio"),
    CourseItem("09", "Logan", "Brooks", "CSE-410", "Software Architecture"),
    CourseItem("10", "Olivia", "Parker", "BUS-101", "Principles of Management"),
    CourseItem("11", "Jacob", "Harrison", "IE-330", "Operations Research"),
    CourseItem("12", "Chloe", "Martinez", "IE-330", "Operations Research"),
    CourseItem("13", "Caleb", "Anderson", "LAW-210", "Constitutional Law"),
    CourseItem("14", "Grace", "Sullivan", "MED-120", "Human Anatomy"),
    CourseItem("15", "Henry", "Chapman", "MED-120", "Human Anatomy")
  ]

  /** The search rule both lists share: name or surname ignoring case, the
      student id as typed. */
  predicate MatchesSearch(query: string, name: string, surname: string, id: string)
  {
    query == "" || ILike(name, query) || ILike(surname, query) || Contains(id, query)
  }

  predicate KeepStudent(search: string, department: string, s: StudentItem)
  {
    MatchesSearch(search, s.name, s.surname, s.id) && (department == "" || s.department == department)
  }

  function KeepStudentFn(search: string, department: string): StudentItem -> bool
  {
    s => KeepStudent(search, department, s)
  }

  /** `filteredStudents`. */
  function FilteredStudents(students: seq<StudentItem>, search: string, department: string): (r: seq<StudentItem>)
    ensures forall x :: x in r <==> x in students && KeepStudent(search, department, x)
    ensures IsSubsequence(r, students)
    ensures forall x :: multiset(r)[x] == if KeepStudent(search, department, x) then multiset(students)[x] else 0
  {
    FilterIsSubsequence(students, KeepStudentFn(search, department));
    FilterMultiplicity(students, KeepStudentFn(search, department));
    Filter(students, KeepStudentFn(search, department))
  }

  /** The course selector accepts either the course id or the course name. */
  predicate KeepCourseItem(search: string, course: string, c: CourseItem)
  {
    MatchesSearch(search, c.name, c.surname, c.studentId) &&
    (course == "" || c.courseId == course || c.courseName == course)
  }

  function KeepCourseItemFn(search: string, course: string): CourseItem -> bool
  {
    c => KeepCourseItem(search, course, c)
  }

  /** `filteredStudentsCourses`. */
  function FilteredStudentsCourses(items: seq<CourseItem>, search: string, course: string): (r: seq<CourseItem>)
    ensures forall x :: x in r <==> x in items && KeepCourseItem(search, course, x)
    ensures IsSubsequence(r, items)
    ensures forall x :: multiset(r)[x] == if KeepCourseItem(search, course, x) then multiset(items)[x] else 0
  {
    FilterIsSubsequence(items, KeepCourseItemFn(search, course));
    FilterMultiplicity(items, KeepCourseItemFn(search, course));
    Filter(items, KeepCourseItemFn(search, course))
  }

  /** Empty inputs show both lists whole. */
  lemma NoFiltersShowAll(students: seq<StudentItem>, items: seq<CourseItem>)
    ensures FilteredStudents(students, "", "") == students
    ensures FilteredStudentsCourses(items, "", "") == items
  {
    FilterAll(students, KeepStudentFn("", ""));
    FilterAll(items, KeepCourseItemFn("", ""));
  }

  /** Adding a department to a search only hides students, keeping the order. */
  lemma DepartmentNarrows(students: seq<StudentItem>, search: string, department: string)
    ensures IsSubsequence(FilteredStudents(students, search, department), FilteredStudents(students, search, ""))
  {
    FilterNarrows(students, KeepStudentFn(search, ""), KeepStudentFn(search, department));
  }

  /** Adding a search to a department selection only hides students. */
  lemma SearchNarrows(students: seq<StudentItem>, search: string, department: string)
    ensures IsSubsequence(FilteredStudents(students, search, department), FilteredStudents(students, "", department))
  {
    FilterNarrows(students, KeepStudentFn("", department), KeepStudentFn(search, department));
  }

  /** Where the course id and the course name pick out the same items, selecting
      either one shows the same list. */
  lemma CourseIdOrName(items: seq<CourseItem>, search: string, id: string, name: string)
    requires id != "" && name != ""
    requires forall c :: c in items ==> (c.courseId == id <==> c.courseName == name)
    requires forall c :: c in items ==> c.courseId != name && c.courseName != id
    ensures FilteredStudentsCourses(items, search, id) == FilteredStudentsCourses(items, search, name)
  {
    FilterCongruent(items, KeepCourseItemFn(search, id), KeepCourseItemFn(search, name));
  }

  /** The case rules in general: for a non-empty query an id matches exactly
      when it contains the query as typed, while a name matches exactly when
      its lower case contains the query's, and so matches just as its lower
      case does. */
  lemma SearchCaseRules(query: string, name: string, id: string)
    ensures query != "" ==> (MatchesSearch(query, "", "", id) <==> Contains(id, query))
    ensures query != "" ==> (MatchesSearch(query, name, "", "") <==> Contains(Lower(name), Lower(query)))
    ensures MatchesSearch(query, name, "", "") <==> MatchesSearch(query, Lower(name), "", "")
  {
    if query != "" {
      assert Lower("") == "";
      ShorterLacks("", Lower(query));
      ShorterLacks("", query);
    }
    LowerIdempotent(name);
  }

  /** The search ignores case in names but not in ids: an upper-case query
      finds a lower-case name and misses the same text as an id. */
  lemma IdSearchIsCaseSensitive()
    ensures MatchesSearch("A", "a", "", "")
    ensures !MatchesSearch("A", "", "", "a")
  {
    assert Lower("A") == "a";
    assert Lower("a") == "a";
  }
}
