/** The courses page: the search over the sample course list and the
    instructor card the search box shows. */
module CoursesPage {
  import opened Text
  import opened Sequences
  import opened Schema

  datatype CourseItem = CourseItem(instructorId: string, courseId: string, name: string)

  /** The instructor card beside the search box. */
  datatype SelectedInstructor = SelectedInstructor(id: string, name: string, surname: string)

  /** The page's state: the query and the card, if one is shown. */
  datatype PageState = PageState(searchQuery: string, selectedInstructor: Option<SelectedInstructor>)

  const InitialState: PageState := PageState("", None)

  /** The fixed card the page shows for any non-empty query. */
  const SampleSelection: SelectedInstructor := SelectedInstructor("22", "Anthony", "Wright")

  const SampleCourses: seq<CourseItem> := [
    CourseItem("22", "ARC-130", "Design Studio"),
    CourseItem("16", "CSE-410", "Software Architecture"),
    CourseItem("29", "ARC-130", "Design Studio"),
    CourseItem("25", "IE-330", "Operations Research"),
    CourseItem("20", "CSE-320", "Database Management System"),
    CourseItem("19", "MED-120", "Human Anatomy"),
    CourseItem("21", "BUS-101", "Principles of Management"),
    CourseItem("17", "LAW-210", "Constitutional Law"),
    CourseItem("24", "ARC-130", "Design Studio"),
    CourseItem("16", "CSE-410", "Software Architecture"),
    CourseItem("23", "SOC-101", "Introduction to Sociology"),
    CourseItem("28", "CSE-401", "Software Validation and Analysis"),
    CourseItem("27", "EEE-210", "Circuit Analysis"),
    CourseItem("20", "CSE-320", "Database Management System")
  ]

  /** Course id and name ignoring case, the instructor id as typed. */
  predicate MatchesSearch(query: string, c: CourseItem)
  {
    query == "" || ILike(c.courseId, query) || ILike(c.name, query) || Contains(c.instructorId, query)
  }

  function MatchesSearchFn(query: string): CourseItem -> bool
  {
    c => MatchesSearch(query, c)
  }

  /** `filteredCourses`; the instructor card plays no part in it. */
  function FilteredCourses(courses: seq<CourseItem>, query: string): (r: seq<CourseItem>)
    ensures forall x :: x in r <==> x in courses && MatchesSearch(query, x)
    ensures IsSubsequence(r, courses)
    ensures forall x :: multiset(r)[x] == if MatchesSearch(query, x) then multiset(courses)[x] else 0
  {
    FilterIsSubsequence(courses, MatchesSearchFn(query));
    FilterMultiplicity(courses, MatchesSearchFn(query));
    Filter(courses, MatchesSearchFn(query))
  }

  lemma EmptyQueryShowsAll(courses: seq<CourseItem>)
    ensures FilteredCourses(courses, "") == courses
  {
    FilterAll(courses, MatchesSearchFn(""));
  }

  /** Typing changes the query, and the card is shown exactly when the new
      query is non-empty; it is always the same sample card. */
  function HandleSearch(state: PageState, value: string): (r: PageState)
    ensures r.searchQuery == value
    ensures r.selectedInstructor.Some? <==> |value| > 0
    ensures r.selectedInstructor.Some? ==> r.selectedInstructor.value == SampleSelection
  {
    if |value| > 0 then PageState(value, Some(SampleSelection)) else PageState(value, None)
  }

  /** The new state depends only on the typed value, so typing the same value
      twice changes nothing, and clearing the box returns to the initial state. */
  lemma HandleSearchForgetsState(s: PageState, t: PageState, value: string)
    ensures HandleSearch(s, value) == HandleSearch(t, value)
    ensures HandleSearch(HandleSearch(s, value), value) == HandleSearch(s, value)
    ensures HandleSearch(s, "") == InitialState
  {
  }

  /** The card does not follow the query: from any state, every non-empty
      query shows the same card, so that a search for "CSE-410", whose sample
      rows are taught by instructor 16, shows instructor 22. */
  lemma CardIgnoresQuery(state: PageState, value: string)
    ensures value != "" ==> HandleSearch(state, value).selectedInstructor == Some(SampleSelection)
    ensures SampleCourses[1].courseId == "CSE-410" && SampleCourses[1].instructorId == "16"
    ensures HandleSearch(state, "CSE-410").selectedInstructor == Some(SampleSelection)
    ensures SampleSelection.id != SampleCourses[1].instructorId
  {
  }

  /** Typing more characters only hides courses: the query extended at its end
      shows an order-preserving subsequence of what it showed before. */
  lemma LongerQueryNarrows(courses: seq<CourseItem>, query: string, more: string)
    ensures IsSubsequence(FilteredCourses(courses, query + more), FilteredCourses(courses, query))
  {
    forall c | c in courses && MatchesSearch(query + more, c) ensures MatchesSearch(query, c) {
      if query != "" {
        LowerAppend(query, more);
        if ILike(c.courseId, query + more) {
          ContainsPrefix(Lower(c.courseId), Lower(query), Lower(more));
        } else if ILike(c.name, query + more) {
          ContainsPrefix(Lower(c.name), Lower(query), Lower(more));
        } else {
          ContainsPrefix(c.instructorId, query, more);
        }
      }
    }
    FilterNarrows(courses, MatchesSearchFn(query), MatchesSearchFn(query + more));
  }
}
