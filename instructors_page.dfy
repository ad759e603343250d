/** The instructors page: the search and department filter over the sample
    instructor list. */
module InstructorsPage {
  import opened Text
  import opened Sequences

  datatype InstructorItem = InstructorItem(id: string, name: string, surname: string, email: string,
                                           department: string)

  const SampleInstructors: seq<InstructorItem> := [
    InstructorItem("16", "Daniel", "Stevens", "d.stevens@university.edu", "Software Eng."),
    InstructorItem("17", "Laura", "Kim", "laura.kim@university.edu", "Law"),
    InstructorItem("18", "Michael", "Roberts", "m.roberts@university.edu", "Medicine"),
    InstructorItem("19", "Sarah", "Collins", "s.collins@university.edu", "Medicine"),
    InstructorItem("20", "William", "Scott", "w.scott@university.edu", "Computer Eng."),
    InstructorItem("21", "Rebecca", "Foster", "r.foster@university.edu", "Business Administration"),
    InstructorItem("22", "Anthony", "Wright", "anthony.w@university.edu", "Architecture"),
    InstructorItem("23", "Victoria", "Hughes", "v.hughes@university.edu", "Sociology"),
    InstructorItem("24", "Benjamin", "Reed", "b.reed@university.edu", "Architecture"),
    InstructorItem("25", "Katherine", "Morgan", "k.morgan@university.edu", "Industrial Eng."),
    InstructorItem("26", "Jonathan", "Price", "j.price@university.edu", "Electrical Eng."),
    InstructorItem("27", "Olivia", "Barnes", "o.barnes@university.edu", "Electrical Eng."),
    InstructorItem("28", "Hannah", "Peterson", "peterson_h@university.edu", "Software Eng."),
    InstructorItem("29", "Robert", "William", "will_rob@university.edu", "Architecture")
  ]

  /** The search box: name or surname ignoring case, or the id as typed. */
  predicate MatchesSearch(query: string, x: InstructorItem)
  {
    query == "" || ILike(x.name, query) || ILike(x.surname, query) || Contains(x.id, query)
  }

  predicate KeepInstructor(search: string, department: string, x: InstructorItem)
  {
    MatchesSearch(search, x) && (department == "" || x.department == department)
  }

  function KeepInstructorFn(search: string, department: string): InstructorItem -> bool
  {
    x => KeepInstructor(search, department, x)
  }

  /** `filteredInstructors`. */
  function FilteredInstructors(xs: seq<InstructorItem>, search: string, department: string): (r: seq<InstructorItem>)
    ensures forall x :: x in r <==> x in xs && KeepInstructor(search, department, x)
    ensures IsSubsequence(r, xs)
    ensures forall x :: multiset(r)[x] == if KeepInstructor(search, department, x) then multiset(xs)[x] else 0
  {
    FilterIsSubsequence(xs, KeepInstructorFn(search, department));
    FilterMultiplicity(xs, KeepInstructorFn(search, department));
    Filter(xs, KeepInstructorFn(search, department))
  }

  /** An empty query and no department show the whole list. */
  lemma NoFiltersShowAll(xs: seq<InstructorItem>)
    ensures FilteredInstructors(xs, "", "") == xs
  {
    FilterAll(xs, KeepInstructorFn("", ""));
  }

  /** The result under both filters is what the department filter keeps of the
      search result, so each filter only hides rows. */
  lemma FiltersCompose(xs: seq<InstructorItem>, search: string, department: string)
    ensures FilteredInstructors(xs, search, department) ==
      Filter(FilteredInstructors(xs, search, ""), KeepInstructorFn("", department))
    ensures IsSubsequence(FilteredInstructors(xs, search, department), FilteredInstructors(xs, search, ""))
    ensures IsSubsequence(FilteredInstructors(xs, search, department), FilteredInstructors(xs, "", department))
  {
    var kept := FilteredInstructors(xs, search, "");
    FilterCongruent(kept, KeepInstructorFn("", department), KeepInstructorFn(search, department));
    FilterFilter(xs, KeepInstructorFn(search, ""), KeepInstructorFn(search, department));
    FilterNarrows(xs, KeepInstructorFn(search, ""), KeepInstructorFn(search, department));
    FilterNarrows(xs, KeepInstructorFn("", department), KeepInstructorFn(search, department));
  }

  /** A name typed in any case finds the instructor, while a query that only
      matches the id must match it as typed. */
  lemma SearchMeaning(x: InstructorItem, query: string)
    requires query != ""
    ensures MatchesSearch(query, x) <==>
      Contains(Lower(x.name), Lower(query)) || Contains(Lower(x.surname), Lower(query)) || Contains(x.id, query)
    ensures MatchesSearch(query, x) ==> MatchesSearch(Lower(query), x) || Contains(x.id, query)
  {
    LowerIdempotent(query);
  }
}
