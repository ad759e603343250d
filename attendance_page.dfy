/** The attendance page: its four client-side filters over the sample
    attendance records it displays. */
module AttendancePage {
  import opened Text
  import opened Sequences

  /** One displayed record; the date is the text shown, compared as text. */
  datatype AttendanceRecord = AttendanceRecord(studentName: string, studentSurname: string,
                                               course: string, date: string, status: string)

  /** The four inputs of the page; an empty text puts no constraint. */
  datatype Filters = Filters(nameSurname: string, course: string, date: string, search: string)

  const NoFilters: Filters := Filters("", "", "", "")

  const SampleAttendance: seq<AttendanceRecord> := [
    AttendanceRecord("Emily", "Dawson", "Introduction to Sociology", "16.11.2025", "Present"),
    AttendanceRecord("Ethan", "Cooper", "Database Management System", "15.10.2025", "Absent"),
    AttendanceRecord("Liam", "Carter", "Software Architecture", "14.11.2025", "Present"),
    AttendanceRecord("Noah", "Mitchell", "Database Management System", "15.10.2025", "Present"),
    AttendanceRecord("Ava", "Reynolds", "Principles of Management", "13.11.2025", "Absent"),
    AttendanceRecord("Sophia", "Bennett", "Circuit Analysis", "12.11.2025", "Present"),
    AttendanceRecord("Mason", "Turner", "Introduction to Sociology", "16.11.2025", "Present"),
    AttendanceRecord("Isabella", "Hayes", "Design Studio", "11.11.2025", "Absent"),
    AttendanceRecord("Logan", "Brooks", "Software Architecture", "14.11.2025", "Present"),
    AttendanceRecord("Olivia", "Parker", "Principles of Management", "13.11.2025", "Present")
  ]

  /** The name box: name or surname contains the input, ignoring case. */
  predicate MatchesName(f: Filters, r: AttendanceRecord)
  {
    f.nameSurname == "" || ILike(r.studentName, f.nameSurname) || ILike(r.studentSurname, f.nameSurname)
  }

  /** The course and date selectors compare exactly. */
  predicate MatchesCourse(f: Filters, r: AttendanceRecord)
  {
    f.course == "" || r.course == f.course
  }

  predicate MatchesDate(f: Filters, r: AttendanceRecord)
  {
    f.date == "" || r.date == f.date
  }

  /** The search box: name, surname or course contains the input, ignoring case. */
  predicate MatchesSearch(f: Filters, r: AttendanceRecord)
  {
    f.search == "" || ILike(r.studentName, f.search) || ILike(r.studentSurname, f.search) ||
    ILike(r.course, f.search)
  }

  predicate Keep(f: Filters, r: AttendanceRecord)
  {
    MatchesName(f, r) && MatchesCourse(f, r) && MatchesDate(f, r) && MatchesSearch(f, r)
  }

  function KeepFn(f: Filters): AttendanceRecord -> bool
  {
    r => Keep(f, r)
  }

  /** `filteredAttendance`: the records passing all four filters, in their
      original order. */
  function FilteredAttendance(records: seq<AttendanceRecord>, f: Filters): (r: seq<AttendanceRecord>)
    ensures forall x :: x in r <==> x in records && Keep(f, x)
    ensures IsSubsequence(r, records)
    ensures forall x :: multiset(r)[x] == if Keep(f, x) then multiset(records)[x] else 0
  {
    FilterIsSubsequence(records, KeepFn(f));
    FilterMultiplicity(records, KeepFn(f));
    Filter(records, KeepFn(f))
  }

  /** With every input empty the page shows all records. */
  lemma NoFiltersShowAll(records: seq<AttendanceRecord>)
    ensures FilteredAttendance(records, NoFilters) == records
  {
    FilterAll(records, KeepFn(NoFilters));
  }

  /** `g` is `f` with some inputs cleared. */
  predicate Looser(g: Filters, f: Filters)
  {
    (g.nameSurname == "" || g.nameSurname == f.nameSurname) && (g.course == "" || g.course == f.course) &&
    (g.date == "" || g.date == f.date) && (g.search == "" || g.search == f.search)
  }

  /** Typing into one more box only hides rows: the result for `f` is an
      order-preserving subsequence of the result for any looser `g`. */
  lemma MoreFiltersShowFewer(records: seq<AttendanceRecord>, f: Filters, g: Filters)
    requires Looser(g, f)
    ensures IsSubsequence(FilteredAttendance(records, f), FilteredAttendance(records, g))
  {
    FilterNarrows(records, KeepFn(g), KeepFn(f));
  }

  /** The name box, unfolded: a lower-cased substring of the name or surname,
      whichever case the input is typed in. */
  lemma NameFilterMeaning(r: AttendanceRecord, name: string)
    requires name != ""
    ensures Keep(Filters(name, "", "", ""), r) <==>
      Contains(Lower(r.studentName), Lower(name)) || Contains(Lower(r.studentSurname), Lower(name))
    ensures Keep(Filters(name, "", "", ""), r) <==> Keep(Filters(Lower(name), "", "", ""), r)
  {
    LowerIdempotent(name);
  }

  /** Selecting a course on the sample shows its two records. */
  lemma SampleCourseSelection()
    ensures FilteredAttendance(SampleAttendance, Filters("", "Database Management System", "", "")) ==
      [SampleAttendance[1], SampleAttendance[3]]
  {
    var f := Filters("", "Database Management System", "", "");
    var s := SampleAttendance;
    forall i | 0 <= i < |s| ensures Keep(f, s[i]) <==> i == 1 || i == 3 {
      assert |s[i].course| == 26 <==> i == 1 || i == 3;
    }
    SampleFilterSteps(s, KeepFn(f));
  }

  /** Unrolls the filter over a ten-record list whose second and fourth records
      are the only ones kept. */
  lemma SampleFilterSteps(s: seq<AttendanceRecord>, p: AttendanceRecord -> bool)
    requires |s| == 10
    requires forall i :: 0 <= i < |s| ==> (p(s[i]) <==> i == 1 || i == 3)
    ensures Filter(s, p) == [s[1], s[3]]
  {
    assert forall x :: x in s[4..] ==> !p(x);
    FilterNone(s[4..], p);
    assert Filter(s[3..], p) == [s[3]] by { assert s[3..][1..] == s[4..]; }
    assert Filter(s[2..], p) == [s[3]] by { assert s[2..][1..] == s[3..]; }
    assert Filter(s[1..], p) == [s[1], s[3]] by { assert s[1..][1..] == s[2..]; }
  }
}
