/** The report routes: the per-course attendance summary (first and last
    attendance date) and the per-course attendance rate. */
module ReportsApi {
  import opened Text
  import opened Sequences
  import opened Schema

  /** The summary's query string; an empty text or an absent date means "no filter". */
  datatype ReportFilter = ReportFilter(course: string, department: string, startDate: Option<Date>, endDate: Option<Date>)

  /** One row of `attendance JOIN course JOIN student JOIN department`, reduced
      to the columns the reports use. */
  datatype Fact = Fact(course: string, department: string, date: Date, status: Status)

  /** The inner joins for one attendance record: a fact only when its course,
      its student and the student's department all exist. */
  function FactOf(t: Tables, a: AttendanceRecord): (r: Option<Fact>)
    ensures r.Some? <==>
      FindCourse(t.courses, a.courseId).Some? && FindStudent(t.students, a.studentId).Some? &&
      FindDepartment(t.departments, FindStudent(t.students, a.studentId).value.departmentId).Some?
    ensures r.Some? ==>
      r.value.date == a.date && r.value.status == a.status &&
      (exists c :: c in t.courses && c.id == a.courseId && c.name == r.value.course) &&
      (exists s, d :: s in t.students && s.id == a.studentId && d in t.departments &&
                      d.id == s.departmentId && d.name == r.value.department)
  {
    match (FindCourse(t.courses, a.courseId), FindStudent(t.students, a.studentId))
    case (Some(c), Some(s)) =>
      (match FindDepartment(t.departments, s.departmentId)
       case Some(d) => Some(Fact(c.name, d.name, a.date, a.status))
       case None => None)
    case _ => None
  }

  /** The joined rows: one per record whose three joins succeed, in storage order. */
  function Facts(t: Tables, records: seq<AttendanceRecord>): (r: seq<Fact>)
    ensures |r| <= |records|
    ensures forall f :: f in r <==> exists a :: a in records && FactOf(t, a) == Some(f)
    decreases |records|
  {
    if records == [] then []
    else
      assert forall a :: a in records <==> a == records[0] || a in records[1..];
      (match FactOf(t, records[0]) case Some(f) => [f] case None => []) + Facts(t, records[1..])
  }

  /** A record survives the joins with a fact that satisfies `q`. */
  function SurvivesWith(t: Tables, q: Fact -> bool): AttendanceRecord -> bool
  {
    a => FactOf(t, a).Some? && q(FactOf(t, a).value)
  }

  /** The join yields exactly one fact per surviving record: as many facts satisfy
      `q` as there are records whose joins succeed with a fact satisfying `q`. */
  lemma {:induction false} FactsCount(t: Tables, records: seq<AttendanceRecord>, q: Fact -> bool)
    ensures |Filter(Facts(t, records), q)| == |Filter(records, SurvivesWith(t, q))|
    decreases |records|
  {
    if records != [] {
      var head := match FactOf(t, records[0]) case Some(f) => [f] case None => [];
      assert Facts(t, records) == head + Facts(t, records[1..]);
      FilterAppend(head, Facts(t, records[1..]), q);
      FactsCount(t, records[1..], q);
    }
  }

  /** The WHERE clause: course name and department name by equality, the date
      range with both ends inclusive. */
  predicate Matches(flt: ReportFilter, f: Fact)
  {
    (flt.course == "" || f.course == flt.course) &&
    (flt.department == "" || f.department == flt.department) &&
    (flt.startDate.None? || flt.startDate.value <= f.date) &&
    (flt.endDate.None? || f.date <= flt.endDate.value)
  }

  function MatchesFn(flt: ReportFilter): Fact -> bool
  {
    f => Matches(flt, f)
  }

  /** The rows the summary and the rate are computed from: a fact counts exactly
      when it comes from a stored attendance record whose three joins succeed
      and it satisfies every given filter. */
  function Qualifying(t: Tables, flt: ReportFilter): (r: seq<Fact>)
    ensures forall f :: f in r <==> (exists a :: a in t.attendance && FactOf(t, a) == Some(f)) && Matches(flt, f)
  {
    FilterMembers(Facts(t, t.attendance), MatchesFn(flt));
    Filter(Facts(t, t.attendance), MatchesFn(flt))
  }

  // ---- GROUP BY c.course_name ORDER BY c.course_name ----

  function CourseNames(fs: seq<Fact>): (r: seq<string>)
    ensures |r| == |fs|
    ensures forall k :: k in r <==> exists f :: f in fs && k == CourseOf(f)
  {
    var r := seq(|fs|, i requires 0 <= i < |fs| => fs[i].course);
    MapMembers(fs, CourseOf, r);
    r
  }

  function CourseOf(f: Fact): string { f.course }

  /** The distinct values of `s`. */
  function Dedup(s: seq<string>): (r: seq<string>)
    ensures forall x :: x in r <==> x in s
    ensures forall i, j :: 0 <= i < j < |r| ==> r[i] != r[j]
  {
    if s == [] then []
    else if s[0] in s[1..] then Dedup(s[1..])
    else
      var rest := Dedup(s[1..]);
      assert forall j :: 0 <= j < |rest| ==> rest[j] != s[0];
      [s[0]] + rest
  }

  /** The group keys: exactly the course names of the facts, strictly ascending. */
  function GroupKeys(fs: seq<Fact>): (keys: seq<string>)
    ensures forall k :: k in keys <==> exists f :: f in fs && f.course == k
    ensures forall i, j :: 0 <= i < j < |keys| ==> StrLe(keys[i], keys[j]) && keys[i] != keys[j]
  {
    var names := Dedup(CourseNames(fs));
    var keys := SortBy(names, StrLe);
    SortDistinct(names, keys);
    keys
  }

  lemma StrLeIsTotalPreorder()
    ensures TotalPreorder(StrLe)
  {
    forall a, b ensures StrLe(a, b) || StrLe(b, a) {
      StrLeTotal(a, b);
    }
    forall a, b, c | StrLe(a, b) && StrLe(b, c) ensures StrLe(a, c) {
      StrLeTransitive(a, b, c);
    }
  }

  lemma {:induction false} DistinctCount(s: seq<string>, x: string)
    requires forall i, j :: 0 <= i < j < |s| ==> s[i] != s[j]
    ensures multiset(s)[x] <= 1
  {
    if s != [] {
      assert s == [s[0]] + s[1..];
      assert forall i, j :: 0 <= i < j < |s[1..]| ==> s[1..][i] != s[1..][j] by {
        forall i, j | 0 <= i < j < |s[1..]| ensures s[1..][i] != s[1..][j] {
          assert s[1..][i] == s[i + 1] && s[1..][j] == s[j + 1];
        }
      }
      DistinctCount(s[1..], x);
      if s[0] == x {
        assert x !in s[1..];
      }
    }
  }

  lemma RepeatCount(s: seq<string>, i: nat, j: nat)
    requires i < j < |s| && s[i] == s[j]
    ensures multiset(s)[s[i]] >= 2
  {
    assert s == s[..j] + s[j..];
    assert s[i] in s[..j];
    assert s[j] in s[j..];
  }

  /** Sorting a sequence without repeats gives the same strings, strictly ascending. */
  lemma SortDistinct(s: seq<string>, r: seq<string>)
    requires forall i, j :: 0 <= i < j < |s| ==> s[i] != s[j]
    requires r == SortBy(s, StrLe)
    ensures forall x :: x in r <==> x in s
    ensures forall i, j :: 0 <= i < j < |r| ==> StrLe(r[i], r[j]) && r[i] != r[j]
  {
    SortByMembers(s, StrLe);
    StrLeIsTotalPreorder();
    SortBySorted(s, StrLe);
    forall i, j | 0 <= i < j < |r| ensures r[i] != r[j] {
      if r[i] == r[j] {
        RepeatCount(r, i, j);
        DistinctCount(s, r[i]);
        assert false;
      }
    }
  }

  function OfCourse(k: string): Fact -> bool
  {
    (f: Fact) => f.course == k
  }

  /** The facts of one group: exactly the facts with its course name, in order. */
  function Group(fs: seq<Fact>, k: string): (r: seq<Fact>)
    ensures forall f :: f in r <==> f in fs && f.course == k
  {
    FilterMembers(fs, OfCourse(k));
    Filter(fs, OfCourse(k))
  }

  /** Every key has at least one fact. */
  lemma GroupNonEmpty(fs: seq<Fact>, k: string)
    requires k in GroupKeys(fs)
    ensures |Group(fs, k)| > 0
  {
    var f :| f in fs && f.course == k;
    assert f in Group(fs, k);
  }

  function Dates(fs: seq<Fact>): (r: seq<Date>)
    ensures |r| == |fs|
    ensures forall d :: d in r <==> exists f :: f in fs && f.date == d
  {
    var r := seq(|fs|, i requires 0 <= i < |fs| => fs[i].date);
    assert forall f :: f in fs ==> f.date in r by {
      forall f | f in fs ensures f.date in r {
        var i :| 0 <= i < |fs| && fs[i] == f;
        assert r[i] == f.date;
      }
    }
    r
  }

  /** `MIN`. */
  function MinOf(ds: seq<Date>): (r: Date)
    requires |ds| > 0
    ensures r in ds && forall i :: 0 <= i < |ds| ==> r <= ds[i]
  {
    if |ds| == 1 then ds[0]
    else
      var m := MinOf(ds[1..]);
      assert forall i :: 1 <= i < |ds| ==> ds[i] == ds[1..][i - 1];
      if ds[0] <= m then ds[0] else m
  }

  /** `MAX`. */
  function MaxOf(ds: seq<Date>): (r: Date)
    requires |ds| > 0
    ensures r in ds && forall i :: 0 <= i < |ds| ==> ds[i] <= r
  {
    if |ds| == 1 then ds[0]
    else
      var m := MaxOf(ds[1..]);
      assert forall i :: 1 <= i < |ds| ==> ds[i] == ds[1..][i - 1];
      if ds[0] >= m then ds[0] else m
  }

  // ---- GET /reports/attendance-summary ----

  /** One summary entry; the dates are left unformatted. */
  datatype SummaryEntry = SummaryEntry(course: string, startDate: Date, endDate: Date)

  function SummaryFor(fs: seq<Fact>, k: string): SummaryEntry
    requires k in GroupKeys(fs)
  {
    GroupNonEmpty(fs, k);
    var ds := Dates(Group(fs, k));
    SummaryEntry(k, MinOf(ds), MaxOf(ds))
  }

  function Summary(t: Tables, flt: ReportFilter): (r: seq<SummaryEntry>)
    ensures |r| == |GroupKeys(Qualifying(t, flt))|
    ensures forall i :: 0 <= i < |r| ==> r[i].course == GroupKeys(Qualifying(t, flt))[i]
  {
    var fs := Qualifying(t, flt);
    var keys := GroupKeys(fs);
    seq(|keys|, i requires 0 <= i < |keys| => SummaryFor(fs, keys[i]))
  }

  function SummaryCourseNames(r: seq<SummaryEntry>): seq<string>
  {
    seq(|r|, i requires 0 <= i < |r| => r[i].course)
  }

  /** The summary has one entry per course name with a qualifying row, in
      strictly ascending name order. */
  lemma SummaryCourses(t: Tables, flt: ReportFilter)
    ensures var names := SummaryCourseNames(Summary(t, flt));
      (forall k :: k in names <==> exists f :: f in Qualifying(t, flt) && f.course == k) &&
      (forall i, j :: 0 <= i < j < |names| ==> StrLe(names[i], names[j]) && names[i] != names[j])
  {
    var fs := Qualifying(t, flt);
    assert SummaryCourseNames(Summary(t, flt)) == GroupKeys(fs);
  }

  /** Each entry's start and end are the earliest and the latest qualifying date
      of its course, so start <= end. */
  lemma SummaryDates(t: Tables, flt: ReportFilter, i: nat)
    requires i < |Summary(t, flt)|
    ensures var e := Summary(t, flt)[i]; var fs := Qualifying(t, flt);
      e.startDate <= e.endDate &&
      (exists f :: f in fs && f.course == e.course && f.date == e.startDate) &&
      (exists f :: f in fs && f.course == e.course && f.date == e.endDate) &&
      (forall f :: f in fs && f.course == e.course ==> e.startDate <= f.date <= e.endDate)
  {
    var fs := Qualifying(t, flt);
    var k := GroupKeys(fs)[i];
    var e := Summary(t, flt)[i];
    assert e == SummaryFor(fs, k);
    GroupNonEmpty(fs, k);
    var ds := Dates(Group(fs, k));
    forall f | f in fs && f.course == k ensures e.startDate <= f.date <= e.endDate {
      assert f in Group(fs, k);
      assert f.date in ds;
    }
  }

  /** Every qualifying row satisfies the filters: the summary never covers a row
      outside the requested course, department or date range. */
  lemma SummaryRowsMatch(t: Tables, flt: ReportFilter, f: Fact)
    requires f in Qualifying(t, flt)
    ensures flt.course != "" ==> f.course == flt.course
    ensures flt.department != "" ==> f.department == flt.department
    ensures flt.startDate.Some? ==> flt.startDate.value <= f.date
    ensures flt.endDate.Some? ==> f.date <= flt.endDate.value
  {
  }

  // ---- GET /reports/attendance-rate ----

  lemma MulMono(b: nat, x: nat, y: nat)
    ensures x <= y ==> b * x <= b * y
  {
    if x <= y {
      assert b * y == b * x + b * (y - x);
    }
  }

  /** `Math.round(100 * p / n)` in exact arithmetic: the quotient rounded half up. */
  function RoundedPercent(p: nat, n: nat): (r: nat)
    requires 0 < n && p <= n
    ensures r <= 100
    ensures 2 * n * r <= 200 * p + n < 2 * n * r + 2 * n
  {
    var a := 200 * p + n;
    var b := 2 * n;
    var q := a / b;
    assert a == b * q + a % b;
    MulMono(200, p, n);
    MulMono(b, 101, q);
    q
  }

  /** 3 present out of 4 is 75; 1 out of 8 (12.5) rounds up to 13; 2 out of 3 is 67. */
  lemma RoundedPercentExamples()
    ensures RoundedPercent(3, 4) == 75
    ensures RoundedPercent(1, 8) == 13
    ensures RoundedPercent(2, 3) == 67
  {
  }

  /** Everyone present is 100, nobody present is 0. */
  lemma RoundedPercentExtremes(n: nat)
    requires n > 0
    ensures RoundedPercent(n, n) == 100
    ensures RoundedPercent(0, n) == 0
  {
    var full := RoundedPercent(n, n);
    MulMono(2 * n, full, 99);
    var none := RoundedPercent(0, n);
    MulMono(2 * n, 1, none);
  }

  function IsPresent(f: Fact): bool
  {
    f.status == Present
  }

  datatype RateEntry = RateEntry(course: string, rate: nat)

  /** `rate` is `100 * p / n` rounded half up, for `0 < n` and `p <= n`. */
  predicate HalfUpPercent(rate: nat, p: nat, n: nat)
  {
    0 < n && p <= n && rate <= 100 && 2 * n * rate <= 200 * p + n < 2 * n * rate + 2 * n
  }

  function RateFor(fs: seq<Fact>, k: string): (r: RateEntry)
    requires k in GroupKeys(fs)
    ensures r.course == k
    ensures HalfUpPercent(r.rate, |Filter(Group(fs, k), IsPresent)|, |Group(fs, k)|)
  {
    GroupNonEmpty(fs, k);
    var group := Group(fs, k);
    RateEntry(k, RoundedPercent(|Filter(group, IsPresent)|, |group|))
  }

  /** `GET /reports/attendance-rate`: only the course and department filters apply. */
  function Rate(t: Tables, course: string, department: string): (r: seq<RateEntry>)
    ensures |r| == |GroupKeys(Qualifying(t, ReportFilter(course, department, None, None)))|
    ensures forall i :: 0 <= i < |r| ==>
      var fs := Qualifying(t, ReportFilter(course, department, None, None));
      var group := Group(fs, GroupKeys(fs)[i]);
      r[i].course == GroupKeys(fs)[i] && HalfUpPercent(r[i].rate, |Filter(group, IsPresent)|, |group|)
  {
    var fs := Qualifying(t, ReportFilter(course, department, None, None));
    var keys := GroupKeys(fs);
    seq(|keys|, i requires 0 <= i < |keys| => RateFor(fs, keys[i]))
  }

  function RateCourseNames(r: seq<RateEntry>): seq<string>
  {
    seq(|r|, i requires 0 <= i < |r| => r[i].course)
  }

  /** The rate has one entry per course name with a qualifying row (a course
      without rows is absent, not reported as 0), in strictly ascending name order. */
  lemma RateCourses(t: Tables, course: string, department: string)
    ensures var names := RateCourseNames(Rate(t, course, department));
      var fs := Qualifying(t, ReportFilter(course, department, None, None));
      (forall k :: k in names <==> exists f :: f in fs && f.course == k) &&
      (forall i, j :: 0 <= i < j < |names| ==> StrLe(names[i], names[j]) && names[i] != names[j])
  {
    var fs := Qualifying(t, ReportFilter(course, department, None, None));
    assert RateCourseNames(Rate(t, course, department)) == GroupKeys(fs);
  }

  /** The facts of course `k` that satisfy `flt`; and those among them with a
      present status. */
  function CountedFact(flt: ReportFilter, k: string): Fact -> bool
  {
    f => Matches(flt, f) && f.course == k
  }

  function PresentFact(flt: ReportFilter, k: string): Fact -> bool
  {
    f => Matches(flt, f) && f.course == k && f.status == Present
  }

  /** A group's rows and its present rows, counted over the stored records. */
  lemma GroupCounts(t: Tables, flt: ReportFilter, k: string)
    ensures |Group(Qualifying(t, flt), k)| == |Filter(t.attendance, SurvivesWith(t, CountedFact(flt, k)))|
    ensures |Filter(Group(Qualifying(t, flt), k), IsPresent)| ==
            |Filter(t.attendance, SurvivesWith(t, PresentFact(flt, k)))|
  {
    GroupRows(t, flt, k);
    PresentRows(Facts(t, t.attendance), flt, k);
    FactsCount(t, t.attendance, CountedFact(flt, k));
    FactsCount(t, t.attendance, PresentFact(flt, k));
  }

  lemma GroupRows(t: Tables, flt: ReportFilter, k: string)
    ensures Group(Qualifying(t, flt), k) == Filter(Facts(t, t.attendance), CountedFact(flt, k))
  {
    FilterTwice(Facts(t, t.attendance), MatchesFn(flt), OfCourse(k), CountedFact(flt, k));
  }

  lemma PresentRows(facts: seq<Fact>, flt: ReportFilter, k: string)
    ensures Filter(Filter(facts, CountedFact(flt, k)), IsPresent) == Filter(facts, PresentFact(flt, k))
  {
    FilterTwice(facts, CountedFact(flt, k), IsPresent, PresentFact(flt, k));
  }

  /** Each rate is 100 times the course's present rows over its rows, rounded
      half up and so within 0..100, where both counts are counts of stored
      attendance records: `n` those whose three joins succeed and that have the
      course's name and pass the filters, `p` those among them marked present. */
  lemma RateValue(t: Tables, course: string, department: string, i: nat)
    requires i < |Rate(t, course, department)|
    ensures var e := Rate(t, course, department)[i];
      var flt := ReportFilter(course, department, None, None);
      HalfUpPercent(e.rate, |Filter(t.attendance, SurvivesWith(t, PresentFact(flt, e.course)))|,
                            |Filter(t.attendance, SurvivesWith(t, CountedFact(flt, e.course)))|)
  {
    var flt := ReportFilter(course, department, None, None);
    GroupCounts(t, flt, Rate(t, course, department)[i].course);
  }
}
