/** The instructor routes: the listing with its search and department filter,
    the create with its duplicate-id check and error mapping, and the delete. */
module InstructorsApi {
  import opened Text
  import opened Sequences
  import opened Schema
  import opened Store

  const MissingInstructorFields: string :=
    "Missing required fields: instructor_id, name, surname, email, and department_id are required"
  const InstructorIdExists: string := "Instructor ID already exists"
  const InstructorNotFound: string := "Instructor not found"
  const EmailAlreadyRegistered: string := "This email address is already registered"
  const InstructorAlreadyExists: string := "An instructor with this information already exists"

  // ---- GET /instructors ----

  /** One row of `instructor LEFT JOIN department`. */
  datatype InstructorRow = InstructorRow(id: nat, name: string, surname: string, email: string,
                                         department: Option<string>)

  function InstructorView(t: Tables, x: Instructor): InstructorRow
  {
    InstructorRow(x.id, x.name, x.surname, x.email, DepartmentNameOf(t.departments, x.departmentId))
  }

  /** The `search` filter: name, surname or id as text, case-insensitively and
      without Turkish folding; the `department` filter: the joined name, exactly. */
  predicate KeepInstructor(t: Tables, search: string, department: string, x: Instructor)
  {
    (search == "" || ILike(x.name, search) || ILike(x.surname, search) || ILike(NatToText(x.id), search)) &&
    (department == "" || DepartmentNameOf(t.departments, x.departmentId) == Some(department))
  }

  function KeepInstructorFn(t: Tables, search: string, department: string): Instructor -> bool
  {
    x => KeepInstructor(t, search, department, x)
  }

  function InstructorViews(t: Tables, xs: seq<Instructor>): (r: seq<InstructorRow>)
    ensures |r| == |xs|
    ensures forall y :: y in r <==> exists x :: x in xs && y == InstructorView(t, x)
  {
    var r := seq(|xs|, i requires 0 <= i < |xs| => InstructorView(t, xs[i]));
    MapMembers(xs, x => InstructorView(t, x), r);
    r
  }

  predicate InstructorRowLe(a: InstructorRow, b: InstructorRow)
  {
    a.id <= b.id
  }

  /** `GET /instructors`: the rows the query selects once every parameter has
      its own placeholder (`ListingQuery`); as written a given search makes the
      store refuse the query (`SearchQueryRejected`). A listed row is exactly the
      view of a stored instructor that passes both filters, one row per such
      instructor, and the rows are ordered by id. */
  function ListInstructors(t: Tables, search: string, department: string): (r: seq<InstructorRow>)
    ensures forall y :: y in r <==>
      exists x :: x in t.instructors && KeepInstructor(t, search, department, x) && y == InstructorView(t, x)
    ensures forall i, j :: 0 <= i < j < |r| ==> r[i].id <= r[j].id
    ensures |r| == |Filter(t.instructors, KeepInstructorFn(t, search, department))|
  {
    var kept := Filter(t.instructors, KeepInstructorFn(t, search, department));
    var views := InstructorViews(t, kept);
    assert |multiset(SortBy(views, InstructorRowLe))| == |multiset(views)|;
    FilterMembers(t.instructors, KeepInstructorFn(t, search, department));
    SortByMembers(views, InstructorRowLe);
    SortBySorted(views, InstructorRowLe);
    SortBy(views, InstructorRowLe)
  }

  /** The search, unfolded: plain case-insensitive substrings only, so a folded
      spelling of a Turkish name does not find it. */
  lemma InstructorSearchMeaning(t: Tables, x: Instructor, search: string)
    requires search != ""
    ensures KeepInstructor(t, search, "", x) <==>
      Contains(Lower(x.name), Lower(search)) || Contains(Lower(x.surname), Lower(search)) ||
      Contains(NatToText(x.id), Lower(search))
  {
    IdTextILike(x.id, search);
  }

  // ---- The parameter list the listing query is sent with ----

  /** The `$n` placeholders the query text refers to, the parameters sent with
      it, and the next placeholder number. */
  datatype BoundQuery = BoundQuery(placeholders: seq<nat>, params: seq<string>, next: nat)

  /** PostgreSQL runs a query only when the parameters sent are exactly the
      ones `$1 .. $n` it refers to: a surplus parameter, or one the text never
      mentions, makes it fail before any row is read. */
  predicate WellBound(q: BoundQuery)
  {
    (forall i :: 0 <= i < |q.placeholders| ==> 1 <= q.placeholders[i] <= |q.params|) &&
    (forall k :: 1 <= k <= |q.params| ==> k in q.placeholders)
  }

  function Pattern(search: string): string
  {
    "%" + search + "%"
  }

  /** The search clause as written: all three conditions name the same
      placeholder, while three parameters are pushed and the count advanced
      three times. */
  function SearchClauseAsWritten(q: BoundQuery, search: string): BoundQuery
  {
    if search == "" then q
    else BoundQuery(q.placeholders + [q.next, q.next, q.next],
                    q.params + [Pattern(search), Pattern(search), Pattern(search)], q.next + 3)
  }

  /** The search clause as intended: one placeholder per pushed parameter. */
  function SearchClause(q: BoundQuery, search: string): BoundQuery
  {
    if search == "" then q
    else BoundQuery(q.placeholders + [q.next, q.next + 1, q.next + 2],
                    q.params + [Pattern(search), Pattern(search), Pattern(search)], q.next + 3)
  }

  function DepartmentClause(q: BoundQuery, department: string): BoundQuery
  {
    if department == "" then q
    else BoundQuery(q.placeholders + [q.next], q.params + [department], q.next + 1)
  }

  const NoParams: BoundQuery := BoundQuery([], [], 1)

  function ListingQueryAsWritten(search: string, department: string): BoundQuery
  {
    DepartmentClause(SearchClauseAsWritten(NoParams, search), department)
  }

  function ListingQuery(search: string, department: string): BoundQuery
  {
    DepartmentClause(SearchClause(NoParams, search), department)
  }

  /** As written, the query is accepted exactly when no search is given: with a
      search `$2` is sent but never referred to, so the listing answers 500. */
  lemma SearchQueryRejected(search: string, department: string)
    ensures WellBound(ListingQueryAsWritten(search, department)) <==> search == ""
  {
    var q := ListingQueryAsWritten(search, department);
    if search != "" {
      assert |q.params| >= 3;
      assert q.placeholders == [1, 1, 1] || q.placeholders == [1, 1, 1, 4];
      assert 2 !in q.placeholders;
    } else if department != "" {
      assert q.placeholders == [1] && |q.params| == 1;
    }
  }

  /** With one placeholder per parameter the query is accepted for every
      combination of filters; `ListInstructors` is the meaning of this query. */
  lemma ListingQueryWellBound(search: string, department: string)
    ensures WellBound(ListingQuery(search, department))
  {
    var q := ListingQuery(search, department);
    if search == "" && department == "" {
    } else if search == "" {
      assert q.placeholders == [1] && |q.params| == 1;
    } else if department == "" {
      assert q.placeholders == [1, 2, 3] && |q.params| == 3;
    } else {
      assert q.placeholders == [1, 2, 3, 4] && |q.params| == 4;
    }
  }

  // ---- POST /instructors ----

  /** The request body; an empty text or an absent or zero number is missing. */
  datatype InstructorForm = InstructorForm(instructorId: Option<nat>, name: string, surname: string,
                                           email: string, departmentId: Option<nat>)

  predicate HasRequiredFields(form: InstructorForm)
  {
    GivenNumber(form.instructorId) && form.name != "" && form.surname != "" && form.email != "" &&
    GivenNumber(form.departmentId)
  }

  /** The reply to an insert the store rejected: its own message, unless that
      message reports a unique-constraint violation, which is reported as a
      taken email when it mentions "email" and as a duplicate otherwise. */
  function InstructorErrorMessage(msg: string): (r: string)
    ensures !IsDuplicateKeyMessage(msg) ==> r == msg
    ensures IsDuplicateKeyMessage(msg) ==> (r == EmailAlreadyRegistered <==> Contains(msg, "email"))
    ensures IsDuplicateKeyMessage(msg) ==> (r == InstructorAlreadyExists <==> !Contains(msg, "email"))
  {
    if IsDuplicateKeyMessage(msg) then
      (if Contains(msg, "email") then EmailAlreadyRegistered else InstructorAlreadyExists)
    else msg
  }

  lemma EmailClashMessage()
    ensures InstructorErrorMessage(UniqueViolation(InstructorEmailKey).message) == EmailAlreadyRegistered
  {
    UniqueViolationRecognised(InstructorEmailKey);
    EmailKeysMentionEmail();
  }

  /** The violation the store raises for a taken primary key is reported as a
      duplicate, not as a taken email. */
  lemma PrimaryKeyClashMessage()
    ensures InstructorErrorMessage(UniqueViolation(InstructorPrimaryKey).message) == InstructorAlreadyExists
  {
    UniqueViolationRecognised(InstructorPrimaryKey);
    PrimaryKeysLackEmail();
  }

  predicate EmailTaken(xs: seq<Instructor>, email: string)
  {
    exists i :: 0 <= i < |xs| && xs[i].email == email
  }

  function NewInstructor(form: InstructorForm): Instructor
    requires HasRequiredFields(form)
  {
    Instructor(form.instructorId.value, form.name, form.surname, form.email, form.departmentId.value)
  }

  /** With a fresh id, appending keeps the keys unique exactly when the email is free. */
  lemma AppendInstructor(xs: seq<Instructor>, x: Instructor)
    requires UniqueInstructors(xs) && FindInstructor(xs, x.id).None?
    ensures UniqueInstructors(xs + [x]) <==> !EmailTaken(xs, x.email)
  {
    var next := xs + [x];
    if !EmailTaken(xs, x.email) {
      forall i, j | 0 <= i < j < |next| ensures next[i].id != next[j].id && next[i].email != next[j].email {
        assert next[i] == xs[i];
      }
    } else {
      var i :| 0 <= i < |xs| && xs[i].email == x.email;
      assert next[i].email == next[|xs|].email;
    }
  }

  /** `POST /instructors`: missing fields, then a taken id, are refused before
      the insert; the insert itself fails (500) when the email is taken. */
  method CreateInstructor(db: Db, form: InstructorForm) returns (r: Response<nat>)
    requires db.Valid()
    modifies db`instructors
    ensures db.Valid()
    ensures !HasRequiredFields(form) ==>
      r == Err(400, MissingInstructorFields) && db.instructors == old(db.instructors)
    ensures HasRequiredFields(form) && FindInstructor(old(db.instructors), form.instructorId.value).Some? ==>
      r == Err(400, InstructorIdExists) && db.instructors == old(db.instructors)
    ensures HasRequiredFields(form) && FindInstructor(old(db.instructors), form.instructorId.value).None? &&
            EmailTaken(old(db.instructors), form.email) ==>
      r == Err(500, EmailAlreadyRegistered) && db.instructors == old(db.instructors)
    ensures HasRequiredFields(form) && FindInstructor(old(db.instructors), form.instructorId.value).None? &&
            !EmailTaken(old(db.instructors), form.email) ==>
      r == Ok(201, form.instructorId.value) && db.instructors == old(db.instructors) + [NewInstructor(form)]
  {
    if !GivenNumber(form.instructorId) || form.name == "" || form.surname == "" || form.email == "" ||
       !GivenNumber(form.departmentId) {
      return Err(400, MissingInstructorFields);
    }
    if FindInstructor(db.instructors, form.instructorId.value).Some? {
      return Err(400, InstructorIdExists);
    }
    var x := NewInstructor(form);
    var xs := db.instructors + [x];
    AppendInstructor(db.instructors, x);
    if !UniqueInstructors(xs) {
      EmailClashMessage();
      return Err(500, InstructorErrorMessage(UniqueViolation(InstructorEmailKey).message));
    }
    db.instructors := xs;
    r := Ok(201, x.id);
  }

  // ---- DELETE /instructors/:id ----

  function InstructorOtherThan(id: nat): Instructor -> bool
  {
    (x: Instructor) => x.id != id
  }

  function InstructorIdOf(x: Instructor): nat { x.id }
  function InstructorEmailOf(x: Instructor): string { x.email }

  /** Removing rows keeps instructor ids and emails unique. */
  lemma FilterKeepsInstructorKeys(xs: seq<Instructor>, p: Instructor -> bool)
    requires UniqueInstructors(xs)
    ensures UniqueInstructors(Filter(xs, p))
  {
    var kept := Filter(xs, p);
    assert DistinctBy(xs, InstructorIdOf) && DistinctBy(xs, InstructorEmailOf);
    FilterKeepsDistinct(xs, InstructorIdOf, p);
    FilterKeepsDistinct(xs, InstructorEmailOf, p);
    assert forall i, j :: 0 <= i < j < |kept| ==> InstructorIdOf(kept[i]) != InstructorIdOf(kept[j]);
    assert forall i, j :: 0 <= i < j < |kept| ==> InstructorEmailOf(kept[i]) != InstructorEmailOf(kept[j]);
  }

  /** The delete keeps exactly the instructors with other ids, in order, and
      keeps ids and emails unique. */
  lemma InstructorDeleteMeaning(xs: seq<Instructor>, id: nat)
    requires UniqueInstructors(xs)
    ensures forall x :: x in Filter(xs, InstructorOtherThan(id)) <==> x in xs && x.id != id
    ensures IsSubsequence(Filter(xs, InstructorOtherThan(id)), xs)
    ensures UniqueInstructors(Filter(xs, InstructorOtherThan(id)))
    ensures FindInstructor(Filter(xs, InstructorOtherThan(id)), id).None?
  {
    var kept := Filter(xs, InstructorOtherThan(id));
    FilterIsSubsequence(xs, InstructorOtherThan(id));
    forall x | x in xs && x.id != id ensures x in kept {
      var k :| 0 <= k < |xs| && xs[k] == x;
      assert InstructorOtherThan(id)(xs[k]);
    }
    FilterKeepsInstructorKeys(xs, InstructorOtherThan(id));
    assert forall i :: 0 <= i < |kept| ==> InstructorOtherThan(id)(kept[i]);
  }

  /** `DELETE /instructors/:id`. */
  method DeleteInstructor(db: Db, id: nat) returns (r: Response<bool>)
    requires db.Valid()
    modifies db`instructors
    ensures db.Valid()
    ensures FindInstructor(old(db.instructors), id).None? ==>
      r == Err(404, InstructorNotFound) && db.instructors == old(db.instructors)
    ensures FindInstructor(old(db.instructors), id).Some? ==>
      r == Ok(200, true) && db.instructors == Filter(old(db.instructors), InstructorOtherThan(id))
  {
    if FindInstructor(db.instructors, id).None? {
      return Err(404, InstructorNotFound);
    }
    InstructorDeleteMeaning(db.instructors, id);
    db.instructors := Filter(db.instructors, InstructorOtherThan(id));
    r := Ok(200, true);
  }
}
