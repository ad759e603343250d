/** The authentication routes: employee registration with its ordered
    uniqueness checks, and login by username and password equality. */
module AuthApi {
  import opened Text
  import opened Schema
  import opened Store

  const RegisterFieldsRequired: string := "Username, password, and email are required"
  const UsernameExists: string := "Username already exists"
  const EmailRegistered: string := "Email already registered"
  const LoginFieldsRequired: string := "Username and password are required"
  const InvalidCredentials: string := "Invalid credentials"

  /** The register request body; an empty text is a missing value. */
  datatype RegisterForm = RegisterForm(username: string, password: string, email: string,
                                       firstName: string, lastName: string)

  /** The user record a reply carries; it has no password field. */
  datatype UserView = UserView(id: nat, username: string, email: string,
                               firstName: Option<string>, lastName: Option<string>)

  function ViewOf(e: Employee): UserView
  {
    UserView(e.id, e.username, e.email, e.firstName, e.lastName)
  }

  predicate UsernameTaken(es: seq<Employee>, username: string)
  {
    exists i :: 0 <= i < |es| && es[i].username == username
  }

  predicate EmailTaken(es: seq<Employee>, email: string)
  {
    exists i :: 0 <= i < |es| && es[i].email == email
  }

  function NewEmployee(id: nat, form: RegisterForm): Employee
  {
    Employee(id, form.username, form.password, form.email, OrNull(form.firstName), OrNull(form.lastName))
  }

  /** Appending an employee with a fresh id, username and email keeps all three unique. */
  lemma AppendEmployee(es: seq<Employee>, e: Employee)
    requires UniqueEmployees(es)
    requires forall i :: 0 <= i < |es| ==> es[i].id != e.id
    requires !UsernameTaken(es, e.username) && !EmailTaken(es, e.email)
    ensures UniqueEmployees(es + [e])
  {
    var next := es + [e];
    forall i, j | 0 <= i < j < |next|
      ensures next[i].id != next[j].id && next[i].username != next[j].username && next[i].email != next[j].email
    {
      assert next[i] == es[i];
    }
  }

  /** `POST /auth/register`: the required fields, then the username, then the
      email are checked, and only a request passing all three inserts. */
  method Register(db: Db, form: RegisterForm) returns (r: Response<UserView>)
    requires db.Valid()
    modifies db`employees, db`nextEmployeeId
    ensures db.Valid()
    ensures form.username == "" || form.password == "" || form.email == "" ==>
      r == Err(400, RegisterFieldsRequired) && db.employees == old(db.employees) &&
      db.nextEmployeeId == old(db.nextEmployeeId)
    ensures form.username != "" && form.password != "" && form.email != "" &&
            UsernameTaken(old(db.employees), form.username) ==>
      r == Err(400, UsernameExists) && db.employees == old(db.employees) &&
      db.nextEmployeeId == old(db.nextEmployeeId)
    ensures form.username != "" && form.password != "" && form.email != "" &&
            !UsernameTaken(old(db.employees), form.username) && EmailTaken(old(db.employees), form.email) ==>
      r == Err(400, EmailRegistered) && db.employees == old(db.employees) &&
      db.nextEmployeeId == old(db.nextEmployeeId)
    ensures form.username != "" && form.password != "" && form.email != "" &&
            !UsernameTaken(old(db.employees), form.username) && !EmailTaken(old(db.employees), form.email) ==>
      var e := NewEmployee(old(db.nextEmployeeId), form);
      r == Ok(201, ViewOf(e)) && db.employees == old(db.employees) + [e] &&
      db.nextEmployeeId == old(db.nextEmployeeId) + 1
  {
    if form.username == "" || form.password == "" || form.email == "" {
      return Err(400, RegisterFieldsRequired);
    }
    if UsernameTaken(db.employees, form.username) {
      return Err(400, UsernameExists);
    }
    if EmailTaken(db.employees, form.email) {
      return Err(400, EmailRegistered);
    }
    var e := NewEmployee(db.nextEmployeeId, form);
    AppendEmployee(db.employees, e);
    db.employees := db.employees + [e];
    db.nextEmployeeId := db.nextEmployeeId + 1;
    r := Ok(201, ViewOf(e));
  }

  /** The reply to a store error raised by the insert: a unique violation is
      reported by the constraint it names, anything else with its message. */
  function RegisterErrorReply(e: StoreError): (r: Response<UserView>)
    ensures r.Err?
    ensures r.status == 400 <==>
      e.code == UniqueViolationCode && (Contains(e.constraint, "username") || Contains(e.constraint, "email"))
    ensures r.status == 400 && Contains(e.constraint, "username") ==> r.error == UsernameExists
    ensures r.status == 400 && !Contains(e.constraint, "username") ==> r.error == EmailRegistered
    ensures r.status != 400 ==> r == Err(500, e.message)
  {
    if e.code == UniqueViolationCode && Contains(e.constraint, "username") then Err(400, UsernameExists)
    else if e.code == UniqueViolationCode && Contains(e.constraint, "email") then Err(400, EmailRegistered)
    else Err(500, e.message)
  }

  /** A registration racing another one with the same username gets the
      reply the username check gives. */
  lemma UsernameRaceReply()
    ensures RegisterErrorReply(UniqueViolation(EmployeeUsernameKey)) == Err(400, UsernameExists)
  {
    ContainsInfix("employee_", "username", "_key", "username");
    assert EmployeeUsernameKey == "employee_" + "username" + "_key";
  }

  /** One racing with the same email gets the reply the email check gives. */
  lemma EmailRaceReply()
    ensures RegisterErrorReply(UniqueViolation(EmployeeEmailKey)) == Err(400, EmailRegistered)
  {
    EmailKeysMentionEmail();
    ContainsHead(EmployeeEmailKey, "username");
    assert 'u' !in EmployeeEmailKey;
  }

  /** `SELECT ... FROM employee WHERE username = $1 AND password = $2`, first row. */
  function FindCredentials(es: seq<Employee>, username: string, password: string): (r: Option<Employee>)
    ensures r.Some? ==> r.value in es && r.value.username == username && r.value.password == password
    ensures r.None? <==> forall i :: 0 <= i < |es| ==> !(es[i].username == username && es[i].password == password)
  {
    if es == [] then None
    else if es[0].username == username && es[0].password == password then Some(es[0])
    else FindCredentials(es[1..], username, password)
  }

  /** `POST /auth/login`. */
  function Login(t: Tables, username: string, password: string): (r: Response<UserView>)
    ensures username == "" || password == "" ==> r == Err(400, LoginFieldsRequired)
    ensures username != "" && password != "" ==>
      (r.Ok? <==> exists e :: e in t.employees && e.username == username && e.password == password)
    ensures r.Ok? ==> r.status == 200
    ensures r.Ok? ==> exists e :: e in t.employees && e.username == username && e.password == password && r.value == ViewOf(e)
    ensures username != "" && password != "" && r.Err? ==> r == Err(401, InvalidCredentials)
  {
    if username == "" || password == "" then Err(400, LoginFieldsRequired)
    else match FindCredentials(t.employees, username, password)
      case Some(e) => Ok(200, ViewOf(e))
      case None => Err(401, InvalidCredentials)
  }

  /** Registering and then logging in with the same credentials gives back the
      registered user. */
  lemma RegisterThenLogin(t: Tables, e: Employee)
    requires UniqueEmployees(t.employees + [e])
    requires e.username != "" && e.password != ""
    ensures Login(t.(employees := t.employees + [e]), e.username, e.password) == Ok(200, ViewOf(e))
  {
    var es := t.employees + [e];
    assert es[|t.employees|] == e;
    var found := FindCredentials(es, e.username, e.password);
    var k :| 0 <= k < |es| && es[k] == found.value;
    assert k == |t.employees|;
  }
}
