/**
 * The JSON API blueprint: token login, the `role_required_api` decorator, the student listing and the
 * student creation endpoint. Both copies of the blueprint in the repository implement this same logic.
 *
 * A request body is what `request.get_json(silent=True)` returns: a JSON object, or None for a body that
 * is not JSON. Only JSON strings and null are distinguished among the member values.
 */
module ApiRoutes {
  import opened Wrappers
  import opened Text
  import opened Models
  import opened Encryption
  import AuthRoutes
  import Forms
  import Web

  /** The JSON values the endpoints read. */
  datatype JsonValue = JNull | JStr(s: string)

  type JsonObject = map<string, JsonValue>

  /** `request.get_json(silent=True) or {}`: a body that does not parse is the empty object. */
  function Body(parsed: Option<JsonObject>): JsonObject {
    if parsed.None? then map[] else parsed.value
  }

  /** `data.get(key, default)`: the default for a missing key, None for JSON null. */
  function Get(data: JsonObject, key: string, default: Option<string>): (r: Option<string>)
    ensures key !in data ==> r == default
    ensures key in data ==> (r.None? <==> data[key] == JNull)
    ensures key in data && data[key].JStr? ==> r == Some(data[key].s)
  {
    if key !in data then default
    else match data[key]
      case JNull => None
      case JStr(s) => Some(s)
  }

  /** The claims `create_access_token` puts in the token. */
  datatype Claims = Claims(identity: UserId, role: string, username: string)

  /** One element of the `api_students` list. */
  datatype StudentEntry = StudentEntry(id: nat, name: string, email: string, address: string, grade: Option<string>)

  /** An endpoint's answer with its status code; `Crash` is an exception that escapes the view (500). */
  datatype ApiReply =
    | TokenIssued(claims: Claims, role: string)
    | InvalidCredentials
    | Forbidden
    | StudentList(entries: seq<StudentEntry>)
    | Created(id: nat)
    | Crash(error: PyError)

  function Status(r: ApiReply): int {
    match r
    case TokenIssued(_, _) => 200
    case StudentList(_) => 200
    case Created(_) => 201
    case InvalidCredentials => 401
    case Forbidden => 403
    case Crash(_) => 500
  }

  /**
   * `api_login`. A null user name fails on `.strip()`; a null password is handed to the hash check,
   * which raises TypeError, but only once a user of that name exists.
   */
  function ApiLogin(users: seq<User>, h: Hasher, parsed: Option<JsonObject>): (r: ApiReply)
    ensures r.TokenIssued? || r == InvalidCredentials || r.Crash?
    ensures r.TokenIssued? ==>
              && r.role == r.claims.role
              && exists u :: u in users && u.id == r.claims.identity && u.role == r.role && u.username == r.claims.username
    ensures r.Crash? ==> r.error == AttributeError || r.error == TypeError
  {
    var data := Body(parsed);
    match Get(data, "username", Some(""))
    case None => Crash(AttributeError)
    case Some(name) =>
      match FindByUsername(users, Strip(name))
      case None => InvalidCredentials
      case Some(u) =>
        match Get(data, "password", Some(""))
        case None => Crash(TypeError)
        case Some(password) =>
          if h.check(u.passwordHash, password) then TokenIssued(Claims(u.id, u.role, u.username), u.role)
          else InvalidCredentials
  }

  /** A login body holding the two strings. */
  function Credentials(name: string, password: string): JsonObject {
    map["username" := JStr(name), "password" := JStr(password)]
  }

  /**
   * With string fields, a token is issued exactly when the stripped name and the password authenticate,
   * and it carries that user's id, role and name; every other outcome is the one 401 reply.
   */
  lemma ApiLoginIff(users: seq<User>, h: Hasher, name: string, password: string)
    ensures var r := ApiLogin(users, h, Some(Credentials(name, password)));
            && (r.TokenIssued? <==> Authenticate(users, h, Strip(name), password).Some?)
            && (r.TokenIssued? ==> var u := Authenticate(users, h, Strip(name), password).value;
                                   r == TokenIssued(Claims(u.id, u.role, u.username), u.role) && Status(r) == 200)
            && (!r.TokenIssued? ==> r == InvalidCredentials && Status(r) == 401)
  {
  }

  /** An unknown user and a wrong password get the same reply. */
  lemma ApiLoginFailuresAlike(users: seq<User>, h: Hasher, unknown: string, name: string, wrong: string, any: string)
    requires FindByUsername(users, Strip(unknown)).None?
    requires FindByUsername(users, Strip(name)).Some?
    requires !h.check(FindByUsername(users, Strip(name)).value.passwordHash, wrong)
    ensures ApiLogin(users, h, Some(Credentials(unknown, any))) == ApiLogin(users, h, Some(Credentials(name, wrong)))
    ensures ApiLogin(users, h, Some(Credentials(name, wrong))) == InvalidCredentials
  {
  }

  /** Missing fields read as empty strings, and a body that is not JSON reads as an empty object. */
  lemma ApiLoginDefaults(users: seq<User>, h: Hasher, name: string)
    ensures ApiLogin(users, h, None) == ApiLogin(users, h, Some(map[]))
    ensures ApiLogin(users, h, Some(map[])) == ApiLogin(users, h, Some(Credentials("", "")))
    ensures ApiLogin(users, h, Some(map["username" := JStr(name)])) == ApiLogin(users, h, Some(Credentials(name, "")))
  {
  }

  /**
   * The token endpoint and the login form accept the same credentials: a token is issued exactly when
   * the form's password step would send the visitor on to the code step.
   */
  lemma ApiAgreesWithLoginForm(s: AuthRoutes.Session, users: seq<User>, h: Hasher, name: string, password: string,
                               now: int, draw: nat)
    requires AuthRoutes.CurrentUser(s, users).None? && draw < AuthRoutes.OtpRange
    requires Forms.LoginFormValid(Forms.LoginForm(name, password))
    ensures ApiLogin(users, h, Some(Credentials(name, password))).TokenIssued?
            <==> AuthRoutes.LoginStep(s, users, h, Web.Post(true, Forms.LoginForm(name, password)), now, draw).response
                 == Web.Redirect(Web.OtpView, Some(AuthRoutes.OtpSentMessage))
  {
    ApiLoginIff(users, h, name, password);
  }

  /** What the wrapper of `role_required_api(*roles)` does: answer 403, or run the view. */
  datatype Gated<R> = Refused | Passed(result: R)

  /**
   * `role_required_api(*roles)(view)(args)`, with `claimedRole` the token's "role" claim (None when the
   * claim is absent).
   */
  function RoleRequiredApi<A, R>(roles: seq<string>, claimedRole: Option<string>, view: A -> R, args: A): (g: Gated<R>)
    ensures g.Refused? <==> claimedRole.None? || claimedRole.value !in roles
    ensures g.Passed? ==> g.result == view(args)
  {
    if claimedRole.None? || claimedRole.value !in roles then Refused else Passed(view(args))
  }

  /** The API endpoints' guard: a token issued to an admin or a teacher passes, any other token gets 403. */
  lemma StudentEndpointsAdmitStaff<A, R>(users: seq<User>, h: Hasher, name: string, password: string, view: A -> R, args: A)
    requires ApiLogin(users, h, Some(Credentials(name, password))).TokenIssued?
    ensures var c := ApiLogin(users, h, Some(Credentials(name, password))).claims;
            RoleRequiredApi(["admin", "teacher"], Some(c.role), view, args).Passed?
            <==> c.role == "admin" || c.role == "teacher"
  {
  }

  /** The list element for one row, once its address is decrypted. */
  function Entry(s: Student, address: string): StudentEntry {
    StudentEntry(s.id, s.name, s.email, address, s.grade)
  }

  /**
   * The loop of `api_students` with `f` the cipher `get_fernet()` returns: one element per row in query
   * order, each with its address decrypted; a `decrypt_text` that raises ends the request.
   */
  method SerializeStudents(f: Option<Fernet>, students: seq<Student>) returns (r: Outcome<seq<StudentEntry>>)
    ensures r.Raised? <==> exists i :: 0 <= i < |students| && DecryptWith(f, students[i].addressEncrypted).Raised?
    ensures r.Raised? ==> r.error == UnicodeDecodeError
    ensures r.Returned? ==>
              && |r.value| == |students|
              && forall i :: 0 <= i < |students| ==>
                   r.value[i] == Entry(students[i], DecryptWith(f, students[i].addressEncrypted).value)
  {
    var out: seq<StudentEntry> := [];
    var i := 0;
    while i < |students|
      invariant 0 <= i <= |students| && |out| == i
      invariant forall k :: 0 <= k < i ==> DecryptWith(f, students[k].addressEncrypted).Returned?
      invariant forall k :: 0 <= k < i ==> out[k] == Entry(students[k], DecryptWith(f, students[k].addressEncrypted).value)
    {
      var address := DecryptWith(f, students[i].addressEncrypted);
      if address.Raised? {
        return Raised(address.error);
      }
      out := out + [Entry(students[i], address.value)];
      i := i + 1;
    }
    r := Returned(out);
  }

  /**
   * `api_students` behind `role_required_api("admin", "teacher")`: a token without a staff role gets 403;
   * otherwise the listing is returned, or the request fails with the exception a decryption raised.
   */
  method ApiStudents(claimedRole: Option<string>, f: Option<Fernet>, students: seq<Student>) returns (r: ApiReply)
    ensures r.Forbidden? <==> claimedRole.None? || (claimedRole.value != "admin" && claimedRole.value != "teacher")
    ensures r.Crash? <==> !r.Forbidden? && exists i :: 0 <= i < |students| && DecryptWith(f, students[i].addressEncrypted).Raised?
    ensures r.Crash? ==> r.error == UnicodeDecodeError
    ensures r.StudentList? ==>
              && |r.entries| == |students|
              && forall i :: 0 <= i < |students| ==>
                   r.entries[i] == Entry(students[i], DecryptWith(f, students[i].addressEncrypted).value)
  {
    var gate := RoleRequiredApi(["admin", "teacher"], claimedRole, (u: ()) => u, ());
    if gate.Refused? {
      return Forbidden;
    }
    var listed := SerializeStudents(f, students);
    if listed.Raised? {
      return Crash(listed.error);
    }
    r := StudentList(listed.value);
  }

  /** The fields of the new student, read from the body before anything is stored. */
  datatype NewStudent = NewStudent(name: string, email: string, grade: Option<string>, address: Option<string>)

  /**
   * The reads of `api_students_create`: name and e-mail default to "" and are stripped (null fails on
   * `.strip()`), the grade is taken as given, and the address defaults to "" and is NOT stripped.
   */
  function ReadNewStudent(data: JsonObject): (r: Outcome<NewStudent>)
    ensures r.Raised? <==> Get(data, "name", Some("")).None? || Get(data, "email", Some("")).None?
    ensures r.Raised? ==> r.error == AttributeError
    ensures r.Returned? ==> Trimmed(r.value.name) && Trimmed(r.value.email)
    ensures r.Returned? ==> r.value.name == Strip(Get(data, "name", Some("")).value)
                            && r.value.email == Strip(Get(data, "email", Some("")).value)
    ensures r.Returned? ==> r.value.address == Get(data, "address", Some("")) && r.value.grade == Get(data, "grade", None)
  {
    match Get(data, "name", Some(""))
    case None => Raised(AttributeError)
    case Some(name) =>
      match Get(data, "email", Some(""))
      case None => Raised(AttributeError)
      case Some(email) => Returned(NewStudent(Strip(name), Strip(email), Get(data, "grade", None), Get(data, "address", Some(""))))
  }

  /** The address sent is the address stored: whitespace is kept, a missing one is "", and null stores no token. */
  lemma ApiAddressRoundTrip(f: Fernet, data: JsonObject, n: Nonce)
    requires Authenticated(f)
    requires ReadNewStudent(data).Returned?
    ensures var a := ReadNewStudent(data).value.address;
            && ("address" !in data ==> a == Some(""))
            && (a.None? <==> "address" in data && data["address"] == JNull)
            && (a.Some? ==> DecryptWith(Some(f), EncryptWith(Some(f), a, n)) == Returned(a.value))
            && (a.None? ==> EncryptWith(Some(f), a, n).None?)
  {
    var a := ReadNewStudent(data).value.address;
    if a.Some? {
      TextRoundTrip(f, a.value, n);
    }
  }

  /**
   * `api_students_create`: the student is built (reading the body), its address encrypted, and the row
   * added and committed; the commit raises IntegrityError when the e-mail is taken.
   */
  method ApiStudentsCreate(table: StudentTable, keys: KeyCache, envKey: Bytes, parsed: Option<JsonObject>, n: Nonce)
    returns (r: ApiReply)
    requires table.Valid() && keys.Valid()
    modifies table, keys
    ensures table.Valid() && keys.Valid()
    ensures var read := ReadNewStudent(Body(parsed));
            read.Raised? ==> r == Crash(AttributeError) && unchanged(table) && unchanged(keys)
    ensures var read := ReadNewStudent(Body(parsed));
            var res := Resolve(old(keys.fernet), keys.load, envKey);
            read.Returned? ==>
              && keys.fernet == res.cache
              && (res.outcome.Raised? ==> r == Crash(res.outcome.error) && unchanged(table))
              && (res.outcome.Returned? ==>
                    var s := read.value;
                    var token := EncryptWith(res.outcome.value, s.address, n);
                    if EmailUsed(old(table.rows), s.email) then r == Crash(IntegrityError) && table.rows == old(table.rows)
                    else var id := MaxStudentId(old(table.rows)) + 1;
                         r == Created(id) && table.rows == old(table.rows) + [Student(id, s.name, s.email, token, s.grade)])
  {
    var read := ReadNewStudent(Body(parsed));
    if read.Raised? {
      return Crash(read.error);
    }
    var s := read.value;
    var token := keys.EncryptText(envKey, s.address, n);
    if token.Raised? {
      return Crash(token.error);
    }
    var added := table.Add(s.name, s.email, token.value, s.grade);
    if added.Raised? {
      return Crash(added.error);
    }
    r := Created(added.value);
  }
}
