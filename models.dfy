/**
 * The persisted records the routes read and write (the `User` and `Student` tables), the password
 * hashing library as a pair of functions, and the two lookups the login routes make.
 */
module Models {
  import opened Wrappers

  type UserId = nat

  /** A row of the `user` table; `passwordHash` is what bcrypt produced. */
  datatype User = User(id: UserId, username: string, email: string, passwordHash: string, role: string)

  /** A row of the `student` table; the address is stored only as a cipher token, or NULL. */
  datatype Student = Student(id: nat, name: string, email: string, addressEncrypted: Option<Bytes>, grade: Option<string>)

  /**
   * flask_bcrypt as the model sees it: `hash(password, salt)` is `generate_password_hash` with the salt
   * it draws, `check(hash, password)` is `check_password_hash`.
   */
  datatype Hasher = Hasher(hash: (string, nat) -> string, check: (string, string) -> bool)

  /** The one guarantee of the hashing library the model relies on: a password checks against its own hash. */
  ghost predicate HashesVerify(h: Hasher) {
    forall password, salt :: h.check(h.hash(password, salt), password)
  }

  /** The `user` table's UNIQUE constraint on `username`. */
  ghost predicate UniqueUsernames(users: seq<User>) {
    forall i, j :: 0 <= i < j < |users| ==> users[i].username != users[j].username
  }

  /** The `user` table's UNIQUE constraint on `email`. */
  ghost predicate UniqueEmails(users: seq<User>) {
    forall i, j :: 0 <= i < j < |users| ==> users[i].email != users[j].email
  }

  /** Users are never deleted, so the integer primary keys are the row numbers 1, 2, ... */
  ghost predicate IdsAreRowNumbers(users: seq<User>) {
    forall i :: 0 <= i < |users| ==> users[i].id == i + 1
  }

  /** `User.query.filter_by(username=name).first()`. */
  function FindByUsername(users: seq<User>, name: string): (r: Option<User>)
    ensures r.Some? ==> r.value in users && r.value.username == name
    ensures r.None? ==> forall u :: u in users ==> u.username != name
  {
    if users == [] then None
    else if users[0].username == name then Some(users[0])
    else FindByUsername(users[1..], name)
  }

  /** `User.query.get(id)`. */
  function FindById(users: seq<User>, id: UserId): (r: Option<User>)
    ensures r.Some? ==> r.value in users && r.value.id == id
    ensures r.None? ==> forall u :: u in users ==> u.id != id
  {
    if users == [] then None
    else if users[0].id == id then Some(users[0])
    else FindById(users[1..], id)
  }

  /** Is the name, or the e-mail address, already used by some user? (the duplicate query of `register`) */
  predicate Taken(users: seq<User>, username: string, email: string) {
    exists i :: 0 <= i < |users| && (users[i].username == username || users[i].email == email)
  }

  /** Both login routes: the user with that name, provided the password checks against the stored hash. */
  function Authenticate(users: seq<User>, h: Hasher, name: string, password: string): Option<User> {
    match FindByUsername(users, name)
    case Some(u) => if h.check(u.passwordHash, password) then Some(u) else None
    case None => None
  }

  /** With unique user names, authentication succeeds exactly for a stored user whose hash accepts the password. */
  lemma AuthenticateIff(users: seq<User>, h: Hasher, name: string, password: string)
    requires UniqueUsernames(users)
    ensures Authenticate(users, h, name, password).Some?
            <==> exists u :: u in users && u.username == name && h.check(u.passwordHash, password)
    ensures Authenticate(users, h, name, password).Some? ==>
              Authenticate(users, h, name, password).value.username == name
  {
    if u :| u in users && u.username == name && h.check(u.passwordHash, password) {
      var found := FindByUsername(users, name);
      var i :| 0 <= i < |users| && users[i] == u;
      var j :| 0 <= j < |users| && users[j] == found.value;
      assert users[i].username == users[j].username;
    }
  }

  /** Appending a row does not change what a lookup of an existing id finds. */
  lemma {:induction false} FindByIdAppend(users: seq<User>, u: User, id: UserId)
    requires FindById(users, id).Some?
    ensures FindById(users + [u], id) == FindById(users, id)
  {
    if users[0].id != id {
      assert (users + [u])[1..] == users[1..] + [u];
      FindByIdAppend(users[1..], u, id);
    }
  }

  /** With row-number ids, every id from 1 to the row count names a user. */
  lemma FindByIdRowNumbers(users: seq<User>, id: UserId)
    requires IdsAreRowNumbers(users) && 1 <= id <= |users|
    ensures FindById(users, id) == Some(users[id - 1])
  {
    FindByIdShifted(users, id, 1);
  }

  /** Induction for FindByIdRowNumbers: a suffix whose ids are row numbers counted from `base`. */
  lemma {:induction false} FindByIdShifted(tail: seq<User>, id: UserId, base: nat)
    requires forall i :: 0 <= i < |tail| ==> tail[i].id == i + base
    requires base <= id < |tail| + base
    ensures FindById(tail, id) == Some(tail[id - base])
    decreases |tail|
  {
    if tail[0].id != id {
      FindByIdShifted(tail[1..], id, base + 1);
    }
  }

  /** The largest student id in use, 0 for an empty table. */
  function MaxStudentId(rows: seq<Student>): (m: nat)
    ensures forall i :: 0 <= i < |rows| ==> rows[i].id <= m
    ensures rows == [] ==> m == 0
    ensures rows != [] ==> exists i :: 0 <= i < |rows| && rows[i].id == m
  {
    if rows == [] then 0
    else
      var rest := MaxStudentId(rows[1..]);
      if rows[0].id >= rest then rows[0].id
      else
        var j :| 0 <= j < |rows[1..]| && rows[1..][j].id == rest;
        assert rows[j + 1].id == rest;
        rest
  }

  /** The `student` table's UNIQUE constraint on `email`. */
  ghost predicate UniqueStudentEmails(rows: seq<Student>) {
    forall i, j :: 0 <= i < j < |rows| ==> rows[i].email != rows[j].email
  }

  predicate EmailUsed(rows: seq<Student>, email: string) {
    exists i :: 0 <= i < |rows| && rows[i].email == email
  }

  /**
   * The `student` table behind `db.session`: `Add` is `db.session.add` plus `commit`, `Update` is
   * assigning the columns of a loaded row plus `commit`. A commit that breaks the UNIQUE e-mail
   * constraint raises IntegrityError and stores nothing.
   */
  class StudentTable {
    var rows: seq<Student>

    ghost predicate Valid()
      reads this
    {
      UniqueStudentEmails(rows)
    }

    constructor (rows: seq<Student>)
      requires UniqueStudentEmails(rows)
      ensures Valid() && this.rows == rows
    {
      this.rows := rows;
    }

    /** Insert a row under the next free id (SQLite's `max(rowid) + 1`). */
    method Add(name: string, email: string, addressEncrypted: Option<Bytes>, grade: Option<string>)
      returns (r: Outcome<nat>)
      requires Valid()
      modifies this
      ensures Valid()
      ensures EmailUsed(old(rows), email) ==> r == Raised(IntegrityError) && rows == old(rows)
      ensures !EmailUsed(old(rows), email) ==>
                var id := MaxStudentId(old(rows)) + 1;
                r == Returned(id) && rows == old(rows) + [Student(id, name, email, addressEncrypted, grade)]
    {
      if EmailUsed(rows, email) {
        return Raised(IntegrityError);
      }
      var id := MaxStudentId(rows) + 1;
      rows := rows + [Student(id, name, email, addressEncrypted, grade)];
      r := Returned(id);
    }

    /** Overwrite the row at position `k` (the row `get_or_404` loaded) and commit. */
    method Update(k: nat, name: string, email: string, addressEncrypted: Option<Bytes>, grade: Option<string>)
      returns (r: Outcome<()>)
      requires Valid() && k < |rows|
      modifies this
      ensures Valid()
      ensures (exists i :: 0 <= i < |old(rows)| && i != k && old(rows)[i].email == email) ==>
                r == Raised(IntegrityError) && rows == old(rows)
      ensures !(exists i :: 0 <= i < |old(rows)| && i != k && old(rows)[i].email == email) ==>
                r == Returned(()) && rows == old(rows)[k := Student(old(rows)[k].id, name, email, addressEncrypted, grade)]
    {
      if exists i :: 0 <= i < |rows| && i != k && rows[i].email == email {
        return Raised(IntegrityError);
      }
      rows := rows[k := Student(rows[k].id, name, email, addressEncrypted, grade)];
      r := Returned(());
    }
  }
}
