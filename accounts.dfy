/**
 * The account registry: the users table and the routes that read and write
 * it — `POST /auth/signup`, `POST /auth/login`, `GET /auth/me`,
 * `GET /auth/check`, `POST /auth/check-username`, and
 * `GET`/`PATCH /api/users/profile/:userId`.
 *
 * Text fields of a request body are strings; a field the body lacks is the
 * empty string, which JavaScript treats as falsy just like `undefined`.
 * bcrypt is foreign: the hash of a new password is a parameter, and
 * `bcrypt.compare` is a function parameter.
 */
module Accounts {
  import opened Common
  import opened Text
  import opened Sessions

  /** A row of the users table; `passwordHash` is the bcrypt hash stored in `password`. */
  datatype User = User(
    id: nat, username: string, passwordHash: string,
    firstName: string, lastName: string, studentId: string, phone: string, email: string,
    role: Role)

  /**
   * The registry invariant the routes maintain: ids are unique, and no two
   * users share a username, an e-mail address, a student id or a phone number.
   */
  predicate Unique(rows: seq<User>)
  {
    forall i, j :: 0 <= i < j < |rows| ==>
      rows[i].id != rows[j].id && rows[i].username != rows[j].username && rows[i].email != rows[j].email
      && rows[i].studentId != rows[j].studentId && rows[i].phone != rows[j].phone
  }

  /** `SELECT ... FROM users WHERE id = ?`. */
  function FindById(rows: seq<User>, id: int): (r: Option<User>)
    ensures r.None? <==> forall i :: 0 <= i < |rows| ==> rows[i].id != id
    ensures r.Some? ==> r.value in rows && r.value.id == id
  {
    if rows == [] then None
    else if rows[0].id == id then Some(rows[0])
    else
      assert forall i :: 1 <= i < |rows| ==> rows[i] == rows[1..][i - 1];
      FindById(rows[1..], id)
  }

  /** `SELECT ... FROM users WHERE username = ?`, first row. */
  function FindByUsername(rows: seq<User>, username: string): (r: Option<User>)
    ensures r.None? <==> forall i :: 0 <= i < |rows| ==> rows[i].username != username
    ensures r.Some? ==> r.value in rows && r.value.username == username
  {
    if rows == [] then None
    else if rows[0].username == username then Some(rows[0])
    else
      assert forall i :: 1 <= i < |rows| ==> rows[i] == rows[1..][i - 1];
      FindByUsername(rows[1..], username)
  }

  /*
   * Signup.
   */

  /** The body of `POST /auth/signup`. */
  datatype SignupForm = SignupForm(
    firstName: string, lastName: string, studentId: string, phone: string,
    email: string, username: string, password: string, confirmPassword: string)

  /** Why a signup is refused, in the order the route checks. */
  datatype SignupError =
    | FieldsRequired | PasswordsDiffer | NameHasDigit | BadStudentId | BadPhone | BadEmail
    | UsernameTaken | EmailTaken | StudentIdTaken | PhoneTaken

  /** Every one of the eight fields is truthy. */
  predicate AllPresent(f: SignupForm)
  {
    f.firstName != "" && f.lastName != "" && f.studentId != "" && f.phone != ""
    && f.email != "" && f.username != "" && f.password != "" && f.confirmPassword != ""
  }

  /** The format rules the server enforces on a signup with all fields present. */
  predicate WellFormedSignup(f: SignupForm)
  {
    f.password == f.confirmPassword && !ContainsDigit(f.firstName) && !ContainsDigit(f.lastName)
    && StudentIdPattern(f.studentId) && PhonePattern(f.phone) && EmailPattern(f.email)
  }

  /** The validation chain of `/signup`: the first failing check decides. */
  function SignupFormatError(f: SignupForm): (r: Option<SignupError>)
    ensures r.None? <==> AllPresent(f) && WellFormedSignup(f)
    ensures r == Some(FieldsRequired) <==> !AllPresent(f)
    ensures r == Some(PasswordsDiffer) <==> AllPresent(f) && f.password != f.confirmPassword
    ensures r.Some? ==> r.value in {FieldsRequired, PasswordsDiffer, NameHasDigit, BadStudentId, BadPhone, BadEmail}
  {
    if !AllPresent(f) then Some(FieldsRequired)
    else if f.password != f.confirmPassword then Some(PasswordsDiffer)
    else if ContainsDigit(f.firstName) || ContainsDigit(f.lastName) then Some(NameHasDigit)
    else if !StudentIdPattern(f.studentId) then Some(BadStudentId)
    else if !PhonePattern(f.phone) then Some(BadPhone)
    else if !EmailPattern(f.email) then Some(BadEmail)
    else None
  }

  /** The four uniqueness queries of `/signup`, in order. */
  function SignupTaken(rows: seq<User>, f: SignupForm): (r: Option<SignupError>)
    ensures r.None? <==> forall i :: 0 <= i < |rows| ==>
      rows[i].username != f.username && rows[i].email != f.email
      && rows[i].studentId != f.studentId && rows[i].phone != f.phone
    ensures r == Some(UsernameTaken) <==> exists i :: 0 <= i < |rows| && rows[i].username == f.username
  {
    if exists i :: 0 <= i < |rows| && rows[i].username == f.username then Some(UsernameTaken)
    else if exists i :: 0 <= i < |rows| && rows[i].email == f.email then Some(EmailTaken)
    else if exists i :: 0 <= i < |rows| && rows[i].studentId == f.studentId then Some(StudentIdTaken)
    else if exists i :: 0 <= i < |rows| && rows[i].phone == f.phone then Some(PhoneTaken)
    else None
  }

  /** The whole decision of `/signup`: the format chain, then the uniqueness chain. */
  function SignupCheck(rows: seq<User>, f: SignupForm): Option<SignupError>
  {
    if SignupFormatError(f).Some? then SignupFormatError(f) else SignupTaken(rows, f)
  }

  /** The row `/signup` inserts: the form's fields, the hash, and the role `registered`. */
  function NewUser(id: nat, f: SignupForm, hashed: string): User
  {
    User(id, f.username, hashed, f.firstName, f.lastName, f.studentId, f.phone, f.email, Registered)
  }

  /**
   * A signup is accepted exactly when every field is present, the passwords
   * agree, the formats hold and none of username, e-mail, student id and
   * phone is in use.
   */
  lemma SignupAcceptedIff(rows: seq<User>, f: SignupForm)
    ensures SignupCheck(rows, f).None? <==>
      AllPresent(f) && WellFormedSignup(f)
      && forall i :: 0 <= i < |rows| ==>
        rows[i].username != f.username && rows[i].email != f.email
        && rows[i].studentId != f.studentId && rows[i].phone != f.phone
  {
  }

  /** Appending an accepted signup's row to a registry keeps it free of duplicates. */
  lemma {:induction false} SignupKeepsUnique(rows: seq<User>, f: SignupForm, id: nat, hashed: string)
    requires Unique(rows)
    requires forall i :: 0 <= i < |rows| ==> rows[i].id < id
    requires SignupCheck(rows, f).None?
    ensures Unique(rows + [NewUser(id, f, hashed)])
  {
    var r := rows + [NewUser(id, f, hashed)];
    forall i, j | 0 <= i < j < |r|
      ensures r[i].id != r[j].id && r[i].username != r[j].username && r[i].email != r[j].email
        && r[i].studentId != r[j].studentId && r[i].phone != r[j].phone
    {
      assert r[i] == rows[i];
      if j < |rows| {
        assert r[j] == rows[j];
      } else {
        assert SignupTaken(rows, f).None?;
      }
    }
  }

  /** The body of `/signup`. */
  datatype SignupBody = SignedUp(userId: nat) | SignupRejected(error: SignupError)

  /*
   * Login and the session routes.
   */

  /** The session entry login stores: the row's fields except the phone number and the hash. */
  function SessionOf(u: User): (s: SessionUser)
    ensures s.id == u.id && s.username == u.username && s.role == u.role && s.phone.None?
  {
    SessionUser(u.id, u.username, u.role, u.firstName, u.lastName, u.studentId, u.email, None)
  }

  datatype LoginBody = LoggedIn(user: SessionUser) | CredentialsRequired | InvalidCredentials

  /**
   * `POST /auth/login`: both fields are required; an unknown username and a
   * password `verify` rejects give the same 401; a match logs the row in.
   */
  function LoginReply(rows: seq<User>, username: string, password: string,
                      verify: (string, string) -> bool): Reply<LoginBody>
  {
    if username == "" || password == "" then Reply(400, CredentialsRequired)
    else match FindByUsername(rows, username)
      case None => Reply(401, InvalidCredentials)
      case Some(u) => if !verify(password, u.passwordHash) then Reply(401, InvalidCredentials)
                      else Reply(200, LoggedIn(SessionOf(u)))
  }

  /**
   * Login succeeds exactly when some user with that username has a hash the
   * password verifies against (the first such row, usernames being unique),
   * and then the session is that user.
   */
  lemma LoginSucceedsIffCredentialsMatch(rows: seq<User>, username: string, password: string,
                                         verify: (string, string) -> bool)
    requires Unique(rows)
    ensures LoginReply(rows, username, password, verify).status == 200 <==>
      username != "" && password != ""
      && exists i :: 0 <= i < |rows| && rows[i].username == username && verify(password, rows[i].passwordHash)
    ensures LoginReply(rows, username, password, verify).status == 200 ==>
      exists i :: 0 <= i < |rows| && rows[i].username == username
        && LoginReply(rows, username, password, verify).body == LoggedIn(SessionOf(rows[i]))
  {
    var found := FindByUsername(rows, username);
    if found.Some? {
      var k :| 0 <= k < |rows| && rows[k] == found.value;
      assert forall i :: 0 <= i < |rows| && rows[i].username == username ==> i == k;
    }
  }

  /**
   * An unknown username and a wrong password cannot be told apart: both
   * give 401 with the same body.
   */
  lemma LoginHidesWhichCredentialFailed(rows: seq<User>, username: string, password: string,
                                        verify: (string, string) -> bool)
    requires username != "" && password != ""
    ensures FindByUsername(rows, username).None? ==>
      LoginReply(rows, username, password, verify) == Reply(401, InvalidCredentials)
    ensures (FindByUsername(rows, username).Some?
      && !verify(password, FindByUsername(rows, username).value.passwordHash)) ==>
      LoginReply(rows, username, password, verify) == Reply(401, InvalidCredentials)
  {
  }

  /** The body of `GET /auth/me`: the session's fields except the phone number. */
  datatype MeBody =
    | Me(id: nat, username: string, role: Role, firstName: string, lastName: string, studentId: string, email: string)
    | NotAuthenticated

  /** `GET /auth/me`. */
  function MeReply(session: Option<SessionUser>): (r: Reply<MeBody>)
    ensures r.status == 200 <==> session.Some?
    ensures session.None? ==> r == Reply(401, NotAuthenticated)
  {
    match session
    case None => Reply(401, NotAuthenticated)
    case Some(u) => Reply(200, Me(u.id, u.username, u.role, u.firstName, u.lastName, u.studentId, u.email))
  }

  /** After logging in as a row, `/auth/me` reports that row's identity and contact fields. */
  lemma MeAfterLogin(rows: seq<User>, username: string, password: string, verify: (string, string) -> bool)
    requires LoginReply(rows, username, password, verify).status == 200
    ensures var u := FindByUsername(rows, username).value;
      MeReply(Some(LoginReply(rows, username, password, verify).body.user))
        == Reply(200, Me(u.id, u.username, u.role, u.firstName, u.lastName, u.studentId, u.email))
  {
  }

  datatype CheckBody = Authorized(user: SessionUser) | NotAuthorized

  /** `GET /auth/check`: 403 unless the session user is an administrator. */
  function CheckReply(session: Option<SessionUser>): (r: Reply<CheckBody>)
    ensures r.status == 200 <==> IsAdmin(session)
    ensures r.status != 200 ==> r == Reply(403, NotAuthorized)
    ensures r.status == 200 ==> r.body == Authorized(session.value)
  {
    if session.None? || session.value.role != Administrator then Reply(403, NotAuthorized)
    else Reply(200, Authorized(session.value))
  }

  datatype UsernameBody = Exists(exists_: bool) | UsernameRequired

  /** `POST /auth/check-username`. */
  function CheckUsername(rows: seq<User>, username: string): (r: Reply<UsernameBody>)
    ensures username == "" <==> r == Reply(400, UsernameRequired)
    ensures username != "" ==> (r.status == 200 && r.body.Exists?
      && (r.body.exists_ <==> exists i :: 0 <= i < |rows| && rows[i].username == username))
  {
    if username == "" then Reply(400, UsernameRequired)
    else Reply(200, Exists(FindByUsername(rows, username).Some?))
  }

  /** A username `/check-username` reports free is one `/signup` does not refuse as taken. */
  lemma FreeUsernameIsNotTaken(rows: seq<User>, f: SignupForm)
    requires CheckUsername(rows, f.username) == Reply(200, Exists(false))
    ensures SignupTaken(rows, f) != Some(UsernameTaken)
  {
  }

  /*
   * Profile.
   */

  /** The body of `PATCH /profile/:userId`; `password` is absent when not sent. */
  datatype ProfileForm = ProfileForm(
    firstName: string, lastName: string, studentId: string, phone: string, email: string,
    password: Option<string>)

  datatype ProfileError = FirstNameHasDigit | LastNameHasDigit | BadProfileStudentId | BadProfilePhone
    | BadProfileEmail | ProfileEmailTaken | ProfileStudentIdTaken | ProfilePhoneTaken

  /** The format rules of the profile update. */
  predicate WellFormedProfile(f: ProfileForm)
  {
    !ContainsDigit(f.firstName) && !ContainsDigit(f.lastName)
    && StudentIdPattern(f.studentId) && PhonePattern(f.phone) && EmailPattern(f.email)
  }

  /** No user other than `id` holds the form's e-mail, student id or phone. */
  predicate FreeForOthers(rows: seq<User>, id: int, f: ProfileForm)
  {
    forall i :: 0 <= i < |rows| && rows[i].id != id ==>
      rows[i].email != f.email && rows[i].studentId != f.studentId && rows[i].phone != f.phone
  }

  /** The format chain, then the uniqueness queries `... AND id != ?`. */
  function ProfileCheck(rows: seq<User>, id: int, f: ProfileForm): (r: Option<ProfileError>)
    ensures r.None? <==> WellFormedProfile(f) && FreeForOthers(rows, id, f)
  {
    if ContainsDigit(f.firstName) then Some(FirstNameHasDigit)
    else if ContainsDigit(f.lastName) then Some(LastNameHasDigit)
    else if !StudentIdPattern(f.studentId) then Some(BadProfileStudentId)
    else if !PhonePattern(f.phone) then Some(BadProfilePhone)
    else if !EmailPattern(f.email) then Some(BadProfileEmail)
    else if exists i :: 0 <= i < |rows| && rows[i].id != id && rows[i].email == f.email then Some(ProfileEmailTaken)
    else if exists i :: 0 <= i < |rows| && rows[i].id != id && rows[i].studentId == f.studentId then Some(ProfileStudentIdTaken)
    else if exists i :: 0 <= i < |rows| && rows[i].id != id && rows[i].phone == f.phone then Some(ProfilePhoneTaken)
    else None
  }

  /** `password && password.trim() !== ''`: a new password was given. */
  predicate ChangesPassword(f: ProfileForm)
  {
    f.password.Some? && !IsBlank(f.password.value)
  }

  /** The row after the update: the five fields replaced, the hash replaced only for a new password. */
  function UpdatedUser(u: User, f: ProfileForm, hashed: string): User
  {
    u.(firstName := f.firstName, lastName := f.lastName, studentId := f.studentId, phone := f.phone,
       email := f.email, passwordHash := if ChangesPassword(f) then hashed else u.passwordHash)
  }

  /** `UPDATE users SET ... WHERE id = ?`. */
  function UpdateRows(rows: seq<User>, id: int, f: ProfileForm, hashed: string): (r: seq<User>)
    ensures |r| == |rows|
    ensures forall i :: 0 <= i < |rows| ==> r[i] == if rows[i].id == id then UpdatedUser(rows[i], f, hashed) else rows[i]
  {
    seq(|rows|, i requires 0 <= i < |rows| => if rows[i].id == id then UpdatedUser(rows[i], f, hashed) else rows[i])
  }

  /**
   * The update touches only the user's own row, keeps its id, username and
   * role, and changes the stored hash exactly when a non-blank password was
   * sent.
   */
  lemma UpdateTouchesOnlyOwnRow(rows: seq<User>, id: int, f: ProfileForm, hashed: string, i: int)
    requires 0 <= i < |rows|
    ensures var r := UpdateRows(rows, id, f, hashed);
      (rows[i].id != id ==> r[i] == rows[i])
      && r[i].id == rows[i].id && r[i].username == rows[i].username && r[i].role == rows[i].role
      && (rows[i].id == id ==> (r[i].passwordHash == hashed || r[i].passwordHash == rows[i].passwordHash))
      && (rows[i].id == id && !ChangesPassword(f) ==> r[i].passwordHash == rows[i].passwordHash)
      && (rows[i].id == id && ChangesPassword(f) ==> r[i].passwordHash == hashed)
  {
  }

  /** An update that passed the uniqueness checks keeps the registry free of duplicates. */
  lemma {:induction false} UpdateKeepsUnique(rows: seq<User>, id: int, f: ProfileForm, hashed: string)
    requires Unique(rows)
    requires FreeForOthers(rows, id, f)
    ensures Unique(UpdateRows(rows, id, f, hashed))
  {
    var r := UpdateRows(rows, id, f, hashed);
    forall i, j | 0 <= i < j < |r|
      ensures r[i].id != r[j].id && r[i].username != r[j].username && r[i].email != r[j].email
        && r[i].studentId != r[j].studentId && r[i].phone != r[j].phone
    {
      assert rows[i].id != rows[j].id;
      if rows[i].id == id {
        assert r[i] == UpdatedUser(rows[i], f, hashed) && r[j] == rows[j];
      } else if rows[j].id == id {
        assert r[j] == UpdatedUser(rows[j], f, hashed) && r[i] == rows[i];
      } else {
        assert r[i] == rows[i] && r[j] == rows[j];
      }
    }
  }

  /** Keeping one's own e-mail, student id and phone never trips the uniqueness checks. */
  lemma {:induction false} KeepingOwnDetailsIsAllowed(rows: seq<User>, k: int, f: ProfileForm)
    requires Unique(rows) && 0 <= k < |rows|
    requires f.email == rows[k].email && f.studentId == rows[k].studentId && f.phone == rows[k].phone
    ensures FreeForOthers(rows, rows[k].id, f)
  {
    forall i | 0 <= i < |rows| && rows[i].id != rows[k].id
      ensures rows[i].email != f.email && rows[i].studentId != f.studentId && rows[i].phone != f.phone
    {
      if i < k {
        assert rows[i].email != rows[k].email;
      } else {
        assert i != k;
        assert rows[k].email != rows[i].email;
      }
    }
  }

  datatype ProfileBody = Profile(user: User) | ProfileUpdated | LoginRequired | Forbidden
    | UserNotFound | ProfileRejected(error: ProfileError)

  /**
   * `GET /profile/:userId` behind `requireAuth`: 401 without a session, 403
   * unless the path id (`parseInt`, absent for NaN) is the session's own id,
   * 404 when the row is gone, and otherwise the whole row, hash included
   * (`SELECT *`).
   */
  function GetProfile(rows: seq<User>, session: Option<SessionUser>, pathId: Option<int>): (r: Reply<ProfileBody>)
    ensures session.None? <==> r == Reply(401, LoginRequired)
    ensures session.Some? && pathId != Some(session.value.id as int) ==> r == Reply(403, Forbidden)
    ensures r.status == 200 <==>
      session.Some? && pathId == Some(session.value.id as int) && FindById(rows, session.value.id).Some?
    ensures r.status == 200 ==> (r.body == Profile(FindById(rows, session.value.id).value)
      && r.body.user.id == session.value.id)
  {
    if session.None? then Reply(401, LoginRequired)
    else if pathId != Some(session.value.id as int) then Reply(403, Forbidden)
    else match FindById(rows, pathId.value)
      case None => Reply(404, UserNotFound)
      case Some(u) => Reply(200, Profile(u))
  }

  /** The session after a successful update: new names, student id, e-mail and phone; id, username and role kept. */
  function UpdatedSession(s: SessionUser, f: ProfileForm): SessionUser
  {
    s.(firstName := f.firstName, lastName := f.lastName, studentId := f.studentId,
       phone := Some(f.phone), email := f.email)
  }

  class UserTable {
    var rows: seq<User>
    var nextId: nat

    /** The registry has no duplicates and every id is below the next auto-increment value. */
    predicate Valid()
      reads this
    {
      Unique(rows) && forall i :: 0 <= i < |rows| ==> rows[i].id < nextId
    }

    constructor ()
      ensures Valid() && rows == [] && nextId == 1
    {
      rows := [];
      nextId := 1;
    }

    /**
     * `POST /auth/signup`: refused with 400 by the first failing check, with
     * nothing inserted; otherwise a `registered` user is inserted with the
     * hash of the password, and its new id is returned with 201.
     */
    method Signup(f: SignupForm, hashed: string) returns (reply: Reply<SignupBody>)
      requires Valid()
      modifies this
      ensures Valid()
      ensures SignupCheck(old(rows), f).Some? ==>
        reply == Reply(400, SignupRejected(SignupCheck(old(rows), f).value)) && rows == old(rows) && nextId == old(nextId)
      ensures SignupCheck(old(rows), f).None? ==>
        reply == Reply(201, SignedUp(old(nextId)))
        && rows == old(rows) + [NewUser(old(nextId), f, hashed)] && nextId == old(nextId) + 1
    {
      var err := SignupCheck(rows, f);
      if err.Some? {
        return Reply(400, SignupRejected(err.value));
      }
      SignupKeepsUnique(rows, f, nextId, hashed);
      var id := nextId;
      rows := rows + [NewUser(id, f, hashed)];
      nextId := nextId + 1;
      reply := Reply(201, SignedUp(id));
    }

    /** `POST /auth/login`: the session is set only when the credentials match. */
    method Login(session: Session, username: string, password: string, verify: (string, string) -> bool)
      returns (reply: Reply<LoginBody>)
      modifies session
      ensures reply == LoginReply(rows, username, password, verify)
      ensures reply.status == 200 ==> session.user == Some(reply.body.user)
      ensures reply.status != 200 ==> session.user == old(session.user)
    {
      reply := LoginReply(rows, username, password, verify);
      if reply.status == 200 {
        session.user := Some(reply.body.user);
      }
    }

    /**
     * `PATCH /profile/:userId`, which lacks `requireAuth`: without a session
     * reading its id throws outside the `try`, and no reply is sent (`None`).
     * Otherwise: 403 unless the path id is the session's own id; 400 from the
     * format and uniqueness chain; 404 when no row has that id; else the row
     * and the session are updated and 200 returned.
     */
    method UpdateProfile(session: Session, pathId: Option<int>, f: ProfileForm, hashed: string)
      returns (reply: Option<Reply<ProfileBody>>)
      requires Valid()
      modifies this, session
      ensures Valid() && nextId == old(nextId)
      ensures old(session.user).None? ==> reply.None?
      ensures reply.None? || reply.value.status != 200 ==> rows == old(rows) && session.user == old(session.user)
      ensures old(session.user).Some? && pathId != Some(old(session.user).value.id as int) ==>
        reply == Some(Reply(403, Forbidden))
      ensures (old(session.user).Some? && pathId == Some(old(session.user).value.id as int)
        && ProfileCheck(old(rows), pathId.value, f).Some?) ==>
        reply == Some(Reply(400, ProfileRejected(ProfileCheck(old(rows), pathId.value, f).value)))
      ensures (old(session.user).Some? && pathId == Some(old(session.user).value.id as int)
        && ProfileCheck(old(rows), pathId.value, f).None? && FindById(old(rows), pathId.value).None?) ==>
        reply == Some(Reply(404, UserNotFound))
      ensures reply.Some? && reply.value.status == 200 <==>
        old(session.user).Some? && pathId == Some(old(session.user).value.id as int)
        && ProfileCheck(old(rows), pathId.value, f).None? && FindById(old(rows), pathId.value).Some?
      ensures reply.Some? && reply.value.status == 200 ==>
        reply.value.body == ProfileUpdated
        && rows == UpdateRows(old(rows), pathId.value, f, hashed)
        && session.user == Some(UpdatedSession(old(session.user).value, f))
    {
      if session.user.None? {
        return None;
      }
      var me := session.user.value;
      if pathId != Some(me.id as int) {
        return Some(Reply(403, Forbidden));
      }
      var err := ProfileCheck(rows, pathId.value, f);
      if err.Some? {
        return Some(Reply(400, ProfileRejected(err.value)));
      }
      var affected := FindById(rows, pathId.value).Some?;
      UpdateKeepsUnique(rows, pathId.value, f, hashed);
      rows := UpdateRows(rows, pathId.value, f, hashed);
      if !affected {
        assert rows == old(rows);
        return Some(Reply(404, UserNotFound));
      }
      session.user := Some(UpdatedSession(me, f));
      reply := Some(Reply(200, ProfileUpdated));
    }
  }
}
