/** `AuthService`: registration behind the request validator. It checks that
    the email and the username are free, that the two passwords agree and that
    the password meets the policy, in that order, and only then inserts one row
    holding the hashed password. */
module AuthService {
  import opened Common
  import opened HttpErrors
  import opened UserStore
  import opened AuthUtil

  /** The fields `createUser` reads from its payload (the register schema
      requires each of them as a string). */
  datatype RegisterPayload = RegisterPayload(
    email: string,
    password: string,
    confirmPassword: string,
    username: string,
    name: string)

  const AlreadyTaken := JArr([JStr("has already been taken")])
  const PasswordsDoNotMatch := "Passwords do not match"

  /** The `errors` object of the 422: one key per field that is taken. */
  function DuplicateFields(emailTaken: bool, usernameTaken: bool): (fields: map<string, Json>)
    ensures "email" in fields <==> emailTaken
    ensures "username" in fields <==> usernameTaken
    ensures forall k :: k in fields ==> (k == "email" || k == "username") && fields[k] == AlreadyTaken
  {
    var withEmail: map<string, Json> := if emailTaken then map["email" := AlreadyTaken] else map[];
    if usernameTaken then withEmail["username" := AlreadyTaken] else withEmail
  }

  function DuplicateUserError(emailTaken: bool, usernameTaken: bool): Error {
    Http(HttpException(422, JObj(map["errors" := JObj(DuplicateFields(emailTaken, usernameTaken))])))
  }

  /** The row `createUser` inserts: no plaintext password, no confirmation. */
  function NewUserData(p: RegisterPayload, hashedPassword: string): (data: map<string, string>)
    ensures data.Keys == {"email", "password", "username", "name"}
    ensures data["email"] == p.email && data["username"] == p.username && data["name"] == p.name
    ensures data["password"] == hashedPassword
  {
    map["email" := p.email, "password" := hashedPassword, "username" := p.username, "name" := p.name]
  }

  /** What `createUser` decides on a table: the row to insert, or the error it
      throws. */
  function CreateUserOutcome(rows: seq<User>, p: RegisterPayload, libs: Libraries): (r: Result<map<string, string>, Error>)
    ensures r.Success? ==> !Collides(rows, r.value)
    ensures r.Success? ==> r.value == NewUserData(p, libs.hash(p.password, SaltRounds))
    ensures r.Failure? ==> r.error.Http?
  {
    var emailTaken := Taken(rows, "email", p.email);
    var usernameTaken := Taken(rows, "username", p.username);
    if emailTaken || usernameTaken then Failure(DuplicateUserError(emailTaken, usernameTaken))
    else if p.password != p.confirmPassword then Failure(Throw(400, PasswordsDoNotMatch))
    else match CheckPasswordAndHash(libs, p.password)
      case Failure(e) => Failure(e)
      case Success(hashed) => Success(NewUserData(p, hashed))
  }

  /** The order of the checks: a duplicate is reported before a mismatch or a
      policy violation, and lists every taken field; a mismatch is reported
      before a policy violation; only a payload that passes all three is
      inserted, with its password hashed. */
  lemma {:induction false} CreateUserChecksInOrder(rows: seq<User>, p: RegisterPayload, libs: Libraries)
    ensures var r := CreateUserOutcome(rows, p, libs);
      && (Taken(rows, "email", p.email) || Taken(rows, "username", p.username) <==>
           r.Failure? && r.error.Http? && r.error.exception.statusCode == 422)
      && (r.Failure? && r.error.Http? && r.error.exception.statusCode == 422 ==>
           r.error.exception.message.JObj? && "errors" in r.error.exception.message.fields
           && r.error.exception.message.fields["errors"] == JObj(DuplicateFields(Taken(rows, "email", p.email), Taken(rows, "username", p.username))))
      && (!Taken(rows, "email", p.email) && !Taken(rows, "username", p.username) && p.password != p.confirmPassword ==>
           r == Failure(Throw(400, PasswordsDoNotMatch)))
      && (!Taken(rows, "email", p.email) && !Taken(rows, "username", p.username)
           && p.password == p.confirmPassword && !Acceptable(p.password) ==>
           r == Failure(Throw(400, PolicyMessage(libs, p.password))))
      && (r.Success? <==>
           !Taken(rows, "email", p.email) && !Taken(rows, "username", p.username)
           && p.password == p.confirmPassword && Acceptable(p.password))
      && (r.Success? ==> r.value == NewUserData(p, libs.hash(p.password, SaltRounds)))
  {
  }

  class AuthService {
    const authUtil: Libraries
    const users: UserTable

    constructor (authUtil: Libraries, users: UserTable)
      ensures this.authUtil == authUtil && this.users == users
    {
      this.authUtil := authUtil;
      this.users := users;
    }

    /** `checkUserUniqueness`: both lookups run, then a single 422 names every
        field that is taken. */
    method CheckUserUniqueness(email: string, username: string) returns (r: Option<Error>)
      ensures r.None? <==> !Taken(users.rows, "email", email) && !Taken(users.rows, "username", username)
      ensures r.Some? ==> r.value == DuplicateUserError(Taken(users.rows, "email", email), Taken(users.rows, "username", username))
    {
      var existingUserByEmail := users.FindUnique("email", email);
      var existingUserByUsername := users.FindUnique("username", username);
      if existingUserByEmail.Some? || existingUserByUsername.Some? {
        return Some(DuplicateUserError(existingUserByEmail.Some?, existingUserByUsername.Some?));
      }
      return None;
    }

    /** `createUser`: the table is unchanged on every failure; on success it
        gains exactly the row `CreateUserOutcome` describes, with a fresh id. */
    method CreateUser(payload: RegisterPayload) returns (r: Option<Error>)
      requires users.Valid()
      modifies users
      ensures users.Valid()
      ensures r.Some? ==> CreateUserOutcome(old(users.rows), payload, authUtil) == Failure(r.value)
      ensures r.Some? ==> users.rows == old(users.rows) && users.nextId == old(users.nextId)
      ensures r.None? ==> CreateUserOutcome(old(users.rows), payload, authUtil).Success?
      ensures r.None? ==> users.rows == old(users.rows) + [User(old(users.nextId), CreateUserOutcome(old(users.rows), payload, authUtil).value)]
    {
      r := CheckUserUniqueness(payload.email, payload.username);
      if r.Some? {
        return;
      }
      if payload.password != payload.confirmPassword {
        return Some(Throw(400, PasswordsDoNotMatch));
      }
      var hashed := CheckPasswordAndHash(authUtil, payload.password);
      if hashed.Failure? {
        return Some(hashed.error);
      }
      var created := users.Create(NewUserData(payload, hashed.value));
      return None;
    }
  }
}
