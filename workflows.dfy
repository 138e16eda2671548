/** Properties that span several modules: a registered user can log in, a
    login token passes the route guard, and the two places where the modules
    disagree. */
module Workflows {
  import opened Common
  import opened Strings
  import opened HttpErrors
  import opened UserStore
  import opened AuthUtil
  import opened AuthService
  import opened AuthController
  import opened AuthMiddleware
  import Handlers

  /** The row `createUser` inserts can log in with the password it was
      registered with, given only that `compare` recognises `hash`. */
  lemma RegisterThenLogin(rows: seq<User>, nextId: UserId, p: RegisterPayload, libs: Libraries, config: Config)
    requires WellFormed(rows, nextId)
    requires CreateUserOutcome(rows, p, libs).Success?
    requires libs.compare(p.password, libs.hash(p.password, SaltRounds))
    ensures Login(rows + [User(nextId, CreateUserOutcome(rows, p, libs).value)], map["email" := p.email, "password" := p.password], libs, config)
      == Success(Response(200, LoginBody(libs, config, nextId)))
  {
    CreateUserChecksInOrder(rows, p, libs);
    var data := CreateUserOutcome(rows, p, libs).value;
    var table := rows + [User(nextId, data)];
    var body := map["email" := p.email, "password" := p.password];
    var w := AndColumn(Everything, "email", Lookup(body, "email"));
    assert w.columns == map["email" := p.email];
    forall j | 0 <= j < |rows| ensures !Matches(table[j], w) {
      assert table[j] == rows[j];
      assert !HasValue(rows[j], "email", p.email);
    }
    assert Matches(table[|rows|], w);
    FindFirstIsFirst(table, w, |rows|);
  }

  /** A bearer header `"Bearer " + token` reaches the user the token names,
      when `verify` returns the payload the token was signed with. */
  lemma IdTokenReachesItsOwner(rows: seq<User>, nextId: UserId, i: nat, libs: Libraries, config: Config)
    requires WellFormed(rows, nextId) && i < |rows|
    requires var token := GenerateIdTokens(libs, config, rows[i].id).accessToken;
      libs.verify(token, config.jwtSecret) == Success(IdClaim(rows[i].id)) && token != "" && ' ' !in token
    ensures Authenticate(Some("Bearer " + GenerateIdTokens(libs, config, rows[i].id).accessToken), rows, libs, config) == Success(rows[i])
  {
    var token := GenerateIdTokens(libs, config, rows[i].id).accessToken;
    BearerPrefix();
    assert "Bearer " + token == "Bearer" + " " + token + "";
    BearerTokenIsSecondField("Bearer", token, "");
    FindById(rows, nextId, i);
  }

  /** "Bearer" holds no space and starts with itself. */
  lemma BearerPrefix()
    ensures ' ' !in "Bearer" && StartsWith("Bearer", "Bearer")
  {
  }

  /** The access token of a successful login passes the route guard and
      attaches the user who logged in. */
  lemma LoginTokenPassesGuard(rows: seq<User>, nextId: UserId, i: nat, libs: Libraries, config: Config)
    requires WellFormed(rows, nextId) && i < |rows|
    requires var token := LoginBody(libs, config, rows[i].id).fields["access_token"].s;
      libs.verify(token, config.jwtSecret) == Success(IdClaim(rows[i].id)) && token != "" && ' ' !in token
    ensures Authenticate(Some("Bearer " + LoginBody(libs, config, rows[i].id).fields["access_token"].s), rows, libs, config) == Success(rows[i])
  {
    IdTokenReachesItsOwner(rows, nextId, i, libs, config);
  }

  /** As written, `generateTokens` signs `{ user: { id } }`, which has no `id`
      at the top; the guard's lookup then has no condition and attaches the
      first user of the table, whoever the token was issued to. */
  lemma GeneratedTokenReachesFirstUser(rows: seq<User>, id: UserId, libs: Libraries, config: Config)
    requires |rows| > 0
    requires var token := GenerateTokens(libs, config, id).accessToken;
      libs.verify(token, config.jwtSecret) == Success(UserClaim(id)) && token != "" && ' ' !in token
    ensures Authenticate(Some("Bearer " + GenerateTokens(libs, config, id).accessToken), rows, libs, config) == Success(rows[0])
  {
    var token := GenerateTokens(libs, config, id).accessToken;
    BearerPrefix();
    assert "Bearer " + token == "Bearer" + " " + token + "";
    BearerTokenIsSecondField("Bearer", token, "");
    FindFirstIsFirst(rows, Where(None, map[]), 0);
  }

  /** A concrete instance: a token issued to user 1 authenticates as user 0. */
  lemma GeneratedTokenForSecondUser()
    ensures var libs := Libraries(
        (p, rounds) => p,
        (p, h) => p == h,
        (payload, secret, ttl) => "t",
        (token, secret) => if token == "t" then Success(UserClaim(1)) else Failure("invalid token"),
        rule => "");
      var config := Config("secret", "1h", "refresh", "7d");
      var rows := [User(0, map["email" := "a@x"]), User(1, map["email" := "b@x"])];
      Authenticate(Some("Bearer " + GenerateTokens(libs, config, 1).accessToken), rows, libs, config) == Success(rows[0])
  {
    var libs := Libraries(
        (p, rounds) => p,
        (p, h) => p == h,
        (payload, secret, ttl) => "t",
        (token, secret) => if token == "t" then Success(UserClaim(1)) else Failure("invalid token"),
        rule => "");
    var config := Config("secret", "1h", "refresh", "7d");
    var rows := [User(0, map["email" := "a@x"]), User(1, map["email" := "b@x"])];
    assert GenerateTokens(libs, config, 1).accessToken == "t";
    assert ' ' !in "t";
    GeneratedTokenReachesFirstUser(rows, 1, libs, config);
  }

  /** As written, `regiter` looks for a row with both the email and the
      username. A body that repeats only the email of an existing user passes
      every check and reaches the insert, where the unique constraint on
      `email` rejects it; the error handler does not recognise that error and
      answers it with 500. */
  lemma PartialDuplicateReachesInsert(rows: seq<User>, nextId: UserId, i: nat, body: map<string, string>, libs: Libraries)
    requires WellFormed(rows, nextId) && i < |rows|
    requires "email" in body && "username" in body && "password" in body && "coniformPassword" in body
    requires HasValue(rows[i], "email", body["email"]) && "username" in rows[i].data && rows[i].data["username"] != body["username"]
    requires body["password"] == body["coniformPassword"] && Acceptable(body["password"])
    ensures RegisterCheck(rows, body, libs).None?
    ensures Collides(rows, body)
    ensures Handlers.HandleError(UniqueConstraintFailed).status == 500
  {
    RegisterDuplicateNeedsBothFields(rows, body, libs);
    forall j | 0 <= j < |rows| && HasValue(rows[j], "email", body["email"])
      ensures !HasValue(rows[j], "username", body["username"])
    {
      assert j == i by {
        assert UniqueOn(rows, "email");
      }
    }
  }

  /** `createUser` handles the same request: the taken email is reported as a
      422 naming `email`, before anything is inserted. */
  lemma ServiceReportsPartialDuplicate(rows: seq<User>, i: nat, p: RegisterPayload, libs: Libraries)
    requires i < |rows| && HasValue(rows[i], "email", p.email)
    ensures CreateUserOutcome(rows, p, libs).Failure?
    ensures var e := CreateUserOutcome(rows, p, libs).error;
      e.Http? && e.exception.statusCode == 422
      && e.exception.message.JObj? && "errors" in e.exception.message.fields
      && e.exception.message.fields["errors"].JObj? && "email" in e.exception.message.fields["errors"].fields
  {
  }
}
