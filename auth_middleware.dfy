/** The route guard `protect`: reads a bearer token from the Authorization
    header, verifies it with the access-token secret, looks up the user whose id
    the token carries and attaches that user to the request. */
module AuthMiddleware {
  import opened Common
  import opened Strings
  import opened HttpErrors
  import opened UserStore
  import opened AuthUtil

  const NotAuthorized := "Not authorized to access this route"
  const UserNotFound := "User not found"

  /** `token` after the header check: the second space-separated field of a
      header that starts with "Bearer"; `None` where `token` is left undefined
      or is the empty string. */
  function BearerToken(authorization: Option<string>): (token: Option<string>)
    ensures token.Some? ==> token.value != "" && ' ' !in token.value
    ensures token.Some? ==> authorization.Some? && StartsWith(authorization.value, "Bearer")
  {
    match authorization
    case None => None
    case Some(header) =>
      if header != "" && StartsWith(header, "Bearer") then
        var fields := Split(header, ' ');
        if |fields| > 1 && fields[1] != "" then Some(fields[1]) else None
      else None
  }

  /** A header `pre + " " + token + post`, where `pre` starts with "Bearer" and
      holds no space and `post` is empty or starts with a space, yields `token`. */
  lemma BearerTokenIsSecondField(pre: string, token: string, post: string)
    requires StartsWith(pre, "Bearer") && ' ' !in pre
    requires token != "" && ' ' !in token
    requires post == "" || post[0] == ' '
    ensures BearerToken(Some(pre + " " + token + post)) == Some(token)
  {
    var header := pre + " " + token + post;
    assert header == pre + [' '] + (token + post);
    SplitField(pre, token + post, ' ');
    SplitPrefix(token, post, ' ');
    if post == "" {
      assert Split(post, ' ')[0] == "";
    } else {
      assert post == [' '] + post[1..];
      assert Split(post, ' ') == [""] + Split(post[1..], ' ');
    }
    assert token + "" == token;
    assert Split(header, ' ')[1] == token;
    assert StartsWith(header, "Bearer") by {
      assert header[..|pre|] == pre;
    }
  }

  /** Conversely, every token the guard accepts is the second field of such a
      header. */
  lemma BearerTokenShape(header: string, token: string) returns (pre: string, post: string)
    requires BearerToken(Some(header)) == Some(token)
    ensures header == pre + " " + token + post
    ensures StartsWith(pre, "Bearer") && ' ' !in pre
    ensures post == "" || post[0] == ' '
  {
    var fields := Split(header, ' ');
    JoinSplit(header, ' ');
    pre := fields[0];
    var tail := Join(fields[1..], " ");
    assert header == pre + " " + tail;
    if |fields| == 2 {
      post := "";
      assert tail == token;
    } else {
      assert fields[1..][1..] == fields[2..];
      post := " " + Join(fields[2..], " ");
      assert tail == token + post;
    }
    assert header == pre + " " + token + post;
    assert StartsWith(pre, "Bearer") by {
      var bearer := "Bearer";
      assert forall k | 0 <= k < |bearer| :: header[k] == bearer[k] && bearer[k] != ' ';
      assert header[|pre|] == ' ';
      assert |pre| >= |bearer|;
      assert pre[..6] == header[..6];
    }
  }

  /** "Bearer" alone leaves `token` undefined. */
  lemma BearerAloneRejected()
    ensures BearerToken(Some("Bearer")) == None
  {
  }

  /** "Bearer" followed by two spaces makes `token` the empty string. */
  lemma DoubleSpaceRejected(token: string)
    ensures BearerToken(Some("Bearer  " + token)) == None
  {
    var bearer := "Bearer";
    assert ' ' !in bearer by {
      forall i | 0 <= i < |bearer| ensures bearer[i] != ' ' { assert bearer[i] in bearer; }
    }
    var rest := " " + token;
    assert "Bearer  " + token == bearer + [' '] + rest;
    SplitField(bearer, rest, ' ');
    assert rest == [' '] + token;
    assert Split(rest, ' ') == [""] + Split(token, ' ');
  }

  /** The prefix test does not require a space after "Bearer": a header such
      as "Bearerxyz abc" passes it. */
  lemma GluedPrefixAccepted()
    ensures BearerToken(Some("Bearerxyz abc")) == Some("abc")
  {
    var xyz := "Bearerxyz";
    assert ' ' !in xyz by {
      forall i | 0 <= i < |xyz| ensures xyz[i] != ' ' { assert xyz[i] in xyz; }
    }
    var abc := "abc";
    assert ' ' !in abc by {
      forall i | 0 <= i < |abc| ensures abc[i] != ' ' { assert abc[i] in abc; }
    }
    assert StartsWith(xyz, "Bearer");
    assert "Bearerxyz abc" == xyz + " " + abc + "";
    BearerTokenIsSecondField(xyz, abc, "");
  }

  /** The decisions of `protect`: a missing or malformed header gives 401, a
      token `verify` rejects propagates as a `JsonWebTokenError`, a token whose
      `decoded.id` finds no row gives 404, otherwise the first row matching
      `{ id: decoded.id }`. */
  function Authenticate(authorization: Option<string>, rows: seq<User>, libs: Libraries, config: Config): (r: Result<User, Error>)
    ensures BearerToken(authorization).None? ==> r == Failure(Throw(401, NotAuthorized))
    ensures BearerToken(authorization).Some? && libs.verify(BearerToken(authorization).value, config.jwtSecret).Failure? ==>
      r == Failure(JsonWebToken(libs.verify(BearerToken(authorization).value, config.jwtSecret).error))
    ensures r.Success? ==>
      && BearerToken(authorization).Some?
      && libs.verify(BearerToken(authorization).value, config.jwtSecret).Success?
      && r.value in rows
      && Matches(r.value, Where(DecodedId(libs.verify(BearerToken(authorization).value, config.jwtSecret).value), map[]))
    ensures BearerToken(authorization).Some? && libs.verify(BearerToken(authorization).value, config.jwtSecret).Success? ==>
      r == match FindFirst(rows, Where(DecodedId(libs.verify(BearerToken(authorization).value, config.jwtSecret).value), map[]))
           case None => Failure(Throw(404, UserNotFound))
           case Some(u) => Success(u)
    ensures r.Failure? ==> r.error in {Throw(401, NotAuthorized), Throw(404, UserNotFound)} || r.error.JsonWebToken?
  {
    match BearerToken(authorization)
    case None => Failure(Throw(401, NotAuthorized))
    case Some(token) =>
      match libs.verify(token, config.jwtSecret)
      case Failure(message) => Failure(JsonWebToken(message))
      case Success(decoded) =>
        match FindFirst(rows, Where(DecodedId(decoded), map[]))
        case None => Failure(Throw(404, UserNotFound))
        case Some(user) => Success(user)
  }

  /** The request as the guard sees it: its Authorization header, and the
      `user` property the guard sets. */
  class Request {
    const authorization: Option<string>
    var user: Option<User>

    constructor (authorization: Option<string>)
      ensures this.authorization == authorization && user.None?
    {
      this.authorization := authorization;
      user := None;
    }
  }

  /** How the guard hands over: `next()` once, or the thrown error, which the
      async wrapper passes on as `next(error)`. */
  datatype Outcome = Proceed | Reject(error: Error)

  /** `protect`: on success `req.user` is the user found and `next` is called;
      on any failure `req.user` is untouched and the error is passed on. */
  method Protect(req: Request, users: UserTable, libs: Libraries, config: Config) returns (outcome: Outcome)
    modifies req
    ensures Authenticate(req.authorization, users.rows, libs, config).Success? ==>
      outcome == Proceed && req.user == Some(Authenticate(req.authorization, users.rows, libs, config).value)
    ensures Authenticate(req.authorization, users.rows, libs, config).Failure? ==>
      outcome == Reject(Authenticate(req.authorization, users.rows, libs, config).error) && req.user == old(req.user)
  {
    var token := BearerToken(req.authorization);
    if token.None? {
      return Reject(Throw(401, NotAuthorized));
    }
    var decoded := libs.verify(token.value, config.jwtSecret);
    if decoded.Failure? {
      return Reject(JsonWebToken(decoded.error));
    }
    var user := FindFirst(users.rows, Where(DecodedId(decoded.value), map[]));
    if user.None? {
      return Reject(Throw(404, UserNotFound));
    }
    req.user := user;
    return Proceed;
  }
}
