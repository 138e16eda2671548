/** `AuthUtil`: the password policy, hashing, password comparison and token
    generation. bcrypt, jsonwebtoken and the message texts of
    password-validator are not modelled: they are the functions of a
    `Libraries` value, about which nothing is assumed beyond what a lemma
    states as its own precondition. */
module AuthUtil {
  import opened Common
  import opened Strings
  import opened HttpErrors
  import opened UserStore

  /** The rules of the password schema. */
  datatype Rule = MinLength | MaxLength | Uppercase | Lowercase | Digits | NoSpaces

  const MinPasswordLength := 8
  const MaxPasswordLength := 100
  /** The cost factor passed to `hash`. */
  const SaltRounds := 10

  const InvalidCredentials := "Username or password is incorrect"

  predicate HasUpper(p: string) { exists i | 0 <= i < |p| :: IsUpper(p[i]) }
  predicate HasLower(p: string) { exists i | 0 <= i < |p| :: IsLower(p[i]) }
  predicate HasDigit(p: string) { exists i | 0 <= i < |p| :: IsDigit(p[i]) }
  predicate HasSpace(p: string) { exists i | 0 <= i < |p| :: IsSpace(p[i]) }

  predicate Satisfies(p: string, rule: Rule) {
    match rule
    case MinLength => |p| >= MinPasswordLength
    case MaxLength => |p| <= MaxPasswordLength
    case Uppercase => HasUpper(p)
    case Lowercase => HasLower(p)
    case Digits => HasDigit(p)
    case NoSpaces => !HasSpace(p)
  }

  /** A password that passes every rule of the schema. */
  predicate Acceptable(p: string) {
    && MinPasswordLength <= |p| <= MaxPasswordLength
    && HasUpper(p) && HasLower(p) && HasDigit(p) && !HasSpace(p)
  }

  /** `[rule]` when `p` breaks it, otherwise nothing. */
  function Check(p: string, rule: Rule): seq<Rule> {
    if Satisfies(p, rule) then [] else [rule]
  }

  /** `passwordSchema.validate(password, { details: true })` for the schema
      `.is().min(8).is().max(100).has().uppercase().has().lowercase().has().digits().has().not().spaces()`:
      every broken rule, not only the first, in the order the rules were added. */
  function Violations(p: string): (r: seq<Rule>)
    ensures forall rule :: rule in r <==> !Satisfies(p, rule)
    ensures r == [] <==> Acceptable(p)
  {
    var r := Check(p, MinLength) + Check(p, MaxLength) + Check(p, Uppercase)
      + Check(p, Lowercase) + Check(p, Digits) + Check(p, NoSpaces);
    assert forall rule :: rule in r <==> !Satisfies(p, rule) by {
      forall rule: Rule ensures rule in r <==> !Satisfies(p, rule) {
        assert rule in Check(p, rule) <==> !Satisfies(p, rule);
      }
    }
    r
  }

  /** A five-letter lower-case password breaks the length, upper-case and digit
      rules together. */
  lemma ShortLowercasePassword()
    ensures Violations("abcde") == [MinLength, Uppercase, Digits]
  {
    var p := "abcde";
    assert IsLower(p[0]);
    assert forall i | 0 <= i < |p| :: IsLower(p[i]);
    assert !HasUpper(p) && !HasDigit(p) && !HasSpace(p);
  }

  /** "Abcdef12" passes every rule. */
  lemma ExamplePasswordAcceptable()
    ensures Acceptable("Abcdef12")
  {
    var p := "Abcdef12";
    assert IsUpper(p[0]) && IsLower(p[1]) && IsDigit(p[6]);
    assert !HasSpace(p) by {
      forall i | 0 <= i < |p| ensures !IsSpace(p[i]) {
        assert p[i] in p;
      }
    }
  }

  /** A JSON web token payload: `{ id }` as the login handler signs it, or
      `{ user: { id } }` as `generateTokens` signs it. */
  datatype Payload = IdClaim(id: UserId) | UserClaim(id: UserId)

  /** `decoded.id`: undefined for the nested form. */
  function DecodedId(p: Payload): Option<UserId> {
    match p
    case IdClaim(id) => Some(id)
    case UserClaim(_) => None
  }

  /** The library functions the core calls. `verify` fails with the message of
      the `JsonWebTokenError` it throws; it also stands for the clock, as it
      rejects expired tokens. */
  datatype Libraries = Libraries(
    hash: (string, nat) -> string,
    compare: (string, string) -> bool,
    sign: (Payload, string, string) -> string,
    verify: (string, string) -> Result<Payload, string>,
    ruleMessage: Rule -> string)

  /** JWT_SECRET, JWT_EXPIRES_IN, JWT_REFRESH_SECRET, JWT_REFRESH_EXPIRES_IN */
  datatype Config = Config(
    jwtSecret: string,
    jwtExpiresIn: string,
    jwtRefreshSecret: string,
    jwtRefreshExpiresIn: string)

  /** `result.map((e) => e.message)` */
  function RuleMessages(libs: Libraries, rules: seq<Rule>): (r: seq<string>)
    ensures |r| == |rules|
    ensures forall i :: 0 <= i < |rules| ==> r[i] == libs.ruleMessage(rules[i])
  {
    seq(|rules|, i requires 0 <= i < |rules| => libs.ruleMessage(rules[i]))
  }

  /** The aggregated policy message: every violation's message joined with ", ". */
  function PolicyMessage(libs: Libraries, p: string): (message: string)
    ensures Acceptable(p) ==> message == ""
    ensures |Violations(p)| == 1 ==> message == libs.ruleMessage(Violations(p)[0])
    ensures !Acceptable(p) ==> libs.ruleMessage(Violations(p)[0]) <= message
  {
    Join(RuleMessages(libs, Violations(p)), ", ")
  }

  /** `checkPasswordAndHash`: a policy violation throws 400 with the aggregated
      message; an acceptable password is hashed with cost 10. */
  function CheckPasswordAndHash(libs: Libraries, password: string): (r: Result<string, Error>)
    ensures r.Success? <==> Acceptable(password)
    ensures r.Success? ==> r.value == libs.hash(password, SaltRounds)
    ensures r.Failure? ==> r.error == Throw(400, PolicyMessage(libs, password))
  {
    var violations := Violations(password);
    if |violations| > 0 then Failure(Throw(400, PolicyMessage(libs, password)))
    else Success(libs.hash(password, SaltRounds))
  }

  /** The failure message names every rule the password breaks. */
  lemma PolicyMessageNamesEveryViolation(libs: Libraries, password: string, rule: Rule)
    requires !Satisfies(password, rule)
    ensures CheckPasswordAndHash(libs, password).Failure?
    ensures IsInfix(libs.ruleMessage(rule), PolicyMessage(libs, password))
  {
    var violations := Violations(password);
    assert rule in violations;
    var i :| 0 <= i < |violations| && violations[i] == rule;
    JoinContainsEach(RuleMessages(libs, violations), ", ", i);
  }

  /** `matchPasswords`: true when `compare` succeeds, otherwise 401 with the
      generic credentials message. */
  function MatchPasswords(libs: Libraries, password: string, hashed: string): (r: Result<bool, Error>)
    ensures r.Success? <==> libs.compare(password, hashed)
    ensures r.Success? ==> r.value
    ensures r.Failure? ==> r.error == Throw(401, InvalidCredentials)
  {
    var isPasswordMatch := libs.compare(password, hashed);
    if !isPasswordMatch then Failure(Throw(401, InvalidCredentials)) else Success(isPasswordMatch)
  }

  /** What `checkPasswordAndHash` stores is accepted by `matchPasswords` for the
      same password, given only that `compare` recognises `hash`. */
  lemma HashedPasswordMatches(libs: Libraries, password: string)
    requires Acceptable(password)
    requires libs.compare(password, libs.hash(password, SaltRounds))
    ensures CheckPasswordAndHash(libs, password).Success?
    ensures MatchPasswords(libs, password, CheckPasswordAndHash(libs, password).value) == Success(true)
  {
  }

  datatype Tokens = Tokens(accessToken: string, refreshToken: string)

  /** `generateTokens` as written: both tokens carry `{ user: { id } }`. */
  function GenerateTokens(libs: Libraries, config: Config, id: UserId): (tokens: Tokens)
    ensures tokens.accessToken == libs.sign(UserClaim(id), config.jwtSecret, config.jwtExpiresIn)
    ensures tokens.refreshToken == libs.sign(UserClaim(id), config.jwtRefreshSecret, config.jwtRefreshExpiresIn)
  {
    Tokens(
      libs.sign(UserClaim(id), config.jwtSecret, config.jwtExpiresIn),
      libs.sign(UserClaim(id), config.jwtRefreshSecret, config.jwtRefreshExpiresIn))
  }

  /** The two tokens with the payload the route guard reads, `{ id }`: what the
      login handler signs, and what `generateTokens` would sign for the guard
      to accept its tokens. */
  function GenerateIdTokens(libs: Libraries, config: Config, id: UserId): (tokens: Tokens)
    ensures tokens.accessToken == libs.sign(IdClaim(id), config.jwtSecret, config.jwtExpiresIn)
    ensures tokens.refreshToken == libs.sign(IdClaim(id), config.jwtRefreshSecret, config.jwtRefreshExpiresIn)
  {
    Tokens(
      libs.sign(IdClaim(id), config.jwtSecret, config.jwtExpiresIn),
      libs.sign(IdClaim(id), config.jwtRefreshSecret, config.jwtRefreshExpiresIn))
  }
}
