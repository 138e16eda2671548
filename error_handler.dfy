/** The application's error handler: it normalises the error kinds it knows
    into an `HttpException` and answers `{ success: false, message }`. Beside
    it, the 404 fallback route and the production handler. */
module Handlers {
  import opened Common
  import opened Strings
  import opened HttpErrors

  const InternalServerError := "Internal Server Error"
  const InvalidToken := "Invalid token"
  const OopsMessage := "Oops ! Error in Server"

  /** `err.statusCode`, where the error has one. */
  function StatusCodeOf(err: Error): Option<int> {
    match err
    case Http(e) => Some(e.statusCode)
    case Other(statusCode, _) => statusCode
    case _ => None
  }

  /** `err.message` */
  function MessageOf(err: Error): Json {
    match err
    case JoiValidation(_, text) => JStr(text)
    case JsonWebToken(text) => JStr(text)
    case PrismaValidation(text) => JStr(text)
    case Http(e) => e.message
    case Other(_, message) => message
  }

  /** `statusCode || 500`: an absent or zero status code falls back to 500. */
  function StatusOr500(statusCode: Option<int>): (status: int)
    ensures status != 0
    ensures statusCode.Some? && statusCode.value != 0 ==> status == statusCode.value
    ensures statusCode.None? || statusCode.value == 0 ==> status == 500
  {
    if statusCode.Some? && statusCode.value != 0 then statusCode.value else 500
  }

  /** One Joi detail as it is shown: every `"` removed, first letter capitalised. */
  function CleanDetail(detail: string): string {
    CapitalizeFirstLetter(RemoveAll(detail, '"'))
  }

  /** The details of a Joi error, cleaned and joined with ", ". */
  function JoiMessage(details: seq<string>): (message: string)
    ensures details == [] ==> message == ""
    ensures details != [] ==> CleanDetail(details[0]) <= message
    ensures |details| == 1 ==> message == CleanDetail(details[0])
  {
    Join(seq(|details|, i requires 0 <= i < |details| => CleanDetail(details[i])), ", ")
  }

  /** The conversion at the head of `errorHandler`: Joi errors become 400 with
      the cleaned details, token errors 401 "Invalid token", Prisma validation
      errors 400 with their newlines removed; anything else is left as it is. */
  function Convert(err: Error): (converted: Error)
    ensures err.JoiValidation? ==> converted == Throw(400, JoiMessage(err.details))
    ensures err.JsonWebToken? ==> converted == Throw(401, InvalidToken)
    ensures err.PrismaValidation? ==> converted == Throw(400, RemoveAll(err.text, '\n'))
    ensures err.Http? || err.Other? ==> converted == err
    ensures converted.Http? || converted.Other?
  {
    match err
    case JoiValidation(details, _) => Throw(400, JoiMessage(details))
    case JsonWebToken(_) => Throw(401, InvalidToken)
    case PrismaValidation(text) => Throw(400, RemoveAll(text, '\n'))
    case _ => err
  }

  /** Converting twice is converting once. */
  lemma ConvertIdempotent(err: Error)
    ensures Convert(Convert(err)) == Convert(err)
  {
  }

  /** `errorHandler`: the status is the converted error's status code or 500;
      the body is `{ success: false, message }` with "Internal Server Error" in
      place of a falsy message. */
  function HandleError(err: Error): (r: Response)
    ensures r.status == StatusOr500(StatusCodeOf(Convert(err)))
    ensures r.status != 0
    ensures r.body.JObj? && r.body.fields.Keys == {"success", "message"}
    ensures r.body.fields["success"] == JBool(false)
    ensures Truthy(r.body.fields["message"])
    ensures Truthy(MessageOf(Convert(err))) ==> r.body.fields["message"] == MessageOf(Convert(err))
    ensures !Truthy(MessageOf(Convert(err))) ==> r.body.fields["message"] == JStr(InternalServerError)
    ensures err.JoiValidation? || err.PrismaValidation? ==> r.status == 400
    ensures err.JsonWebToken? ==> r == Response(401, JObj(map["success" := JBool(false), "message" := JStr(InvalidToken)]))
    ensures err.Http? && err.exception.statusCode != 0 ==> r.status == err.exception.statusCode
    ensures StatusCodeOf(err).None? && !err.JsonWebToken? && !err.JoiValidation? && !err.PrismaValidation? ==> r.status == 500
  {
    var converted := Convert(err);
    Response(
      StatusOr500(StatusCodeOf(converted)),
      JObj(map["success" := JBool(false), "message" := OrElse(MessageOf(converted), JStr(InternalServerError))]))
  }

  /** The handler answers the same for an error and for its conversion: the
      conversion is the only thing that depends on the error's kind. */
  lemma HandleConverted(err: Error)
    ensures HandleError(Convert(err)) == HandleError(err)
  {
  }

  /** A message built from Joi details never contains a double quote, whatever
      the details hold. */
  lemma JoiMessageHasNoQuotes(details: seq<string>)
    ensures '"' !in JoiMessage(details)
  {
    var cleaned := seq(|details|, i requires 0 <= i < |details| => CleanDetail(details[i]));
    forall i | 0 <= i < |cleaned| ensures '"' !in cleaned[i] {
      CapitalizeKeepsAbsent(RemoveAll(details[i], '"'), '"');
    }
    JoinAvoids(cleaned, ", ", '"');
  }

  /** Every cleaned detail appears in the message, so none is dropped. */
  lemma JoiMessageKeepsEachDetail(details: seq<string>, i: nat)
    requires i < |details|
    ensures IsInfix(CleanDetail(details[i]), JoiMessage(details))
  {
    var cleaned := seq(|details|, j requires 0 <= j < |details| => CleanDetail(details[j]));
    JoinContainsEach(cleaned, ", ", i);
  }

  /** A Joi error answers 400 with a quote-free message. */
  lemma JoiErrorResponse(details: seq<string>, text: string)
    ensures HandleError(JoiValidation(details, text)).status == 400
    ensures '"' !in HandleError(JoiValidation(details, text)).body.fields["message"].s
  {
    JoiMessageHasNoQuotes(details);
    var r := HandleError(JoiValidation(details, text));
    if JoiMessage(details) == "" {
      var fallback := InternalServerError;
      assert '"' !in fallback by {
        forall k | 0 <= k < |fallback| ensures fallback[k] != '"' { assert fallback[k] in fallback; }
      }
    }
  }

  /** A Prisma validation error answers 400 with a message on one line. */
  lemma PrismaErrorSingleLine(text: string)
    ensures HandleError(PrismaValidation(text)).status == 400
    ensures '\n' !in HandleError(PrismaValidation(text)).body.fields["message"].s
  {
  }

  /** `notFoundApi`: the exception it passes to `next`. */
  function NotFoundApi(verb: string, originalUrl: string): (err: Error)
    ensures err.Http? && err.exception.statusCode == 404
    ensures err.exception.message.JStr? && StartsWith(err.exception.message.s, "Cannot ")
  {
    Throw(404, "Cannot " + verb + " " + originalUrl)
  }

  /** Handed to `errorHandler`, the not-found error answers 404 with its own
      message. */
  lemma NotFoundResponse(verb: string, originalUrl: string)
    ensures HandleError(NotFoundApi(verb, originalUrl))
      == Response(404, JObj(map["success" := JBool(false), "message" := JStr("Cannot " + verb + " " + originalUrl)]))
  {
  }

  /** `productionErrors`: always the same message, with the error's status
      code or 500 both as the status and in the body. */
  function ProductionErrors(err: Error): (r: Response)
    ensures r.status != 0
    ensures r.body == JObj(map["status" := JNum(r.status), "message" := JStr(OopsMessage)])
    ensures StatusCodeOf(err).Some? && StatusCodeOf(err).value != 0 ==> r.status == StatusCodeOf(err).value
    ensures StatusCodeOf(err).None? ==> r.status == 500
    ensures r.status == StatusOr500(StatusCodeOf(err))
  {
    var status := StatusOr500(StatusCodeOf(err));
    Response(status, JObj(map["status" := JNum(status), "message" := JStr(OopsMessage)]))
  }

  /** The production handler reveals nothing of the error but its status. */
  lemma ProductionErrorsHideMessage(a: Error, b: Error)
    requires StatusCodeOf(a) == StatusCodeOf(b)
    ensures ProductionErrors(a) == ProductionErrors(b)
  {
  }
}
