/** The second error handler. It converts a spread copy of the error as the
    application's handler does and takes the status from that copy, but it
    reports the message and status code of the original error, nested under
    `error`. */
module SharedErrors {
  import opened Common
  import opened HttpErrors
  import Handlers

  /** `{ message, statusCode }` of the original error; an undefined field is
      `JUndefined` and is dropped when the body is serialised. */
  function ErrorDetails(err: Error): (details: Json)
    ensures details.JObj? && details.fields.Keys == {"message", "statusCode"}
    ensures details.fields["message"] == Handlers.MessageOf(err)
    ensures Handlers.StatusCodeOf(err).Some? ==> details.fields["statusCode"] == JNum(Handlers.StatusCodeOf(err).value)
    ensures Handlers.StatusCodeOf(err).None? ==> details.fields["statusCode"] == JUndefined
  {
    var statusCode := match Handlers.StatusCodeOf(err) case Some(n) => JNum(n) case None => JUndefined;
    JObj(map["message" := Handlers.MessageOf(err), "statusCode" := statusCode])
  }

  /** `errorHandler` of the shared module. The copy `{ ...err }` keeps the
      `statusCode` property, so the status is the converted error's status
      code or 500. The `|| "Internal Server Error"` applies to an object
      literal, which is always truthy. */
  function HandleError(err: Error): (r: Response)
    ensures err.JoiValidation? || err.PrismaValidation? ==> r.status == 400
    ensures err.JsonWebToken? ==> r.status == 401
    ensures (err.Http? || err.Other?) ==> r.status == Handlers.StatusOr500(Handlers.StatusCodeOf(err))
    ensures r.body.JObj? && r.body.fields.Keys == {"success", "error"}
    ensures r.body.fields["success"] == JBool(false)
    ensures r.body.fields["error"] == ErrorDetails(err)
  {
    var error := Handlers.Convert(err);
    Response(
      Handlers.StatusOr500(Handlers.StatusCodeOf(error)),
      JObj(map["success" := JBool(false), "error" := OrElse(ErrorDetails(err), JStr(Handlers.InternalServerError))]))
  }

  /** Both handlers answer with the same status for every error. */
  lemma SameStatusAsApplicationHandler(err: Error)
    ensures HandleError(err).status == Handlers.HandleError(err).status
  {
  }

  /** The fallback text never appears: `error` is always the details object. */
  lemma FallbackNeverUsed(err: Error)
    ensures HandleError(err).body.fields["error"] != JStr(Handlers.InternalServerError)
    ensures Truthy(HandleError(err).body.fields["error"])
  {
  }

  /** For a Joi error the status is 400 but the message shown is the original
      one, quotes included, and no status code is reported; the application's
      handler shows the cleaned details instead. */
  lemma JoiErrorKeepsOriginalMessage(details: seq<string>, text: string)
    ensures HandleError(JoiValidation(details, text)).status == 400
    ensures HandleError(JoiValidation(details, text)).body.fields["error"]
      == JObj(map["message" := JStr(text), "statusCode" := JUndefined])
  {
  }

  /** For a token error the status is 401 and the message is the library's own,
      not "Invalid token". */
  lemma TokenErrorKeepsOriginalMessage(text: string)
    ensures HandleError(JsonWebToken(text)).status == 401
    ensures HandleError(JsonWebToken(text)).body.fields["error"].fields["message"] == JStr(text)
  {
  }
}
