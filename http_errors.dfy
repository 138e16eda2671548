/** `HttpException` and the kinds of error that reach the error handlers. */
module HttpErrors {
  import opened Common

  /** `new HttpException(statusCode, message)`: the message may be a string or
      any object (the duplicate-field map, the policy envelope). */
  datatype HttpException = HttpException(statusCode: int, message: Json)

  /** What a handler can throw, by the class the error handlers test for. */
  datatype Error =
      /** `Joi.ValidationError`: one message per violated constraint, and the
          error's own `message`. */
    | JoiValidation(details: seq<string>, text: string)
      /** `JsonWebTokenError` and its subclasses (for one, an expired token). */
    | JsonWebToken(text: string)
      /** `PrismaClientValidationError` */
    | PrismaValidation(text: string)
    | Http(exception: HttpException)
      /** Anything else: its `statusCode` property, if any, and its `message`. */
    | Other(statusCode: Option<int>, message: Json)

  /** `res.status(status).json(body)` */
  datatype Response = Response(status: int, body: Json)

  /** `new HttpException(statusCode, text)` as a thrown error. */
  function Throw(statusCode: int, text: string): Error {
    Http(HttpException(statusCode, JStr(text)))
  }
}
