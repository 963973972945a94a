/** The replies the handlers send: a status code and a JSON body. */
module Http {

  /** `{ error: message }`, a handler-specific payload, or no body at all (204). */
  datatype Json<+T> = ErrorJson(error: string) | Payload(value: T) | NoBody

  /**
   * `Reply` is a response the handler sends. `NoReply` is a handler whose
   * promise rejects outside any `try`: Express then sends nothing.
   */
  datatype Response<+T> = Reply(status: nat, body: Json<T>) | NoReply

  function Unauthorized<T>(): Response<T> {
    Reply(401, ErrorJson("Unauthorized"))
  }

  function BadRequest<T>(message: string): Response<T> {
    Reply(400, ErrorJson(message))
  }

  function NotFound<T>(): Response<T> {
    Reply(404, ErrorJson("Not found"))
  }

  /** What every `catch` block of the file handlers answers. */
  function InternalError<T>(): Response<T> {
    Reply(500, ErrorJson("Internal Server Error"))
  }
}
