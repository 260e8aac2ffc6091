/**
 * The parts of an HTTP reply the handlers decide: status code, content type
 * and the fields of the body (`Response.json({...}, {status})` or a plain-text
 * `new Response(text)`).
 */
module Http {
  import opened Users

  /** One entry of a zod validation failure, as `{ field: err.path[0], message }`. */
  datatype FieldError = FieldError(field: string, message: string)

  /** Outcome of a zod `safeParse` on a request body; the schemas themselves are not part of this model. */
  datatype Validation = Passed | Failed(issues: seq<FieldError>)

  datatype Body =
    | Outcome(success: bool, message: string)                 // { success, message }
    | StatusOutcome(status: bool, message: string)            // { status, message }: the key is `status`, not `success`
    | FieldErrors(success: bool, errors: seq<FieldError>)     // { success, errors }
    | AcceptanceFlag(success: bool, isAcceptingMessage: bool) // { success, isAcceptingMessage }
    | UpdatedUser(success: bool, message: string, updatedUser: User)
    | Text(text: string)                                      // a plain-text body

  datatype Response = Response(status: nat, contentType: string, body: Body)

  const JsonType := "application/json"
  const TextType := "text/plain"

  /** `Response.json(body, { status })`. */
  function Json(status: nat, body: Body): Response
  {
    Response(status, JsonType, body)
  }
}
