/**
 * The error middleware of the presentation layer: every error that reaches
 * it becomes one HTTP response, whose status is chosen by the error's name
 * alone and whose JSON body is `{ error: <text> }`.
 */
module ErrorHandler {
  import opened Errors

  /** The JSON body `{ error: text }`. */
  datatype ErrorBody = ErrorBody(error: string)

  /** An HTTP status and its JSON body. */
  datatype Response = Response(status: int, body: ErrorBody)

  const DefaultMessage: string := "Internal server error"

  /**
   * ValidationError gives 400, NotFoundError 404, ConflictError 409, each
   * with the message; any other error gives 500 with the message, or with a
   * generic text when the message is empty.
   */
  function HandleError(err: Error): (resp: Response)
    ensures err.name == ValidationName ==> resp == Response(400, ErrorBody(err.message))
    ensures err.name == NotFoundName ==> resp == Response(404, ErrorBody(err.message))
    ensures err.name == ConflictName ==> resp == Response(409, ErrorBody(err.message))
    ensures err.name != ValidationName && err.name != NotFoundName && err.name != ConflictName ==>
      resp.status == 500 && resp.body.error == (if err.message == "" then DefaultMessage else err.message)
  {
    if err.name == ValidationName then Response(400, ErrorBody(err.message))
    else if err.name == NotFoundName then Response(404, ErrorBody(err.message))
    else if err.name == ConflictName then Response(409, ErrorBody(err.message))
    else Response(500, ErrorBody(if err.message == "" then DefaultMessage else err.message))
  }

  /** The three tag names are different strings, so at most one branch applies. */
  lemma NamesDistinct()
    ensures ValidationName != NotFoundName && ValidationName != ConflictName && NotFoundName != ConflictName
  {
    assert ValidationName[0] == 'V' && NotFoundName[0] == 'N' && ConflictName[0] == 'C';
  }

  /** The status depends on the name only, and is one of four codes. */
  lemma StatusDependsOnlyOnName(e1: Error, e2: Error)
    requires e1.name == e2.name
    ensures HandleError(e1).status == HandleError(e2).status
    ensures HandleError(e1).status in {400, 404, 409, 500}
  {
  }

  /** Every response body is the error's own message, except a 500 for an error without one. */
  lemma BodyCarriesMessage(err: Error)
    ensures err.message != "" ==> HandleError(err).body.error == err.message
    ensures HandleError(err).body.error != ""
            || (err.message == "" && HandleError(err).status in {400, 404, 409})
  {
  }

  /** The service's tagged errors map to their statuses whatever the message. */
  lemma TaggedErrorStatuses(message: string)
    ensures HandleError(ValidationError(message)).status == 400
    ensures HandleError(NotFoundError(message)).status == 404
    ensures HandleError(ConflictError(message)).status == 409
  {
    NamesDistinct();
  }
}
