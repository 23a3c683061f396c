/**
 * `NetworkTracer.tracer`: runs an API call and turns every exception except cancellation into a
 * synthetic HTTP 500 response. Tracing spans and logging are observation only and are not modelled.
 */
module NetworkTracer {
  import opened Wrappers
  import opened Exceptions
  import opened Text
  import opened Http
  import Resources
  import ResponseMapper

  /** Body text used when the exception has no message. */
  const UnknownError: string := "Erro desconhecido"

  /** Media type of the synthetic body. */
  const PlainText: string := "text/plain"

  /** Reason phrase Retrofit's `Response.error(code, body)` gives the raw response it builds. */
  const ErrorReason: string := "Response.error()"

  /** `failure(message)`: `Response.error(500, (message ?: "Erro desconhecido") as text/plain)`. */
  function FailureResponse<R>(message: Option<string>): (r: Response<R>)
    ensures r.code == 500 && !IsSuccessful(r.code)
    ensures r.body.None?
    ensures r.errorBody == Some(ResponseBody(PlainText, Returned(message.GetOr(UnknownError))))
    ensures message.Some? ==> r.errorBody.value.content.value == message.value
    ensures message.None? ==> r.errorBody.value.content.value == "Erro desconhecido"
  {
    Response(500, ErrorReason, [], None, Some(ResponseBody(PlainText, Returned(message.GetOr(UnknownError)))))
  }

  /** `tracer(api, block)`, given what the block did. */
  function Tracer<R>(block: Outcome<Response<R>>): (r: Outcome<Response<R>>)
    ensures block.Returned? ==> r == block
    ensures block.Threw? && block.error.Cancellation? ==> r == block
    ensures block.Threw? && block.error.IO? ==> r == Returned(FailureResponse(block.error.message))
    ensures block.Threw? && !block.error.Cancellation? ==> r == Returned(FailureResponse(block.error.message))
    ensures r.Threw? <==> block.Threw? && block.error.Cancellation?
  {
    match block
    case Returned(resp) => block
    case Threw(e) =>
      match e
      case Cancellation(_) => block
      case IO(message) => Returned(FailureResponse(message))
      case _ => Returned(FailureResponse(e.message))
  }

  /** The synthetic response is never successful, so mapping it yields a failure that names the cause. */
  lemma TracedExceptionMapsToFailure<R, O>(e: Throwable, mapper: R -> Outcome<O>)
    requires !e.Cancellation?
    ensures Tracer<R>(Threw(e)).Returned?
    ensures var text := e.message.GetOr(UnknownError);
      ResponseMapper.MapToResource(Tracer<R>(Threw(e)).value, mapper)
        == Resources.Failure(if IsBlank(text) then ErrorReason else text)
  {
  }
}
