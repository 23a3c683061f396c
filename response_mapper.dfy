/**
 * `ResponseMapper.kt`: a Retrofit response, or an exception thrown while mapping it,
 * becomes a `Resource`; the streaming variants bracket it with Loading states.
 *
 * The mapped payload is Kotlin's nullable `O?`, so these functions produce `Resource<Option<O>>`.
 * A caller-supplied mapper may throw, so it is a function to `Outcome<O>`.
 */
module ResponseMapper {
  import opened Wrappers
  import opened Exceptions
  import opened Text
  import opened Resources
  import opened Http

  /** `UNEXPECTED_ERROR_MESSAGE` */
  const UnexpectedErrorMessage: string := "Erro inesperado"

  /** `"$UNEXPECTED_ERROR_MESSAGE: ${e.localizedMessage.orEmpty()}"` */
  function Unexpected(e: Throwable): (m: string)
    ensures m == "Erro inesperado: " + MessageOrEmpty(e)
  {
    UnexpectedErrorMessage + ": " + MessageOrEmpty(e)
  }

  /**
   * `errorMessage()`: the error body's text when there is one and it is not blank, otherwise the
   * reason phrase. Reading the error body may throw, so the result is an `Outcome`.
   */
  function ErrorMessage<T>(resp: Response<T>): (m: Outcome<string>)
    ensures resp.errorBody.Some? && resp.errorBody.value.content.Threw? ==>
              m == Threw(resp.errorBody.value.content.error)
    ensures resp.errorBody.Some? && resp.errorBody.value.content.Returned?
              && !IsBlank(resp.errorBody.value.content.value) ==>
              m == Returned(resp.errorBody.value.content.value)
    ensures (resp.errorBody.None? ||
             (resp.errorBody.value.content.Returned? && IsBlank(resp.errorBody.value.content.value))) ==>
              m == Returned(resp.message)
  {
    match resp.errorBody
    case None => Returned(resp.message)
    case Some(eb) =>
      match eb.content
      case Threw(e) => Threw(e)
      case Returned(text) => if !IsBlank(text) then Returned(text) else Returned(resp.message)
  }

  /** The extracted message is blank only when the reason phrase it fell back to is blank. */
  lemma ErrorMessageBlankOnlyFromReason<T>(resp: Response<T>)
    requires ErrorMessage(resp).Returned? && IsBlank(ErrorMessage(resp).value)
    ensures ErrorMessage(resp).value == resp.message
  {
  }

  /**
   * `mapToResource(mapper)`: success applies the mapper to the body when there is one, failure
   * carries the extracted message, and any exception becomes an "Erro inesperado" failure.
   */
  function MapToResource<R, O>(resp: Response<R>, mapper: R -> Outcome<O>): (r: Resource<Option<O>>)
    ensures IsTerminal(r)
    ensures IsSuccessful(resp.code) && resp.body.None? ==> r == Success(None)
    ensures IsSuccessful(resp.code) && resp.body.Some? && mapper(resp.body.value).Returned? ==>
              r == Success(Some(mapper(resp.body.value).value))
    ensures IsSuccessful(resp.code) && resp.body.Some? && mapper(resp.body.value).Threw? ==>
              r == Failure(Unexpected(mapper(resp.body.value).error))
    ensures !IsSuccessful(resp.code) && ErrorMessage(resp).Returned? ==>
              r == Failure(ErrorMessage(resp).value)
    ensures !IsSuccessful(resp.code) && ErrorMessage(resp).Threw? ==>
              r == Failure(Unexpected(ErrorMessage(resp).error))
  {
    if IsSuccessful(resp.code) then
      match resp.body
      case None => Success(None)
      case Some(b) =>
        match mapper(b)
        case Returned(o) => Success(Some(o))
        case Threw(e) => Failure(Unexpected(e))
    else
      match ErrorMessage(resp)
      case Returned(m) => Failure(m)
      case Threw(e) => Failure(Unexpected(e))
  }

  /** The result is a success exactly when the response is 2xx and the mapper, if applied, returned. */
  lemma MapToResourceSuccessIff<R, O>(resp: Response<R>, mapper: R -> Outcome<O>)
    ensures MapToResource(resp, mapper).Success? <==>
              IsSuccessful(resp.code) && (resp.body.None? || mapper(resp.body.value).Returned?)
  {
  }

  /** An unsuccessful response never consults the mapper. */
  lemma MapperUnusedOnFailure<R, O>(resp: Response<R>, f: R -> Outcome<O>, g: R -> Outcome<O>)
    requires !IsSuccessful(resp.code)
    ensures MapToResource(resp, f) == MapToResource(resp, g)
    ensures MapToResource(resp, f).Failure?
  {
  }

  /**
   * `withLoading()`: `onStart` emits Loading(true); `catch` turns an exception of the inner flow
   * into an "Erro inesperado" failure; `onCompletion`, downstream of `catch`, then emits Loading(false).
   */
  function WithLoading<T>(inner: FlowRun<Resource<T>>): (s: seq<Resource<T>>)
    ensures |s| >= |inner.emitted| + 2 && s[0] == Loading(true) && s[|s| - 1] == Loading(false)
    ensures s[1..|inner.emitted| + 1] == inner.emitted
    ensures inner.thrown.None? ==> s == [Loading(true)] + inner.emitted + [Loading(false)]
  {
    [Loading(true)] + inner.emitted
      + (match inner.thrown
         case None => []
         case Some(e) => [Failure(Unexpected(e))])
      + [Loading(false)]
  }

  /** `asResourceFlow(mapper)`: exactly Loading(true), the mapped resource, Loading(false). */
  function AsResourceFlow<R, O>(resp: Response<R>, mapper: R -> Outcome<O>): (s: seq<Resource<Option<O>>>)
    ensures s == [Loading(true), MapToResource(resp, mapper), Loading(false)]
    ensures Bracketed(s)
  {
    WithLoading(FlowRun([MapToResource(resp, mapper)], None))
  }

  /** `asResourceFlow(mapper: (Headers, R) -> O)`: the mapper gets the response's own headers. */
  function AsResourceFlowWithHeaders<R, O>(resp: Response<R>, mapper: (Headers, R) -> Outcome<O>)
    : (s: seq<Resource<Option<O>>>)
    ensures s == AsResourceFlow(resp, b => mapper(resp.headers, b))
    ensures Bracketed(s)
  {
    WithLoading(FlowRun([MapToResource(resp, b => mapper(resp.headers, b))], None))
  }

  /** `asResourceFlow()` without a mapper: the body itself is the payload. */
  function AsResourceFlowOfBody<T>(resp: Response<T>): (s: seq<Resource<Option<T>>>)
    ensures s == AsResourceFlow(resp, b => Returned(b))
    ensures Bracketed(s)
    ensures IsSuccessful(resp.code) ==> s[1] == Success(resp.body)
    ensures !IsSuccessful(resp.code) && ErrorMessage(resp).Returned? ==> s[1] == Failure(ErrorMessage(resp).value)
    ensures !IsSuccessful(resp.code) && ErrorMessage(resp).Threw? ==> s[1] == Failure(Unexpected(ErrorMessage(resp).error))
  {
    WithLoading(FlowRun([MapToResource(resp, b => Returned(b))], None))
  }

  /** `asResource(mapper)`: the middle element of the corresponding stream. */
  function AsResource<R, O>(resp: Response<R>, mapper: R -> Outcome<O>): (r: Resource<Option<O>>)
    ensures r == AsResourceFlow(resp, mapper)[1]
  {
    MapToResource(resp, mapper)
  }

  /** `asResource()` without a mapper: `Success(body)` for a 2xx response. */
  function AsResourceOfBody<T>(resp: Response<T>): (r: Resource<Option<T>>)
    ensures r == AsResourceFlowOfBody(resp)[1]
    ensures IsSuccessful(resp.code) ==> r == Success(resp.body)
    ensures !IsSuccessful(resp.code) && ErrorMessage(resp).Returned? ==> r == Failure(ErrorMessage(resp).value)
    ensures !IsSuccessful(resp.code) && ErrorMessage(resp).Threw? ==> r == Failure(Unexpected(ErrorMessage(resp).error))
  {
    MapToResource(resp, b => Returned(b))
  }

  /** Every stream of the mapper holds exactly one terminal state and ends at Loading(false). */
  lemma AsResourceFlowOneTerminal<R, O>(resp: Response<R>, mapper: R -> Outcome<O>)
    ensures CountTerminals(AsResourceFlow(resp, mapper)) == 1
    ensures forall i :: 0 <= i < 3 && AsResourceFlow(resp, mapper)[i] == Loading(false) ==> i == 2
  {
    BracketedHasOneTerminal(AsResourceFlow(resp, mapper));
  }

  /** An inner flow that throws after its emissions still ends in a failure then Loading(false). */
  lemma WithLoadingOnException<T>(inner: FlowRun<Resource<T>>)
    requires inner.thrown.Some?
    ensures var s := WithLoading(inner);
      |s| == |inner.emitted| + 3 && s[|s| - 2] == Failure(Unexpected(inner.thrown.value))
  {
  }
}
