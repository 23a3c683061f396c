/**
 * `ServiceManager.kt`: the façade's `safeApiFlow` emission sequence and `ping`.
 * The connectivity answer (`network.isUnavailable.first()`) and the API call's outcome are inputs.
 */
module ServiceManager {
  import opened Wrappers
  import opened Exceptions
  import opened Resources
  import opened Http

  const NoConnection: string := "Sem conex\U{E3}o com a internet"

  /** The message `safeApiFlow` puts in the failure for a caught exception. */
  function CaughtMessage(e: Throwable): (m: string)
    ensures e.IO? || e.Http? ==> m == MessageOrEmpty(e)
    ensures !e.IO? && !e.Http? ==> m == "Erro inesperado: " + MessageOrEmpty(e)
  {
    match e
    case IO(_) => MessageOrEmpty(e)
    case Http(_) => MessageOrEmpty(e)
    case _ => "Erro inesperado: " + MessageOrEmpty(e)
  }

  /**
   * `safeApiFlow(label, call)`: emits step by step; `called` records whether `call()` ran.
   * When offline it emits one failure and returns early; otherwise the `finally` block
   * guarantees the closing Loading(false).
   */
  method SafeApiFlow<T>(unavailable: bool, call: Outcome<T>) returns (emitted: seq<Resource<T>>, called: bool)
    ensures unavailable ==> emitted == [Failure(NoConnection)] && !called
    ensures !unavailable ==> called && Bracketed(emitted)
    ensures !unavailable && call.Returned? ==> emitted == [Loading(true), Success(call.value), Loading(false)]
    ensures !unavailable && call.Threw? ==> emitted == [Loading(true), Failure(CaughtMessage(call.error)), Loading(false)]
  {
    emitted, called := [], false;
    if unavailable {
      emitted := emitted + [Failure(NoConnection)];
      return;
    }
    emitted := emitted + [Loading(true)];
    called := true;
    match call {
      case Returned(v) =>
        emitted := emitted + [Success(v)];
      case Threw(e) =>
        emitted := emitted + [Failure(CaughtMessage(e))];
    }
    emitted := emitted + [Loading(false)];
  }

  datatype PongResponse = PongResponse(result: string, success: string)
  datatype Pong = Pong(result: string, success: string)

  /** `PongMapper.asModel()`: a field-by-field copy. */
  function AsModel(r: PongResponse): (p: Pong)
    ensures p.result == r.result && p.success == r.success
  {
    Pong(r.result, r.success)
  }

  /**
   * The block `ping` hands to `safeApiFlow`: a 2xx response yields its body as a `Pong` (an absent
   * body fails the `!!` with a message-less NullPointerException); any other response throws an
   * `HttpException`, whose message Retrofit formats (`httpMessage`). Exceptions of the API call
   * itself propagate.
   */
  function PingCall(api: Outcome<Response<PongResponse>>, httpMessage: Response<PongResponse> -> string)
    : (o: Outcome<Pong>)
    ensures api.Threw? ==> o == Threw(api.error)
    ensures api.Returned? && IsSuccessful(api.value.code) && api.value.body.Some? ==>
              o == Returned(AsModel(api.value.body.value))
    ensures api.Returned? && IsSuccessful(api.value.code) && api.value.body.None? ==> o == Threw(Other(None))
    ensures api.Returned? && !IsSuccessful(api.value.code) ==> o == Threw(Http(Some(httpMessage(api.value))))
  {
    match api
    case Threw(e) => Threw(e)
    case Returned(response) =>
      if IsSuccessful(response.code) then
        match response.body
        case Some(b) => Returned(AsModel(b))
        case None => Threw(Other(None))
      else
        Threw(Http(Some(httpMessage(response))))
  }

  /** `ping()` */
  method Ping(unavailable: bool, api: Outcome<Response<PongResponse>>, httpMessage: Response<PongResponse> -> string)
    returns (emitted: seq<Resource<Pong>>, called: bool)
    ensures unavailable ==> emitted == [Failure(NoConnection)] && !called
    ensures !unavailable ==> called && Bracketed(emitted)
    ensures !unavailable && api.Returned? && IsSuccessful(api.value.code) && api.value.body.Some? ==>
              emitted == [Loading(true), Success(AsModel(api.value.body.value)), Loading(false)]
    ensures !unavailable && api.Returned? && IsSuccessful(api.value.code) && api.value.body.None? ==>
              emitted == [Loading(true), Failure("Erro inesperado: "), Loading(false)]
    ensures !unavailable && api.Returned? && !IsSuccessful(api.value.code) ==>
              emitted == [Loading(true), Failure(httpMessage(api.value)), Loading(false)]
    ensures !unavailable && api.Threw? ==>
              emitted == [Loading(true), Failure(CaughtMessage(api.error)), Loading(false)]
  {
    emitted, called := SafeApiFlow(unavailable, PingCall(api, httpMessage));
    assert MessageOrEmpty(Other(None)) == "";
    assert "Erro inesperado: " + "" == "Erro inesperado: ";
  }
}
