/**
 * `ExceptionInterceptor.kt`: a non-2xx response is rebuilt with the JSON `message` field of its
 * body as the reason phrase; any failure along the way leaves the response as it was.
 * The JSON parser (the platform's `org.json`) is a parameter: it yields the parsed object or nothing.
 */
module ExceptionInterceptor {
  import opened Wrappers
  import opened Http

  const UnknownError: string := "Erro desconhecido"
  const MessageKey: string := "message"

  /**
   * A parsed JSON object: each key with the string form `JSONObject.optString` returns for its
   * value. On Android that is `String.valueOf` of the value, so a JSON `null` reads as "null".
   */
  datatype JsonObject = JsonObject(fields: map<string, string>)

  /** `JSONObject.optString(key, fallback)`: the value's string form, or the fallback for a missing key. */
  function OptString(obj: JsonObject, key: string, fallback: string): (s: string)
    ensures key in obj.fields ==> s == obj.fields[key]
    ensures key !in obj.fields ==> s == fallback
  {
    if key in obj.fields then obj.fields[key] else fallback
  }

  /**
   * The `runCatching { JSONObject(peekBody).optString("message", ...) }.getOrDefault(...)` step.
   * A missing body makes `peekBody` throw and an unparsable one makes `JSONObject` throw; both give
   * the fallback.
   */
  function ReasonFromBody(body: Option<string>, parse: string -> Option<JsonObject>): (reason: string)
    ensures body.Some? && parse(body.value).Some? && MessageKey in parse(body.value).value.fields ==>
              reason == parse(body.value).value.fields[MessageKey]
    ensures body.None? || parse(body.value).None? ==> reason == "Erro desconhecido"
    ensures body.Some? && parse(body.value).Some? && MessageKey !in parse(body.value).value.fields ==>
              reason == "Erro desconhecido"
    ensures reason != UnknownError ==>
              && body.Some? && parse(body.value).Some?
              && MessageKey in parse(body.value).value.fields
              && parse(body.value).value.fields[MessageKey] == reason
  {
    match body
    case None => UnknownError
    case Some(text) =>
      match parse(text)
      case None => UnknownError
      case Some(obj) => OptString(obj, MessageKey, UnknownError)
  }

  /** `Response.Builder.build()` refuses a negative code; nothing else of the rebuild can fail here. */
  predicate RebuildFails(response: RawResponse) {
    response.code < 0
  }

  /** What an interceptor sent downstream and what it returned upstream. */
  datatype Exchange = Exchange(sent: Request, response: RawResponse)

  /** `intercept(chain)`, with `chain.proceed` given as `proceed`. */
  function Intercept(request: Request, proceed: Request -> RawResponse, parse: string -> Option<JsonObject>)
    : (ex: Exchange)
    ensures ex.sent == request
    ensures IsSuccessful(proceed(request).code) ==> ex.response == proceed(request)
    ensures !IsSuccessful(proceed(request).code) && !RebuildFails(proceed(request)) ==>
              ex.response == proceed(request).(message := ReasonFromBody(proceed(request).body, parse))
    ensures RebuildFails(proceed(request)) ==> ex.response == proceed(request)
    ensures ex.response.code == proceed(request).code && ex.response.headers == proceed(request).headers
              && ex.response.body == proceed(request).body
  {
    var response := proceed(request);
    if IsSuccessful(response.code) then Exchange(request, response)
    else if RebuildFails(response) then Exchange(request, response)
    else Exchange(request, response.(message := ReasonFromBody(response.body, parse)))
  }

  /** A body that does not parse gives the fallback reason and still yields a response. */
  lemma UnparsableBodyFallsBack(request: Request, proceed: Request -> RawResponse, parse: string -> Option<JsonObject>)
    requires !IsSuccessful(proceed(request).code) && proceed(request).code >= 0
    requires proceed(request).body.Some? && parse(proceed(request).body.value).None?
    ensures Intercept(request, proceed, parse).response.message == "Erro desconhecido"
  {
  }
}
