/**
 * The HTTP records the interceptors and mappers work on: OkHttp's request, headers and raw
 * response, and Retrofit's typed response. Only the parts the pipeline reads are kept.
 */
module Http {
  import opened Wrappers
  import opened Exceptions
  import opened Text

  datatype Header = Header(name: string, value: string)

  /** Header list in order; names compare case-insensitively, as in OkHttp. */
  type Headers = seq<Header>

  /** Every value stored under `name`, in order (`Headers.values(name)`). */
  function Values(hs: Headers, name: string): seq<string>
    decreases |hs|
  {
    if hs == [] then []
    else (if EqualsIgnoreCase(hs[0].name, name) then [hs[0].value] else []) + Values(hs[1..], name)
  }

  /** `Headers.Builder.removeAll(name)`. */
  function RemoveAll(hs: Headers, name: string): Headers
    decreases |hs|
  {
    if hs == [] then []
    else (if EqualsIgnoreCase(hs[0].name, name) then [] else [hs[0]]) + RemoveAll(hs[1..], name)
  }

  lemma {:induction false} ValuesAppend(a: Headers, b: Headers, name: string)
    ensures Values(a + b, name) == Values(a, name) + Values(b, name)
    decreases |a|
  {
    if a == [] {
      assert a + b == b;
    } else {
      assert (a + b)[1..] == a[1..] + b;
      ValuesAppend(a[1..], b, name);
    }
  }

  lemma {:induction false} ValuesRemoveAll(hs: Headers, name: string, other: string)
    ensures Values(RemoveAll(hs, name), other)
         == if EqualsIgnoreCase(name, other) then [] else Values(hs, other)
    decreases |hs|
  {
    if hs != [] {
      var head := if EqualsIgnoreCase(hs[0].name, name) then [] else [hs[0]];
      ValuesAppend(head, RemoveAll(hs[1..], name), other);
      ValuesRemoveAll(hs[1..], name, other);
      if head != [] {
        assert Values(head, other) == (if EqualsIgnoreCase(hs[0].name, other) then [hs[0].value] else []) by {
          assert head[1..] == [];
        }
      }
    }
  }

  /** Drop every header named like `h`, then append `h`. */
  function ReplaceAll(hs: Headers, h: Header): (r: Headers)
    ensures forall other :: Values(r, other) == if EqualsIgnoreCase(h.name, other) then [h.value] else Values(hs, other)
  {
    var r := RemoveAll(hs, h.name) + [h];
    forall other
      ensures Values(r, other) == if EqualsIgnoreCase(h.name, other) then [h.value] else Values(hs, other)
    {
      ValuesAppend(RemoveAll(hs, h.name), [h], other);
      ValuesRemoveAll(hs, h.name, other);
      assert [h][1..] == [];
    }
    r
  }

  /**
   * `Request.Builder.header(name, value)`, that is `Headers.Builder.set`: drop every header of
   * that name, then add the new one with its value trimmed (`addLenient` stores `value.trim()`).
   * Afterwards the name holds exactly the trimmed value, and every other name keeps its values.
   */
  function SetHeader(hs: Headers, name: string, value: string): (r: Headers)
    ensures forall other :: EqualsIgnoreCase(name, other) ==> Values(r, other) == [Trim(value)]
    ensures forall other :: !EqualsIgnoreCase(name, other) ==> Values(r, other) == Values(hs, other)
  {
    ReplaceAll(hs, Header(name, Trim(value)))
  }

  /** The parts of an `HttpUrl` the pipeline reads. */
  datatype Url = Url(scheme: string, host: string, encodedPath: string)

  datatype Request = Request(verb: string, url: Url, headers: Headers)

  /** `Response.isSuccessful`: the code is in 200..299. */
  predicate IsSuccessful(code: int) {
    200 <= code <= 299
  }

  /** An OkHttp response as an interceptor sees it; `body` is the body's text, if there is a body. */
  datatype RawResponse = RawResponse(code: int, message: string, headers: Headers, body: Option<string>)

  /** A response body with its media type; reading its text may throw. */
  datatype ResponseBody = ResponseBody(mediaType: string, content: Outcome<string>)

  /**
   * A Retrofit `Response<T>`: status and reason phrase of the raw response, its headers, the
   * converted body (present only for a successful response) and the raw error body.
   */
  datatype Response<+T> =
    Response(code: int, message: string, headers: Headers, body: Option<T>, errorBody: Option<ResponseBody>)
}
