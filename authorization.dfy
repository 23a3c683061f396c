/**
 * `AuthorizationInterceptor.kt`: every request leaves with a bearer token and a fixed user agent;
 * a 401 answer to anything but the login route asks the preference store to clean the session.
 */
module Authorization {
  import opened Wrappers
  import opened Text
  import opened Http

  const KeyAgent: string := "User-Agent"
  /** The fixed user agent, written in its space-separated parts. */
  const KeyAgentValue: string :=
    "Mozilla/5.0 " + "(Macintosh; Intel Mac OS X 10_15_7) " + "AppleWebKit/605.1.15 " + "(KHTML, like Gecko) "
    + "Version/18.6 Safari/605.1.15"
  const KeyAuthorization: string := "Authorization"

  /** `HttpURLConnection.HTTP_UNAUTHORIZED` */
  const HttpUnauthorized: int := 401

  /** The login route's marker in the encoded path. */
  const LoginMarker: string := "login"

  datatype Session = Session(token: string)

  /** `getToken()`: the first session's token, or the empty string when there is no session. */
  function GetToken(session: Option<Session>): (token: string)
    ensures session.None? ==> token == ""
    ensures session.Some? ==> token == session.value.token
  {
    match session
    case None => ""
    case Some(s) => s.token
  }

  /**
   * The request `intercept` forwards: the original with `Authorization: Bearer <token>` and the fixed
   * `User-Agent`, each replacing any header of the same name; nothing else changes. OkHttp stores
   * the credential trimmed, so an empty token leaves the bare word "Bearer".
   */
  function Authorize(request: Request, token: string): (r: Request)
    ensures r.verb == request.verb && r.url == request.url
    ensures Values(r.headers, KeyAuthorization) == [Trim("Bearer " + token)]
    ensures Values(r.headers, KeyAgent) == [KeyAgentValue]
    ensures forall name :: !EqualsIgnoreCase(name, KeyAuthorization) && !EqualsIgnoreCase(name, KeyAgent) ==>
              Values(r.headers, name) == Values(request.headers, name)
  {
    var withToken := SetHeader(request.headers, KeyAuthorization, "Bearer " + token);
    var withAgent := SetHeader(withToken, KeyAgent, KeyAgentValue);
    assert !EqualsIgnoreCase(KeyAgent, KeyAuthorization) by {
      assert |Lower(KeyAgent)| != |Lower(KeyAuthorization)|;
    }
    assert Values(withAgent, KeyAuthorization) == Values(withToken, KeyAuthorization);
    assert Values(withAgent, KeyAgent) == [Trim(KeyAgentValue)];
    AgentValueTrimmed();
    forall name | !EqualsIgnoreCase(name, KeyAuthorization) && !EqualsIgnoreCase(name, KeyAgent)
      ensures Values(withAgent, name) == Values(request.headers, name)
    {
      assert !EqualsIgnoreCase(KeyAgent, name) && !EqualsIgnoreCase(KeyAuthorization, name);
    }
    request.(headers := withAgent)
  }

  /** The fixed user agent has no whitespace at its ends, so OkHttp stores it as it is. */
  lemma AgentValueTrimmed()
    ensures Trim(KeyAgentValue) == KeyAgentValue
  {
    assert KeyAgentValue[0] == 'M' && KeyAgentValue[|KeyAgentValue| - 1] == '5';
    TrimKeeps(KeyAgentValue);
  }

  /** With no session the credential header is exactly "Bearer": the trailing space is trimmed away. */
  lemma NoSessionBearer(request: Request)
    ensures Values(Authorize(request, GetToken(None)).headers, KeyAuthorization) == ["Bearer"]
  {
    assert "Bearer " + GetToken(None) == "Bearer ";
    BearerTrimmed();
  }

  /** Trimming the bare prefix drops its trailing space. */
  lemma BearerTrimmed()
    ensures Trim("Bearer ") == "Bearer"
  {
    var s := "Bearer ";
    assert SkipLeading(s, 0) == 0 by { assert !IsWhitespace(s[0]); }
    assert SkipTrailing(s, 0, 7) == 6 by {
      assert IsWhitespace(s[6]) && !IsWhitespace(s[5]);
      assert SkipTrailing(s, 0, 6) == 6;
    }
    assert s[0..6] == "Bearer";
  }

  /** A token with no whitespace at either end is forwarded as "Bearer " followed by the token. */
  lemma TokenBearer(request: Request, token: string)
    requires token != [] && !IsWhitespace(token[0]) && !IsWhitespace(token[|token| - 1])
    ensures Values(Authorize(request, token).headers, KeyAuthorization) == ["Bearer " + token]
  {
    var v := "Bearer " + token;
    assert v[0] == 'B' && v[|v| - 1] == token[|token| - 1];
    TrimKeeps(v);
  }

  /** The 401 rule: a clean is requested exactly for a 401 whose path does not contain "login". */
  function CleanRequested(code: int, encodedPath: string): (clean: bool)
    ensures clean <==> code == HttpUnauthorized && !exists i :: OccursAt(encodedPath, LoginMarker, i)
  {
    ContainsIff(encodedPath, LoginMarker);
    code == HttpUnauthorized && !Contains(encodedPath, LoginMarker)
  }

  /**
   * The interceptor with the state it touches: the session the preference store currently yields,
   * and the number of `clean()` calls `unauthorized()` has launched. The launched clean runs
   * later and elsewhere, so it is recorded here as a request, not applied.
   */
  class AuthorizationInterceptor {
    var session: Option<Session>
    var cleanRequests: nat

    constructor (session: Option<Session>)
      ensures this.session == session && cleanRequests == 0
    {
      this.session := session;
      cleanRequests := 0;
    }

    /** `unauthorized()`: launch one `preference.clean()`. */
    method Unauthorized()
      modifies this`cleanRequests
      ensures cleanRequests == old(cleanRequests) + 1
    {
      cleanRequests := cleanRequests + 1;
    }

    /** `intercept(chain)`, with `chain.proceed` given as `proceed`. */
    method Intercept(request: Request, proceed: Request -> RawResponse) returns (forwarded: Request, response: RawResponse)
      modifies this`cleanRequests
      ensures forwarded == Authorize(request, GetToken(session))
      ensures response == proceed(forwarded)
      ensures cleanRequests == old(cleanRequests) + (if CleanRequested(response.code, request.url.encodedPath) then 1 else 0)
    {
      forwarded := Authorize(request, GetToken(session));
      response := proceed(forwarded);
      if response.code == HttpUnauthorized && !Contains(request.url.encodedPath, LoginMarker) {
        Unauthorized();
      }
    }
  }
}
