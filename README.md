# b256 network pipeline, connectivity monitor and grayscale kernels in Dafny

This project models the core of the b256 Android application and proves properties of it:

- **The network request pipeline.** Three pieces sit on the OkHttp chain:
  - `AuthorizationInterceptor` adds the bearer token and a fixed user agent, and asks for a session clean on a 401.
  - `ExceptionInterceptor` rewrites the reason phrase of a failed response from the JSON `message` field of its body.
  - `NetworkTracer` turns any non-cancellation exception into a synthetic HTTP 500 response.

  `ResponseMapper` and `ResourceMapper` turn responses and flows into the three-state `Resource` (`Success`, `Failure`, `Loading`). `ServiceManager.safeApiFlow` emits the Loading-bracketed stream behind a connectivity gate; `ping` is its one use.
- **Cookies.** The `CookieManager` cookie jar is an in-memory `host -> cookies` map. It is filled from the persistent `CookieStoreImpl` at startup and replaced host by host on every response.
- **Connectivity.** `ManagerNetworkMonitor` has a callback that keeps the set of networks with internet capability. On every event it sends whether any network is left.
- **Small helpers.**
  - `Theme.from` is a case-insensitive lookup with `FOLLOW_SYSTEM` as default.
  - The Brazilian date formatters (`dd/MM/yyyy`, `dd/MM/yyyy - HH:mm:ss`) and the date-only comparisons `isSame`, `isBefore` and `isAfter` work over a local date-time record.
- **The native grayscale kernels** (`ndk.cpp`, `engine.cpp`). Each rewrites a locked RGBA_8888 bitmap in place, row by row with a byte stride. It is modelled as an imperative method over an `array<bv32>`, proved against a specification function on the buffer's contents.

Kotlin exceptions are the `Throwable` datatype (`Cancellation`, `IO`, `Http`, `Other`, each with an optional message). A computation that may throw yields an `Outcome` (`Returned(v)` or `Threw(e)`). A cold flow collected once is a `FlowRun`: what it emitted, and the exception it ended with, if any. Foreign code is a parameter:
- the JSON parser;
- the URL and cookie parsers;
- `chain.proceed`;
- Retrofit's HttpException message;
- the connectivity manager's answer;
- the bitmap info and the lock result.

Files, one module each: `wrappers.dfy` (Option), `exceptions.dfy`, `text.dfy` (ASCII lowercase, blankness, substring search, decimal rendering, padding), `http.dfy` (headers, requests, responses), `resources.dfy`, `resource_mapper.dfy`, `response_mapper.dfy`, `network_tracer.dfy`, `authorization.dfy`, `exception_interceptor.dfy`, `service_manager.dfy`, `cookie_store.dfy`, `cookie_manager.dfy`, `network_monitor.dfy`, `theme.dfy`, `instant.dfy`, `bitmap.dfy` (pixel arithmetic and row layout), `ndk.dfy`, `engine.dfy`.

Three points of the source need a note.
- `core/model/.../Resource.kt` names the failure case `Error`, while `ResponseMapper.kt` uses `Failure`. The model has one datatype whose failure case is `Failure(message)`, and it stands for both.
- `ResourceMapper.asResource` chains `onCompletion` before `catch`, unlike `ResponseMapper.withLoading`, which puts `catch` first. So on an upstream exception `asResource` ends with the failure and carries no `Loading(false)`, while `withLoading` always ends with `Loading(false)`. The model follows each chain as written.
- The documentation of `isSame`, `isBefore` and `isAfter` in `Instant.kt` says the time zone defaults to the system's, while the code defaults to `TimeZone.UTC`. The model takes the local date-times as inputs and does not depend on the zone.

## Model

| member | source | states |
|---|---|---|
| ResponseMapper.Unexpected | core/network/src/main/java/br/com/b256/core/network/mapper/ResponseMapper.kt:191 | An exception's failure text is "Erro inesperado: " followed by its message, or by nothing when it has none |
| ResponseMapper.ErrorMessage | core/network/src/main/java/br/com/b256/core/network/mapper/ResponseMapper.kt:23-27 | The error body's text when present and not blank, the reason phrase when the body is absent or blank, and the read's exception when reading the body throws |
| ResponseMapper.ErrorMessageBlankOnlyFromReason | core/network/src/main/java/br/com/b256/core/network/mapper/ResponseMapper.kt:23-27 | A blank extracted message can only be the reason phrase |
| ResponseMapper.MapToResource | core/network/src/main/java/br/com/b256/core/network/mapper/ResponseMapper.kt:46-57 | The result is terminal. A 2xx with no body gives Success(null). A 2xx with body b gives Success(mapper(b)), or an "Erro inesperado" failure when the mapper throws. A non-2xx gives Failure(errorMessage), or an "Erro inesperado" failure when reading the error body throws |
| ResponseMapper.MapToResourceSuccessIff | core/network/src/main/java/br/com/b256/core/network/mapper/ResponseMapper.kt:46-57 | Success exactly when the code is 2xx and the mapper, if it was applied, returned |
| ResponseMapper.MapperUnusedOnFailure | core/network/src/main/java/br/com/b256/core/network/mapper/ResponseMapper.kt:52-53 | For a non-2xx response the result does not depend on the mapper and is a failure |
| ResponseMapper.WithLoading | core/network/src/main/java/br/com/b256/core/network/mapper/ResponseMapper.kt:71-80 | The stream starts with Loading(true), relays the inner emissions unchanged and ends with Loading(false); when the inner flow completes normally nothing else is emitted |
| ResponseMapper.WithLoadingOnException | core/network/src/main/java/br/com/b256/core/network/mapper/ResponseMapper.kt:71-80 | An inner exception adds exactly one "Erro inesperado" failure, just before the closing Loading(false) |
| ResponseMapper.AsResourceFlow | core/network/src/main/java/br/com/b256/core/network/mapper/ResponseMapper.kt:101-104 | Exactly [Loading(true), mapToResource(mapper), Loading(false)] |
| ResponseMapper.AsResourceFlowWithHeaders | core/network/src/main/java/br/com/b256/core/network/mapper/ResponseMapper.kt:125-132 | Equal to the body-mapper stream with the response's own headers passed to the mapper |
| ResponseMapper.AsResourceFlowOfBody | core/network/src/main/java/br/com/b256/core/network/mapper/ResponseMapper.kt:146-149 | The identity-mapper stream. Its middle element is Success(body) for a 2xx. For a non-2xx it is Failure(errorMessage), or an "Erro inesperado" failure when reading the error body throws |
| ResponseMapper.AsResource | core/network/src/main/java/br/com/b256/core/network/mapper/ResponseMapper.kt:168-169 | Equal to the middle element of the corresponding asResourceFlow |
| ResponseMapper.AsResourceOfBody | core/network/src/main/java/br/com/b256/core/network/mapper/ResponseMapper.kt:185 | The middle element of asResourceFlow(). Success(body) for a 2xx; for a non-2xx Failure(errorMessage), or an "Erro inesperado" failure when reading the error body throws |
| ResponseMapper.AsResourceFlowOneTerminal | core/network/src/main/java/br/com/b256/core/network/mapper/ResponseMapper.kt:71-80 | Every mapped stream holds exactly one terminal element, and only the last element is Loading(false) |
| Resources.CountTerminalsAppend | core/network/src/main/java/br/com/b256/core/network/mapper/ResponseMapper.kt:71-80 | The number of terminal states of a concatenation is the sum of the parts' counts |
| Resources.BracketedHasOneTerminal | core/network/src/main/java/br/com/b256/core/network/service/ServiceManager.kt:84-103 | A bracketed stream has exactly one terminal state, never two, and nothing after Loading(false) |
| ResourceMapper.Map | core/model/src/main/java/br/com/b256/core/model/mapper/ResourceMapper.kt:18-22 | The result keeps the case: success, failure and loading each stay what they were |
| ResourceMapper.MapSuccess | core/model/src/main/java/br/com/b256/core/model/mapper/ResourceMapper.kt:19 | map(f) of Success(d) is Success(f(d)) |
| ResourceMapper.MapIgnoresTransform | core/model/src/main/java/br/com/b256/core/model/mapper/ResourceMapper.kt:20-21 | A failure or loading value passes through unchanged, whatever the transform |
| ResourceMapper.MapIdentity | core/model/src/main/java/br/com/b256/core/model/mapper/ResourceMapper.kt:18-22 | Mapping with the identity gives back the same resource |
| ResourceMapper.MapCompose | core/model/src/main/java/br/com/b256/core/model/mapper/ResourceMapper.kt:18-22 | Mapping twice equals mapping once with the composed transform |
| ResourceMapper.Successes | core/model/src/main/java/br/com/b256/core/model/mapper/ResourceMapper.kt:33 | Each upstream value becomes Success of it, in order, one for one |
| ResourceMapper.SuccessesAreTerminal | core/model/src/main/java/br/com/b256/core/model/mapper/ResourceMapper.kt:33 | The wrapped values hold one terminal state per upstream value |
| ResourceMapper.AsResource | core/model/src/main/java/br/com/b256/core/model/mapper/ResourceMapper.kt:32-36 | Flow.asResource as intended: Loading(true), then every upstream value as Success in order. Normal completion ends with Loading(false); an upstream exception ends with Error carrying its message, or the empty string when it has none, and no Loading(false) |
| ResourceMapper.AsResourceLoadingFalseOnlyLast | core/model/src/main/java/br/com/b256/core/model/mapper/ResourceMapper.kt:35-36 | Loading(false) appears only as the last element, and only when the upstream completes normally |
| ResourceMapper.AsResourceAsWritten | core/model/src/main/java/br/com/b256/core/model/mapper/ResourceMapper.kt:32-36 | The code as written: the same stream when the upstream completes or throws with a message. A message-less exception makes the Error constructor's null check throw, so the collector gets a NullPointerException instead of an Error |
| ResourceMapper.AsWrittenAgreesWithMessage | core/model/src/main/java/br/com/b256/core/model/mapper/ResourceMapper.kt:32-36 | For normal completion and for an exception with a message, the code emits exactly the intended stream and completes normally |
| ResourceMapper.AsWrittenLosesMessagelessError | core/model/src/main/java/br/com/b256/core/model/mapper/ResourceMapper.kt:36 | For a message-less upstream exception the code ends exceptionally with no Error emitted, where the intended stream ends with Error("") |
| ResourceMapper.MessagelessIOExceptionExample | core/model/src/main/java/br/com/b256/core/model/mapper/ResourceMapper.kt:36 | A flow throwing IOException() yields [Loading(true)] and a NullPointerException, where the intended stream is [Loading(true), Error("")] |
| ResourceMapper.AsResourceTerminals | core/model/src/main/java/br/com/b256/core/model/mapper/ResourceMapper.kt:32-36 | The stream holds one terminal state per upstream value, plus one for an upstream exception |
| NetworkTracer.FailureResponse | core/network/src/main/java/br/com/b256/core/network/util/NetworkTracer.kt:73-78 | The synthetic response has code 500, is not successful, has no body, and its text/plain error body is the message or "Erro desconhecido" |
| NetworkTracer.Tracer | core/network/src/main/java/br/com/b256/core/network/util/NetworkTracer.kt:38-55 | A returned response is passed on as it is, and a cancellation is rethrown. Any other exception becomes the synthetic failure carrying its message. The tracer throws exactly when the block was cancelled |
| NetworkTracer.TracedExceptionMapsToFailure | core/network/src/main/java/br/com/b256/core/network/util/NetworkTracer.kt:49-54 | A traced non-cancellation exception, sent through mapToResource, becomes a failure. Its text is the exception's message, or "Erro desconhecido" when it has none; a blank message, as in IOException(""), falls back to the reason phrase "Response.error()" |
| Authorization.GetToken | core/network/src/main/java/br/com/b256/core/network/interceptor/AuthorizationInterceptor.kt:35-38 | The session's token, or the empty string with no session |
| Authorization.Authorize | core/network/src/main/java/br/com/b256/core/network/interceptor/AuthorizationInterceptor.kt:62-72 | The forwarded request has exactly one Authorization value, "Bearer " + token as OkHttp trims it, and exactly one User-Agent value, the fixed agent string. Verb, URL and every other header are unchanged |
| Authorization.TokenBearer | core/network/src/main/java/br/com/b256/core/network/interceptor/AuthorizationInterceptor.kt:66 | A token with no whitespace at either end is forwarded as exactly "Bearer " + token |
| Authorization.AgentValueTrimmed | core/network/src/main/java/br/com/b256/core/network/interceptor/AuthorizationInterceptor.kt:69 | The fixed agent string has no whitespace at its ends, so it is forwarded unchanged |
| Authorization.NoSessionBearer | core/network/src/main/java/br/com/b256/core/network/interceptor/AuthorizationInterceptor.kt:35-38 | With no session the token is empty and the credential header is exactly "Bearer", its trailing space trimmed away |
| Authorization.CleanRequested | core/network/src/main/java/br/com/b256/core/network/interceptor/AuthorizationInterceptor.kt:75-79 | A clean is due exactly when the code is 401 and "login" occurs nowhere in the encoded path |
| Authorization.AuthorizationInterceptor.Unauthorized | core/network/src/main/java/br/com/b256/core/network/interceptor/AuthorizationInterceptor.kt:47-51 | One more clean request is recorded |
| Authorization.AuthorizationInterceptor.Intercept | core/network/src/main/java/br/com/b256/core/network/interceptor/AuthorizationInterceptor.kt:62-82 | The authorized request is forwarded and downstream's response is returned unchanged. Exactly one clean is requested when the 401/login rule holds, and none otherwise |
| Http.SetHeader | core/network/src/main/java/br/com/b256/core/network/interceptor/AuthorizationInterceptor.kt:64-72 | Setting a header leaves exactly the trimmed new value under that name, case-insensitively, and every other name's values unchanged |
| Text.Trim | core/network/src/main/java/br/com/b256/core/network/interceptor/AuthorizationInterceptor.kt:66 | String.trim as OkHttp applies it to a header value: the result has no whitespace at either end, sits inside the input at some position, and only whitespace stands around it |
| Text.TrimKeeps | core/network/src/main/java/br/com/b256/core/network/interceptor/AuthorizationInterceptor.kt:66-69 | A string with no whitespace at either end is its own trim |
| Text.TrimIdempotent | core/network/src/main/java/br/com/b256/core/network/interceptor/AuthorizationInterceptor.kt:66-69 | Trimming twice is trimming once |
| Http.IsSuccessful | core/network/src/main/java/br/com/b256/core/network/mapper/ResponseMapper.kt:50 | Defines a successful response as OkHttp does: code 200 to 299. It has no contract of its own |
| Text.ContainsIff | core/network/src/main/java/br/com/b256/core/network/interceptor/AuthorizationInterceptor.kt:76 | The substring test is true exactly when the pattern occurs at some position |
| ExceptionInterceptor.OptString | core/network/src/main/java/br/com/b256/core/network/interceptor/ExceptionInterceptor.kt:31-33 | The key's value in its string form, with a JSON null reading as "null" as Android's optString gives it; the fallback for a missing key |
| ExceptionInterceptor.ReasonFromBody | core/network/src/main/java/br/com/b256/core/network/interceptor/ExceptionInterceptor.kt:29-34 | The JSON message when the body parses and carries that key. "Erro desconhecido" for a missing or unparsable body, or a body without the key. Any other reason comes from the body's message field |
| ExceptionInterceptor.Intercept | core/network/src/main/java/br/com/b256/core/network/interceptor/ExceptionInterceptor.kt:18-45 | The request is forwarded unchanged and a 2xx is returned unchanged. Otherwise the response is rebuilt with the extracted reason, keeping code, headers and body. A rebuild that fails returns the original |
| ExceptionInterceptor.UnparsableBodyFallsBack | core/network/src/main/java/br/com/b256/core/network/interceptor/ExceptionInterceptor.kt:29-34 | An unparsable body yields a response whose reason is "Erro desconhecido" |
| ServiceManager.CaughtMessage | core/network/src/main/java/br/com/b256/core/network/service/ServiceManager.kt:93-97 | I/O and HTTP exceptions give their message or empty; anything else gives "Erro inesperado: " + message |
| ServiceManager.SafeApiFlow | core/network/src/main/java/br/com/b256/core/network/service/ServiceManager.kt:73-105 | Offline: exactly [Failure("Sem conexão com a internet")], and the call is not made. Online: [Loading(true), Success(v) or Failure(message), Loading(false)] |
| ServiceManager.AsModel | core/network/src/main/java/br/com/b256/core/network/mapper/PongMapper.kt:9-12 | The model copies both fields of the response |
| ServiceManager.PingCall | core/network/src/main/java/br/com/b256/core/network/service/ServiceManager.kt:51-59 | A 2xx with a body gives asModel(body) and a 2xx without one throws a message-less exception. A non-2xx throws an HttpException, and exceptions of the call propagate |
| ServiceManager.Ping | core/network/src/main/java/br/com/b256/core/network/service/ServiceManager.kt:51-59 | The full stream of ping for each case. An absent body gives "Erro inesperado: ", and a non-2xx gives the HttpException's message |
| CookieStore.Project | core/datastore/src/main/java/br/com/b256/core/datastore/CookieStoreImpl.kt:11-14 | all() has exactly the stored keys, each with its full list |
| CookieStore.ProjectAfterPut | core/datastore/src/main/java/br/com/b256/core/datastore/CookieStoreImpl.kt:16-30 | Storing one key changes exactly that key of all() |
| CookieStore.CookieStoreImpl.All | core/datastore/src/main/java/br/com/b256/core/datastore/CookieStoreImpl.kt:11-14 | The projection of the current proto map |
| CookieStore.CookieStoreImpl.Save | core/datastore/src/main/java/br/com/b256/core/datastore/CookieStoreImpl.kt:16-30 | Afterwards all() maps the key to exactly the new list and keeps every other key and list |
| CookieStore.CookieStoreImpl.Clear | core/datastore/src/main/java/br/com/b256/core/datastore/CookieStoreImpl.kt:32-34 | Afterwards all() is empty |
| CookieManager.MapNotNull | core/network/src/main/java/br/com/b256/core/network/util/CookieManager.kt:64-66 | Keeps only the defined results. Each kept result comes from some input, and one defined result makes the output non-empty |
| CookieManager.MapNotNullAppend | core/network/src/main/java/br/com/b256/core/network/util/CookieManager.kt:64-66 | Filtering distributes over concatenation, so stored order is kept |
| CookieManager.MapNotNullAllDefined | core/network/src/main/java/br/com/b256/core/network/util/CookieManager.kt:64-66 | When every cookie parses, all of them are kept, position by position |
| CookieManager.MapNotNullNoneDefined | core/network/src/main/java/br/com/b256/core/network/util/CookieManager.kt:64-66 | When no cookie parses, nothing is kept |
| CookieManager.Loaded | core/network/src/main/java/br/com/b256/core/network/util/CookieManager.kt:59-72 | The startup load keeps exactly the hosts whose key parses as a URL and which have a parsed cookie. Each keeps its parsed cookies in stored order |
| CookieManager.LoadedDropsUnparsable | core/network/src/main/java/br/com/b256/core/network/util/CookieManager.kt:62-67 | A host with an unparsable key, or with no parsable cookie, is not loaded |
| CookieManager.Lookup | core/network/src/main/java/br/com/b256/core/network/util/CookieManager.kt:111 | The host's cookies, or the empty list for an unknown host |
| CookieManager.SaveThenLoad | core/network/src/main/java/br/com/b256/core/network/util/CookieManager.kt:90 | After a save, lookup of that host gives exactly the saved list. The old list is replaced, not merged |
| CookieManager.SaveLeavesOtherHosts | core/network/src/main/java/br/com/b256/core/network/util/CookieManager.kt:90 | A save for one host leaves every other host's lookup unchanged |
| CookieManager.Render | core/network/src/main/java/br/com/b256/core/network/util/CookieManager.kt:93 | The string forms of the cookies, one for one and in order |
| CookieManager.CookieManager.LoadStored | core/network/src/main/java/br/com/b256/core/network/util/CookieManager.kt:59-72 | The cache afterwards is the old cache overridden by the startup load |
| CookieManager.CookieManager.PutAll | core/network/src/main/java/br/com/b256/core/network/util/CookieManager.kt:68-70 | Writing every entry into the cache overrides exactly those hosts |
| CookieManager.CookieManager.SaveFromResponse | core/network/src/main/java/br/com/b256/core/network/util/CookieManager.kt:86-95 | The host's entry is replaced by the response's cookies, and one persistence request carries their string forms under the host |
| CookieManager.CookieManager.LoadForRequest | core/network/src/main/java/br/com/b256/core/network/util/CookieManager.kt:111 | The cached list for the URL's host, or empty. Only the host is read, so URLs that differ in scheme or path see one list. The cache is not modified |
| NetworkMonitor.IsCurrentlyConnected | core/common/src/main/java/br/com/b256/core/common/monitor/ManagerNetworkMonitor.kt:82-84 | True exactly when there is an active network and its capabilities include internet (12) |
| NetworkMonitor.Replay | core/common/src/main/java/br/com/b256/core/common/monitor/ManagerNetworkMonitor.kt:42-55 | The callback sends one value per event |
| NetworkMonitor.ReplaySnoc | core/common/src/main/java/br/com/b256/core/common/monitor/ManagerNetworkMonitor.kt:42-55 | One more event updates the set by that event and appends exactly its one emission |
| NetworkMonitor.ReplayIsNonEmptiness | core/common/src/main/java/br/com/b256/core/common/monitor/ManagerNetworkMonitor.kt:46-54 | Every emission says whether, after that event, some network is still registered |
| NetworkMonitor.TwiceAvailableOnceLost | core/common/src/main/java/br/com/b256/core/common/monitor/ManagerNetworkMonitor.kt:44-54 | Available(n) twice and then Lost(n) sends true, true, false |
| NetworkMonitor.LosingUnknownNetwork | core/common/src/main/java/br/com/b256/core/common/monitor/ManagerNetworkMonitor.kt:51-54 | Losing an unregistered network leaves the set unchanged and sends whether it is non-empty |
| NetworkMonitor.IsAvailable | core/common/src/main/java/br/com/b256/core/common/monitor/ManagerNetworkMonitor.kt:31-67 | Without a connectivity manager the stream is exactly [false]. Otherwise it is the current connectivity followed by exactly what the callback sends for the events |
| NetworkMonitor.IsAvailableAfterEvent | core/common/src/main/java/br/com/b256/core/common/monitor/ManagerNetworkMonitor.kt:42-67 | After the initial value, the emission for each event says whether a network with internet is still registered after it |
| NetworkMonitor.IsUnavailable | core/common/src/main/java/br/com/b256/core/common/monitor/ManagerNetworkMonitor.kt:77 | The negation of each isAvailable value, pointwise |
| NetworkMonitor.NetworkCallback.OnAvailable | core/common/src/main/java/br/com/b256/core/common/monitor/ManagerNetworkMonitor.kt:46-49 | Adds the network and sends true |
| NetworkMonitor.NetworkCallback.OnLost | core/common/src/main/java/br/com/b256/core/common/monitor/ManagerNetworkMonitor.kt:51-54 | Removes the network and sends whether the set is still non-empty |
| NetworkMonitor.Collect | core/common/src/main/java/br/com/b256/core/common/monitor/ManagerNetworkMonitor.kt:29-75 | Registering a callback, sending the current state and delivering the events emits exactly IsAvailable |
| Themes.Find | core/model/src/main/java/br/com/b256/core/model/enums/Theme.kt:14-17 | Nothing is found exactly when no entry matches. Otherwise the result is the entry at the first matching position |
| Themes.From | core/model/src/main/java/br/com/b256/core/model/enums/Theme.kt:14-18 | The result matches the input by name or value, ignoring case, or is FOLLOW_SYSTEM when no theme matches |
| Themes.LowerNameIsValue | core/model/src/main/java/br/com/b256/core/model/enums/Theme.kt:8-11 | Each theme's lowercased name is its value |
| Themes.MatchesIff | core/model/src/main/java/br/com/b256/core/model/enums/Theme.kt:16-17 | A theme matches exactly when the lowercased input equals its value |
| Themes.FromValue | core/model/src/main/java/br/com/b256/core/model/enums/Theme.kt:8-18 | from(t.value) is t for every theme |
| Themes.FromName | core/model/src/main/java/br/com/b256/core/model/enums/Theme.kt:14-18 | from(t.name) is t for every theme |
| Themes.FromIgnoresCase | core/model/src/main/java/br/com/b256/core/model/enums/Theme.kt:16-17 | from(s) equals from(lowercase(s)) |
| Themes.FromUnknown | core/model/src/main/java/br/com/b256/core/model/enums/Theme.kt:18 | Input that matches no theme gives FOLLOW_SYSTEM |
| Themes.FromEmpty | core/model/src/main/java/br/com/b256/core/model/enums/Theme.kt:18 | The empty string gives FOLLOW_SYSTEM |
| Themes.FromIsFirstMatch | core/model/src/main/java/br/com/b256/core/model/enums/Theme.kt:9-15 | When some theme matches, the result is the first match in the order LIGHT, DARK, FOLLOW_SYSTEM |
| Text.LowerIdempotent | core/model/src/main/java/br/com/b256/core/model/enums/Theme.kt:16-17 | Lowercasing twice is lowercasing once |
| Text.IntToString | core/common/src/main/java/br/com/b256/core/common/extension/Instant.kt:42 | Int.toString: a non-negative number is all digits and parses back to itself; a negative one is '-' followed by digits that parse back to its magnitude |
| Text.NatToStringRoundTrip | core/common/src/main/java/br/com/b256/core/common/extension/Instant.kt:19-24 | Reading back a rendered number gives the number |
| Text.IsBlank | core/network/src/main/java/br/com/b256/core/network/mapper/ResponseMapper.kt:26 | Kotlin's isBlank: empty, or made only of the characters Char.isWhitespace accepts. It has no contract of its own |
| Text.PadStart | core/common/src/main/java/br/com/b256/core/common/extension/Instant.kt:19-24 | padStart: a string at least the target length keeps its length, and a shorter one is padded to it. The original sits at the end, with only pad characters in front |
| Text.PadTwoDigits | core/common/src/main/java/br/com/b256/core/common/extension/Instant.kt:19-24 | padStart(2, '0') prefixes one '0' to 0-9, leaves 10 and above unchanged, and gives width 2 below 100 |
| Instants.Pad2 | core/common/src/main/java/br/com/b256/core/common/extension/Instant.kt:19-24 | Values 0-9 get a single leading '0' and larger values are unchanged. Every value below 100 renders in exactly two characters |
| Instants.Pad2ReadsBack | core/common/src/main/java/br/com/b256/core/common/extension/Instant.kt:19-24 | The padded field is all digits and reads back as the value |
| Instants.DateStringLayout | core/common/src/main/java/br/com/b256/core/common/extension/Instant.kt:37-44 | The date string is padded day, '/', padded month, '/', then the unpadded year |
| Instants.DateStringReadsBack | core/common/src/main/java/br/com/b256/core/common/extension/Instant.kt:37-44 | For a valid date the day and month parse back from positions 0-1 and 3-4. From position 6 on stands Int.toString of the year, and a non-negative year parses back from there |
| Instants.BrazilianDateString | core/common/src/main/java/br/com/b256/core/common/extension/Instant.kt:37-44 | For a valid date the string is the year's digits plus six characters, with '/' at positions 2 and 5 |
| Instants.BrazilianDateTimeString | core/common/src/main/java/br/com/b256/core/common/extension/Instant.kt:17-28 | Begins with the date string of the same local date. For a valid time, eleven characters follow it |
| Instants.TimeSuffixLayout | core/common/src/main/java/br/com/b256/core/common/extension/Instant.kt:22-26 | The time part is " - " then HH ':' mm ':' ss, each padded to width two |
| Instants.DateTimeLayout | core/common/src/main/java/br/com/b256/core/common/extension/Instant.kt:17-28 | After the date come " - ", then HH ':' mm ':' ss, each padded to width two |
| Instants.DateTimeReadsBack | core/common/src/main/java/br/com/b256/core/common/extension/Instant.kt:17-28 | For a valid time, hour, minute and second read back from their positions |
| Instants.IsSame | core/common/src/main/java/br/com/b256/core/common/extension/Instant.kt:72-76 | Same year, month and day, whatever the time of day. For valid dates this is the same position on the calendar axis |
| Instants.IsBefore | core/common/src/main/java/br/com/b256/core/common/extension/Instant.kt:91-95 | For valid dates, exactly when this date's position on the calendar axis is the smaller |
| Instants.IsAfter | core/common/src/main/java/br/com/b256/core/common/extension/Instant.kt:109-113 | For valid dates, exactly when this date's position on the calendar axis is the larger |
| Instants.ExactlyOneRelation | core/common/src/main/java/br/com/b256/core/common/extension/Instant.kt:72-113 | For any pair, exactly one of isSame, isBefore and isAfter holds |
| Instants.BeforeIsAfterSwapped | core/common/src/main/java/br/com/b256/core/common/extension/Instant.kt:91-113 | isBefore(a, b) equals isAfter(b, a) |
| Instants.SameIsEquivalence | core/common/src/main/java/br/com/b256/core/common/extension/Instant.kt:72-76 | isSame is reflexive, symmetric and transitive |
| Instants.BeforeIsTransitive | core/common/src/main/java/br/com/b256/core/common/extension/Instant.kt:72-95 | isBefore is transitive, and dates that are the same compare alike whatever their time of day |
| Bitmaps.Average | core/ndk/src/main/cpp/ndk.cpp:35-40 | The floor mean of the three channel bytes fits in a byte |
| Bitmaps.PackChannels | core/ndk/src/main/cpp/ndk.cpp:41 | The packed word has alpha 0xFF and the gray byte in each colour channel |
| Bitmaps.Gray | core/ndk/src/main/cpp/ndk.cpp:33-41 | A processed pixel is opaque, and its red, green and blue all equal the floor average of the original bytes |
| Bitmaps.AverageBetweenChannels | core/ndk/src/main/cpp/ndk.cpp:35-40 | The gray value lies between the smallest and the largest channel |
| Bitmaps.GrayIdempotent | core/ndk/src/main/cpp/ndk.cpp:35-41 | A gray pixel maps to itself |
| Bitmaps.Visited | core/ndk/src/main/cpp/ndk.cpp:30-44 | The kernel visits exactly height × width words |
| Bitmaps.VisitedIff | core/ndk/src/main/cpp/ndk.cpp:30-44 | A word is visited exactly when it is column x < width of a row y < height, at y·(stride/4) + x |
| Bitmaps.VisitedOneMoreRow | core/ndk/src/main/cpp/ndk.cpp:31-43 | Each row adds its width words after the rows before it |
| Bitmaps.VisitedBounds | core/ndk/src/main/cpp/ndk.cpp:30-44 | Every visited word lies inside the height rows of the buffer |
| Bitmaps.VisitedIncreasing | core/ndk/src/main/cpp/ndk.cpp:30-44 | Visited offsets strictly increase, so no word is written twice |
| Bitmaps.PixelVisited | core/ndk/src/main/cpp/ndk.cpp:31-33 | Pixel (x, y) of the image is visited |
| Bitmaps.PaddingNotVisited | core/ndk/src/main/cpp/ndk.cpp:31-43 | Words beyond width in a row, the row padding, are never visited |
| Bitmaps.Grayscaled | core/ndk/src/main/cpp/ndk.cpp:30-44 | The buffer after the loops: visited words become Gray of their own value and all others keep theirs |
| Bitmaps.GrayscaleBitmap | core/ndk/src/main/cpp/ndk.cpp:14-44 | The length is kept. A failed info, a non-RGBA_8888 format or a failed lock leaves the buffer unchanged |
| Bitmaps.GrayscaleBitmapPixels | core/ndk/src/main/cpp/ndk.cpp:30-44 | Pixel (x, y) becomes Gray of its own original value and padding words are kept |
| Bitmaps.GrayscaleBitmapIdempotent | core/ndk/src/main/cpp/ndk.cpp:14-44 | Running the kernel twice gives the same buffer as running it once |
| Ndk.Grayscale | core/ndk/src/main/cpp/ndk.cpp:10-47 | The nested loops with the stride advance leave exactly GrayscaleBitmap of the old contents in the buffer |
| Engine.Grayscale | core/engine/src/main/cpp/engine.cpp:10-47 | The same in-place loops, leaving exactly GrayscaleBitmap of the old contents |
| Engine.SameAsNdk | core/engine/src/main/cpp/engine.cpp:10-47 | On equal buffers the two kernels produce equal outputs |

## Findings

| source | as written | input that shows it | evidently intended | confidence | as-written member | corrected member |
|---|---|---|---|---|---|---|
| core/model/src/main/java/br/com/b256/core/model/mapper/ResourceMapper.kt:36 | `catch` passes the nullable `localizedMessage` to `Resource.Error(message: String)`, whose parameter is non-null. For an exception without a message the constructor's null check throws inside `catch`, so the collector gets a NullPointerException and no `Error` (ResourceMapper.AsWrittenLosesMessagelessError, ResourceMapper.MessagelessIOExceptionExample) | `flow<Int> { throw IOException() }.asResource()` emits `Loading(true)` and then fails | end with an `Error` state, as the documentation of `asResource` promises, e.g. `Error("")` | not executed; medium | ResourceMapper.AsResourceAsWritten | ResourceMapper.AsResource |

## Left out

- Concurrency is not modelled: the fire-and-forget `launch` of the persistence and of `clean()`, `runBlocking` in `getToken`, and the `init` load racing with early saves. Persistence and clean are recorded as requests, and the startup load is an explicit `LoadStored` step.
- `flowOn`, `conflate` and the callback's unregistration on close are not modelled, because they affect scheduling and dropped values, not the emitted values. Callback events are modelled as arriving after the initial emission.
- Tracing spans and `Log` calls are not modelled, because they only observe.
- ResourceMapper.AsResourceAsWritten: the NullPointerException that a message-less exception causes is modelled as a message-less exception; its text is not kept.
- Cancellation inside flows is not modelled: `safeApiFlow`'s `catch (Exception)` would also catch a cancellation, and that is not distinguished.
- Throwables other than exceptions (`Error`s) are not modelled; every throwable is treated as an exception.
- Lowercasing is ASCII only. Kotlin's `lowercase()` is Unicode-aware, and the model has no Unicode case folding.
- OkHttp's header name and value validation, and the "; charset=utf-8" suffix OkHttp adds to a text media type, are not modelled. OkHttp's code is not part of this model; `SetHeader` follows its `Headers.Builder.set`, which removes the name and adds the value trimmed.
- Retrofit's HttpException message, the JSON parser, the URL parser and the cookie parser are parameters, because their code is not part of this model.
- The persisted-cookie round trip across restarts is not claimed. Saves key by the bare host, and the reload parses keys as full URLs.
- `AndroidBitmap_getInfo`, `AndroidBitmap_lockPixels` and `unlockPixels` become the `info` and `locked` parameters. The buffer is assumed to hold height rows at a stride that is a multiple of four bytes and at least the width (`Fits`).
- Ndk.Grayscale: the C `0xFF << 24` overflows a signed `int`. It is taken as its unsigned 32-bit value, which is what the platform produces.
- The time-zone conversion `toLocalDateTime` is not modelled; the local date-time is an input.
- ExceptionInterceptor.Intercept: only a negative code makes the rebuild throw. No other builder failure is modelled.
- `toIsoString`, the Instant serializers and converters, and the proto serializer of the cookie store are not part of this model.
