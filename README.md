# Authorization-flow orchestration of the Authlete Deno/Oak OAuth server

This project models the part of the Authlete Deno/Oak authorization server
that drives the interactive OAuth 2.0 / OpenID Connect authorization flow. It
also proves properties of that model. Authlete's API and library handlers do
the protocol work. The server decides when to render the authorization page
and when a cached login may be reused. It keeps the pending request in the
browser session between the page and the user's decision, and it builds the
values (the "SPI" objects) that the library handlers query.

Modules, one per source file, with shared values first:

- `JsValues`: JavaScript values that may be `undefined` or `null`, and
  `Math.round(ms / 1000)` on integer milliseconds, written `(ms + 500) / 1000`
  with floor division.
- `Users`, `AuthleteTypes`: the user entity and the library's response
  values, reduced to the fields the server reads.
- `SessionStore`: the session. Each key is a `Slot`: never set, or holding a
  JavaScript value. The session library is not part of this model. Its
  behaviour in three places is unknown, so `StoreSemantics` makes each a
  parameter: what `get` returns for a key never set, whether `set(key, null)`
  deletes the key, and whether `has` reports a key holding `null`. Every
  property is proved for all eight combinations, or states which ones it
  needs. `Session` is the class the endpoints update in place.
- `FormParameters`: a form body as `URLSearchParams` sees it.
- `AuthorizationRequestHandlerSpi`, `NoInteractionHandlerSpi`,
  `AuthorizationDecisionHandlerSpi`: the SPI objects as immutable datatypes
  with their getters as functions. They are pure, so they have no side
  effects and give the same answer every time they are asked.
- `AuthorizationEndpoint`: the dispatch on the API's action code, the
  interaction path, and the freshness check. That check applies the
  `prompt=login` and `max_age` rules of section 3.1.2.1 of OpenID Connect
  Core 1.0.
- `AuthorizationDecisionEndpoint`: the login step, the read-then-null
  `takeAttribute`, and the decision hand-over.
- `IntrospectionEndpoint`: the demonstration caller check in front of RFC
  7662 introspection (section 2.1 of RFC 7662).

Each method of the two endpoints that changes the session is proved against
a specification function of the session's keys. For example, `HandlePost`
ends in `Decided(sem, old state, …)`. The lemmas state the flow's rules about
those functions.

The clock is an integer `now` in milliseconds, passed in. Authlete's API
answer, the credential lookup and the claim lookup are parameters.

`Handle` uses the freshness check with the guard its comment describes. For
a key that holds `null` that guard does the same as the source; it differs
only where a key reads as `undefined` (see Findings).
`ClearUserDataIfNecessaryAsWritten` models the source's guard exactly.

## Model

| member | source | states |
|---|---|---|
| `JsValues.RoundMillisToSeconds` | src/endpoint/authorization_endpoint.ts:204 | the rounded seconds are the unique integer s with 1000s − 500 ≤ ms < 1000s + 500 (round half up) |
| `JsValues.RoundMillisToSecondsUnique` | src/endpoint/authorization_endpoint.ts:204 | that interval characterisation determines the rounding |
| `JsValues.RoundMillisToSecondsMonotone` | src/endpoint/authorization_endpoint.ts:204 | rounding preserves the order of durations |
| `JsValues.RoundedExceeds` | src/endpoint/authorization_endpoint.ts:204-207 | a rounded age exceeds a limit iff the milliseconds reach 1000·limit + 500 |
| `SessionStore.Get` | src/endpoint/authorization_endpoint.ts:156-157 | `get` yields an object exactly for a key holding one; a key never set yields `null` or `undefined` per the library parameter |
| `SessionStore.Has` | src/endpoint/authorization_decision_endpoint.ts:58-60 | `has` is false for a key never set, true for a key holding an object, and for a key holding `null` it follows the library parameter |
| `SessionStore.Set` | src/endpoint/authorization_endpoint.ts:217-218 | after `set(key, v)` the key reads back as an object iff v is one, and then reads back v and `has` reports it |
| `SessionStore.SetObjectReadsBack` | src/endpoint/authorization_decision_endpoint.ts:48-51 | a stored object is reported by `has` and read back unchanged |
| `SessionStore.SetNullReadsFalsy` | src/endpoint/authorization_endpoint.ts:215-219 | a key set to `null` reads back falsy; `has` reports it iff the library keeps null keys and counts them |
| `SessionStore.Session.constructor` | src/server.ts:29-31 | a new session has none of the five keys set |
| `FormParameters.Get` | src/endpoint/authorization_decision_endpoint.ts:38-39 | a form field is read as a string or `null`, never `undefined` |
| `FormParameters.GetDefinedIffHas` | src/endpoint/authorization_decision_endpoint.ts:38-39 | `get` yields a value iff some entry has that name |
| `FormParameters.GetIsFirstEntry` | src/endpoint/authorization_decision_endpoint.ts:38-39 | the value read is that of the first entry with that name |
| `FormParameters.Has` | src/endpoint/authorization_decision_endpoint.ts:113 | a form has a field iff one of its entries carries that name, whatever its value |
| `FormParameters.HasIgnoresValues` | src/endpoint/authorization_decision_endpoint.ts:113 | whether a name is present depends on the entries' names only |
| `AuthorizationRequestHandlerSpi.GetUserClaimValue` | src/impl/authorization_request_handler_spi_impl.ts:44-54 | `null` when no user was given, otherwise the user's claim lookup for (claim name, language tag) |
| `AuthorizationRequestHandlerSpi.ClaimValueIgnoresSubject` | src/impl/authorization_request_handler_spi_impl.ts:44-54 | the `subject` argument never changes the claim value |
| `AuthorizationRequestHandlerSpi.GetUserAuthenticatedAt` | src/impl/authorization_request_handler_spi_impl.ts:57-67 | 0 when user or time is missing; otherwise the time in seconds rounded half up |
| `AuthorizationRequestHandlerSpi.AuthenticatedAtIsRoundedAuthTime` | src/impl/authorization_request_handler_spi_impl.ts:57-67 | with user and time given, the result is exactly the nearest second (halves up) of the time |
| `AuthorizationRequestHandlerSpi.GetUserSubject` | src/impl/authorization_request_handler_spi_impl.ts:70-80 | `null` iff no user was given; otherwise the user's subject |
| `NoInteractionHandlerSpi.IsUserAuthenticated` | src/impl/no_interaction_handler_spi_impl.ts:28-31 | true iff a user was given (a subject is reported) |
| `NoInteractionHandlerSpi.VerdictIgnoresAuthTime` | src/impl/no_interaction_handler_spi_impl.ts:28-31 | the verdict does not depend on the authentication time |
| `NoInteractionHandlerSpi.NoUserNothingReported` | src/impl/no_interaction_handler_spi_impl.ts:28-31 | without a user: not authenticated, authenticated-at 0, every claim `null` |
| `AuthorizationDecisionHandlerSpi.NewDecisionSpi` | src/impl/authorization_decision_handler_spi_impl.ts:39-50 | `isClientAuthorized` returns the constructor's flag; subject and authenticated-at follow the base rules for the given user and time |
| `AuthorizationDecisionHandlerSpi.IsClientAuthorized` | src/impl/authorization_decision_handler_spi_impl.ts:47-50 | the verdict is exactly the flag the SPI was built with |
| `AuthorizationDecisionHandlerSpi.ApprovalWithoutUser` | src/impl/authorization_decision_handler_spi_impl.ts:39-44 | approval with no user can be constructed, and then reports no subject and time 0 |
| `AuthorizationEndpoint.Cleared` | src/endpoint/authorization_endpoint.ts:215-219 | clearing leaves `user` and `authTime` falsy and `params`, `acrs`, `client` unchanged |
| `AuthorizationEndpoint.PendingStored` | src/endpoint/authorization_endpoint.ts:109-111 | afterwards `params` reads the response's parameters, and `acrs` and `client` read the response's values; the login keys are untouched |
| `AuthorizationEndpoint.ClearUserData` | src/endpoint/authorization_endpoint.ts:215-219 | the session becomes the cleared state of the old one |
| `AuthorizationEndpoint.CheckPrompts` | src/endpoint/authorization_endpoint.ts:174-189 | clears the login iff `login` is among the prompts, otherwise changes nothing |
| `AuthorizationEndpoint.CheckAuthenticationAge` | src/endpoint/authorization_endpoint.ts:192-212 | throws iff `max_age` > 0 and no time is given; clears iff the rounded age exceeds a positive `max_age` |
| `AuthorizationEndpoint.ClearUserDataIfNecessaryAsWritten` | src/endpoint/authorization_endpoint.ts:152-171 | the session and the throw follow the source's `=== null` guard exactly |
| `AuthorizationEndpoint.ClearUserDataIfNecessary` | src/endpoint/authorization_endpoint.ts:152-171 | the session becomes the freshness-checked state; no path throws |
| `AuthorizationEndpoint.HandleInteraction` | src/endpoint/authorization_endpoint.ts:102-124 | the session becomes the interaction state; the page is rendered from the response and the user left after the check |
| `AuthorizationEndpoint.HandleInteractionAsWritten` | src/endpoint/authorization_endpoint.ts:102-124 | with the source's guard: the session becomes the pending request followed by the as-written check; the page is rendered iff that check completes, and otherwise the exception escapes with nothing rendered |
| `AuthorizationEndpoint.HandleNoInteraction` | src/endpoint/authorization_endpoint.ts:127-142 | reads the session only; hands over the SPI from `user`/`authTime`, whose verdict is "authenticated" iff `user` holds an object |
| `AuthorizationEndpoint.Handle` | src/endpoint/authorization_endpoint.ts:39-87 | failed API call: 500, session unchanged; INTERACTION: interaction path; NO_INTERACTION: no-interaction handler, session unchanged; any other action: error handler, session unchanged |
| `AuthorizationEndpoint.NoCachedLoginNoChange` | src/endpoint/authorization_endpoint.ts:156-164 | with no user or no time cached, the check leaves the whole session unchanged |
| `AuthorizationEndpoint.LoginPromptForcesReauthentication` | src/endpoint/authorization_endpoint.ts:184-188 | with a cached login and `prompt=login`, user and time end falsy whatever the age or `max_age`; other keys unchanged |
| `AuthorizationEndpoint.NonPositiveMaxAgeNeverExpires` | src/endpoint/authorization_endpoint.ts:196-200 | `max_age` ≤ 0 without `prompt=login` changes nothing |
| `AuthorizationEndpoint.MaxAgeRule` | src/endpoint/authorization_endpoint.ts:203-211 | positive `max_age`: rounded age > `max_age` clears; otherwise, without `prompt=login`, the login is kept |
| `AuthorizationEndpoint.MaxAgeThreshold` | src/endpoint/authorization_endpoint.ts:203-207 | the age rule clears iff now − authTime ≥ 1000·`max_age` + 500 ms |
| `AuthorizationEndpoint.ExpiryIsPermanent` | src/endpoint/authorization_endpoint.ts:203-211 | a login expired at one instant is expired at every later one |
| `AuthorizationEndpoint.FreshnessCheckIdempotent` | src/endpoint/authorization_endpoint.ts:152-171 | two checks at the same instant equal one |
| `AuthorizationEndpoint.InteractionStoresPendingRequest` | src/endpoint/authorization_endpoint.ts:109-114 | after the interaction path the pending request is in the session and the login keys are those of the freshness check of the prior session |
| `AuthorizationEndpoint.AsWrittenThrowsOnFreshSession` | src/endpoint/authorization_endpoint.ts:159-204 | as written, a session with no keys set throws on every request with positive `max_age` when unset keys read `undefined` |
| `AuthorizationEndpoint.InteractionAsWrittenThrowsOnFreshSession` | src/endpoint/authorization_endpoint.ts:159-204 | as written, an interaction request with positive `max_age` on a session with no keys stores the pending request and then throws |
| `AuthorizationEndpoint.AsWrittenThrowsAfterLoginClear` | src/endpoint/authorization_endpoint.ts:159-219 | as written, if the library deletes keys set to `null`, a `prompt=login` clear of a login completes, and the next interaction request with positive `max_age` throws |
| `AuthorizationEndpoint.CorrectedSkipsFreshSession` | src/endpoint/authorization_endpoint.ts:156-164 | the corrected check leaves a fresh session unchanged |
| `AuthorizationEndpoint.AsWrittenAgreesWithoutUndefined` | src/endpoint/authorization_endpoint.ts:159-164 | when neither key reads `undefined`, the source's guard and the corrected guard give the same session and no throw |
| `AuthorizationEndpoint.ScenarioOldLoginExpires` | src/endpoint/authorization_endpoint.ts:203-211 | a login 3700 s old is cleared under `max_age=3600` |
| `AuthorizationEndpoint.ScenarioRecentLoginKept` | src/endpoint/authorization_endpoint.ts:203-211 | a login 100 s old is kept under `max_age=3600` with no prompts |
| `AuthorizationDecisionEndpoint.Take` | src/endpoint/authorization_decision_endpoint.ts:56-72 | after `takeAttribute` the key never reads back an object |
| `AuthorizationDecisionEndpoint.AuthenticateUserIfNecessary` | src/endpoint/authorization_decision_endpoint.ts:25-53 | the session becomes the logged-in state of the old one |
| `AuthorizationDecisionEndpoint.TakeParams` | src/endpoint/authorization_decision_endpoint.ts:56-72 | returns and leaves what `takeAttribute` specifies for `params`; no other key changes |
| `AuthorizationDecisionEndpoint.HandlePost` | src/endpoint/authorization_decision_endpoint.ts:89-122 | the session and outcome are those of the decision specification |
| `AuthorizationDecisionEndpoint.SubmitTwice` | src/endpoint/authorization_decision_endpoint.ts:89-122 | of two consecutive submissions the second is refused with 400; the first is handed over iff a pending request was stored |
| `AuthorizationDecisionEndpoint.ExistingUserKept` | src/endpoint/authorization_decision_endpoint.ts:28-32 | when `has('user')`, the login step changes nothing |
| `AuthorizationDecisionEndpoint.LoginRecordsUserAndTime` | src/endpoint/authorization_decision_endpoint.ts:42-52 | no user and accepted credentials: `user` reads the found user, `authTime` reads `now`, other keys unchanged |
| `AuthorizationDecisionEndpoint.FailedLoginContinues` | src/endpoint/authorization_decision_endpoint.ts:45-118 | no user and rejected credentials: session unchanged, and the decision is still handed over, without a user |
| `AuthorizationDecisionEndpoint.TakeMissingKey` | src/endpoint/authorization_decision_endpoint.ts:58-62 | a key `has` does not report yields `null` and is left as it is |
| `AuthorizationDecisionEndpoint.TakeTwice` | src/endpoint/authorization_decision_endpoint.ts:65-71 | a reported key yields its value, and an immediate second take yields `null` |
| `AuthorizationDecisionEndpoint.RejectedIffNoPendingRequest` | src/endpoint/authorization_decision_endpoint.ts:102-110 | 400 with the fixed message iff `params` does not hold an object; otherwise the decision handler is invoked |
| `AuthorizationDecisionEndpoint.PendingRequestConsumed` | src/endpoint/authorization_decision_endpoint.ts:56-72 | whatever the outcome, no pending request remains |
| `AuthorizationDecisionEndpoint.SecondSubmissionRejected` | src/endpoint/authorization_decision_endpoint.ts:102-110 | a second submission after any first one, with no authorization request between, is refused |
| `AuthorizationDecisionEndpoint.DecisionContents` | src/endpoint/authorization_decision_endpoint.ts:113-118 | the decision carries the pending request; approval iff the form has an `authorized` entry, whatever its value; and the session's current user and time |
| `AuthorizationDecisionEndpoint.ReloginAfterLoginPrompt` | src/endpoint/authorization_decision_endpoint.ts:28-51 | after `prompt=login` cleared a login, accepted credentials log in again iff the library does not both keep and report the `null` user key |
| `IntrospectionEndpoint.AuthenticateApiCaller` | src/endpoint/introspection_endpoint.ts:30-43 | rejected iff credentials were parsed and their user ID is `nobody` |
| `IntrospectionEndpoint.HandlePost` | src/endpoint/introspection_endpoint.ts:75-82 | 401 with challenge `Basic realm="/api/introspection"` iff the caller is rejected; otherwise one hand-over to the introspection handler |
| `IntrospectionEndpoint.MissingCredentialsAccepted` | src/endpoint/introspection_endpoint.ts:35-42 | missing credentials or a missing user ID are accepted |
| `IntrospectionEndpoint.PasswordIgnored` | src/endpoint/introspection_endpoint.ts:35-42 | the password never changes the outcome |

## Left out

- `src/server.ts` (middleware, view engine, routes, `app.listen`): I/O setup. Only "a new session has no keys" is kept, as the `Session` constructor.
- `src/endpoint/token_endpoint.ts`, `src/endpoint/revocation_endpoint.ts`, `src/endpoint/base_endpoint.ts`: pass-throughs to library handlers, and storage of the API reference.
- Authlete's API and handlers (`api.authorization`, `NoInteractionHandler`, `AuthorizationDecisionHandler`, `AuthorizationRequestErrorHandler`, `IntrospectionRequestHandler`, `Params.from`, `AuthorizationPageModel`): foreign code. The API call becomes its answer or its failure, and each handler becomes the outcome that names what it is given. `Params.from` keeps the response it derives from.
- `handleGet`/`handlePost` of the authorization endpoint and `createAuthorizationRequest`: they only collect the raw parameters for the API call. The API call is modelled by its answer.
- EJS rendering and the response writers (`okHtml`, `badRequest`, `unauthorized`, `internalServerErrorOnApiCallFailure`): modelled as tagged outcomes.
- `UserDao.getByCredentials` and `UserEntity.getClaim`: database code that is not part of this model. Both are function parameters. `UserEntity` is reduced to a non-null string subject.
- `parseAuthorizationHeaderAsBasicCredentials`: library code. Its result is a parameter.
- The wall clock (`new Date()`) and IEEE doubles: time is integer milliseconds, and rounding is exact integer arithmetic. For integer milliseconds this equals JavaScript's.
- The session library's internals, cookies and session identifiers: its observable behaviour is the `StoreSemantics` parameter.
- Concurrent requests on one session, such as two forms submitted at once: each request is modelled as running alone.
- `acrs` or `client` written as `undefined`: treated like a `null` write. Neither key is read back by the core.
- A response whose `prompts` is `null`: represented as the empty sequence. `checkPrompts` treats both alike.
- AuthorizationEndpoint.HandleInteraction: runs the freshness check with the corrected guard described under Findings. `HandleInteractionAsWritten` models the source's interaction path, including the exception that leaves no page rendered.
- AuthorizationEndpoint.Handle: dispatches to the corrected `HandleInteraction`. The source's exception path is carried by `HandleInteractionAsWritten`, not by the dispatch.

## Findings

| source | as written | input that shows it | evidently intended | confidence | as-written member | corrected member |
|---|---|---|---|---|---|---|
| src/endpoint/authorization_endpoint.ts:159 | the "no cached login" guard tests `user === null` or `authTime === null` | a browser session in which nobody has logged in yet (neither key ever set, so `get` yields `undefined`), an authorization request with `max_age=60` and action INTERACTION: the guard passes, and `authTime.getTime()` at line 204 throws a TypeError. Also, with a library that deletes a key set to `null`: a `prompt=login` request clears a login, then a request with `max_age=60` throws the same way | skip the check whenever the session holds no user information, as the comment at lines 161-162 says | not executed; assumes the session library returns `undefined` for a key never set, as with a missing object property | `AuthorizationEndpoint.AsWrittenThrowsOnFreshSession` | `AuthorizationEndpoint.ClearUserDataIfNecessary` |

A related consequence depends on the session library and is not claimed as a
finding. Suppose the library keeps a key set to `null` and `has` reports it.
Then once `prompt=login` has cleared a login, the decision endpoint never
authenticates again in that session, and every decision goes out with no user
(`AuthorizationDecisionEndpoint.ReloginAfterLoginPrompt`).
