/** The authorization endpoint (`GET`/`POST /authorization`). It passes the
    request to Authlete's `/auth/authorization` API and acts on the action
    code in the answer: render the authorization page, resolve a
    `prompt=none` request from the cached login, or let the library format
    an error. Before rendering it decides, after section 3.1.2.1 of OpenID
    Connect Core 1.0, whether the cached login may be reused. */
module AuthorizationEndpoint {
  import opened JsValues
  import opened Users
  import opened AuthleteTypes
  import opened SessionStore
  import opened AuthorizationRequestHandlerSpi
  import opened NoInteractionHandlerSpi

  /** The template of the authorization page. */
  const AuthorizationPage := "./rsc/ejs/authorization.ejs"

  /** What calling `/auth/authorization` gave: an answer, or an exception. */
  datatype ApiResult = Answered(response: AuthorizationResponse) | CallFailed

  /** `AuthorizationPageModel(info, user)`: what the page is rendered from. */
  datatype PageModel = PageModel(info: AuthorizationResponse, user: Js<User>)

  /** The response the endpoint produces, or the handler it hands over to. */
  datatype Outcome =
    | ApiCallFailed                          // 500 Internal Server Error
    | PageRendered(template: string, model: PageModel)  // 200 OK with the page
    | NoInteractionDelegated(spi: RequestSpi, response: AuthorizationResponse)
    | ErrorDelegated(response: AuthorizationResponse)
    | RequestThrew                           // an exception escapes the endpoint

  // ---------------------------------------------------------------------
  // The rules, as functions of the session's keys

  /** Whether the request asks for `prompt=login`. */
  predicate LoginRequested(info: AuthorizationResponse)
  {
    Login in info.prompts
  }

  /** Whole seconds, rounded, between the authentication and `now`. */
  function AuthAge(now: int, authTime: int): int
  {
    RoundMillisToSeconds(now - authTime)
  }

  /** Whether a positive `max_age` is exceeded by the authentication age. */
  predicate MaxAgeExceeded(info: AuthorizationResponse, authTime: int, now: int)
  {
    info.maxAge > 0 && AuthAge(now, authTime) > info.maxAge
  }

  /** Whether the cached login must be discarded: there is one, and either
      a login is explicitly requested or it is too old. */
  predicate MustReauthenticate(sem: StoreSemantics, st: SessionState,
                               info: AuthorizationResponse, now: int)
  {
    var user, authTime := Get(sem, st.user), Get(sem, st.authTime);
    user.Val? && authTime.Val? &&
    (LoginRequested(info) || MaxAgeExceeded(info, authTime.value, now))
  }

  /** The session after `clearUserData`. Only `user` and `authTime` change. */
  function Cleared(sem: StoreSemantics, st: SessionState): (st': SessionState)
    ensures !Get(sem, st'.user).Val? && !Get(sem, st'.authTime).Val?
    ensures st'.params == st.params && st'.acrs == st.acrs && st'.client == st.client
  {
    st.(user := Set(sem, Null), authTime := Set(sem, Null))
  }

  /** The session after the freshness check. */
  function FreshnessChecked(sem: StoreSemantics, st: SessionState,
                            info: AuthorizationResponse, now: int): SessionState
  {
    if MustReauthenticate(sem, st, info, now) then Cleared(sem, st) else st
  }

  /** The session after the pending request has been stored. */
  function PendingStored(sem: StoreSemantics, st: SessionState,
                         info: AuthorizationResponse): (st': SessionState)
    ensures Get(sem, st'.params) == Val(ParamsFrom(info))
    ensures Get(sem, st'.acrs).Val? <==> info.acrs.Val?
    ensures info.acrs.Val? ==> Get(sem, st'.acrs) == info.acrs
    ensures Get(sem, st'.client).Val? <==> info.client.Val?
    ensures info.client.Val? ==> Get(sem, st'.client) == info.client
    ensures st'.user == st.user && st'.authTime == st.authTime
  {
    st.(params := Set(sem, Val(ParamsFrom(info))),
        acrs := Set(sem, info.acrs),
        client := Set(sem, info.client))
  }

  /** The session after the interaction path. */
  function InteractionState(sem: StoreSemantics, st: SessionState,
                            info: AuthorizationResponse, now: int): SessionState
  {
    FreshnessChecked(sem, PendingStored(sem, st, info), info, now)
  }

  // ---------------------------------------------------------------------
  // The freshness check as the source writes it

  /** How the freshness check ends: normally, or with an exception thrown
      after some keys may already have been written. */
  datatype Checked = Completed(state: SessionState) | Threw(state: SessionState)

  /** `clearUserDataIfNecessary` with its guard `user === null || authTime
      === null`: a key that was never set reads as `undefined`, passes the
      guard, and `authTime.getTime()` then throws when `max_age` is positive. */
  function FreshnessCheckedAsWritten(sem: StoreSemantics, st: SessionState,
                                     info: AuthorizationResponse, now: int): Checked
  {
    var user, authTime := Get(sem, st.user), Get(sem, st.authTime);
    if user == Null || authTime == Null then Completed(st)
    else
      var afterPrompts := if LoginRequested(info) then Cleared(sem, st) else st;
      if info.maxAge <= 0 then Completed(afterPrompts)
      else if !authTime.Val? then Threw(afterPrompts)
      else if MaxAgeExceeded(info, authTime.value, now) then Completed(Cleared(sem, afterPrompts))
      else Completed(afterPrompts)
  }

  // ---------------------------------------------------------------------
  // The endpoint

  /** `clearUserData`. */
  method ClearUserData(session: Session)
    modifies session
    ensures session.State() == Cleared(session.sem, old(session.State()))
  {
    session.user := Set(session.sem, Null);
    session.authTime := Set(session.sem, Null);
  }

  /** `checkPrompts`: clears the cached login when `login` is requested. */
  method CheckPrompts(info: AuthorizationResponse, session: Session)
    modifies session
    ensures session.State() ==
              if LoginRequested(info) then Cleared(session.sem, old(session.State()))
              else old(session.State())
  {
    if info.prompts == [] {
      return;
    }
    if Login in info.prompts {
      ClearUserData(session);
    }
  }

  /** `checkAuthenticationAge`, with the clock reading `now` passed in. It
      throws (`threw`) when it has to compute an age from a missing time. */
  method CheckAuthenticationAge(info: AuthorizationResponse, session: Session,
                                authTime: Js<int>, now: int) returns (threw: bool)
    modifies session
    ensures threw <==> info.maxAge > 0 && !authTime.Val?
    ensures session.State() ==
              if authTime.Val? && MaxAgeExceeded(info, authTime.value, now)
              then Cleared(session.sem, old(session.State()))
              else old(session.State())
  {
    threw := false;
    if info.maxAge <= 0 {
      return;
    }
    if !authTime.Val? {
      threw := true;
      return;
    }
    var authAge := RoundMillisToSeconds(now - authTime.value);
    if authAge > info.maxAge {
      ClearUserData(session);
    }
  }

  /** `clearUserDataIfNecessary` as the source writes it. */
  method ClearUserDataIfNecessaryAsWritten(info: AuthorizationResponse, session: Session, now: int)
    returns (threw: bool)
    modifies session
    ensures (if threw then Threw(session.State()) else Completed(session.State()))
         == FreshnessCheckedAsWritten(session.sem, old(session.State()), info, now)
  {
    var user := Get(session.sem, session.user);
    var authTime := Get(session.sem, session.authTime);
    if user == Null || authTime == Null {
      return false;
    }
    CheckPrompts(info, session);
    threw := CheckAuthenticationAge(info, session, authTime, now);
  }

  /** `clearUserDataIfNecessary` with the guard its comment describes: no
      check when the session holds no user or no authentication time. */
  method ClearUserDataIfNecessary(info: AuthorizationResponse, session: Session, now: int)
    modifies session
    ensures session.State() == FreshnessChecked(session.sem, old(session.State()), info, now)
  {
    var user := Get(session.sem, session.user);
    var authTime := Get(session.sem, session.authTime);
    if !user.Val? || !authTime.Val? {
      return;
    }
    CheckPrompts(info, session);
    var threw := CheckAuthenticationAge(info, session, authTime, now);
    assert !threw;
  }

  /** `handleInteraction`: store the pending request, apply the freshness
      check, and render the page for the user left in the session. */
  method HandleInteraction(info: AuthorizationResponse, session: Session, now: int)
    returns (o: Outcome)
    modifies session
    ensures session.State() == InteractionState(session.sem, old(session.State()), info, now)
    ensures o == PageRendered(AuthorizationPage, PageModel(info, Get(session.sem, session.user)))
  {
    session.params := Set(session.sem, Val(ParamsFrom(info)));
    session.acrs := Set(session.sem, info.acrs);
    session.client := Set(session.sem, info.client);
    ClearUserDataIfNecessary(info, session, now);
    var user := Get(session.sem, session.user);
    o := PageRendered(AuthorizationPage, PageModel(info, user));
  }

  /** `handleInteraction` as the source writes it: with the source's guard
      the freshness check may throw, after the pending request has been
      stored, and then no page is rendered. */
  method HandleInteractionAsWritten(info: AuthorizationResponse, session: Session, now: int)
    returns (o: Outcome)
    modifies session
    ensures var checked := FreshnessCheckedAsWritten(session.sem,
              PendingStored(session.sem, old(session.State()), info), info, now);
            && session.State() == checked.state
            && (checked.Threw? ==> o == RequestThrew)
            && (checked.Completed? ==>
                  o == PageRendered(AuthorizationPage, PageModel(info, Get(session.sem, session.user))))
  {
    session.params := Set(session.sem, Val(ParamsFrom(info)));
    session.acrs := Set(session.sem, info.acrs);
    session.client := Set(session.sem, info.client);
    var threw := ClearUserDataIfNecessaryAsWritten(info, session, now);
    if threw {
      return RequestThrew;
    }
    var user := Get(session.sem, session.user);
    o := PageRendered(AuthorizationPage, PageModel(info, user));
  }

  /** `handleNoInteraction`: build the SPI from the cached login and hand
      the request to the library's no-interaction handler. It only reads
      the session. */
  method HandleNoInteraction(info: AuthorizationResponse, session: Session) returns (o: Outcome)
    ensures o.NoInteractionDelegated? && o.response == info
    ensures o.spi == RequestSpi(Get(session.sem, session.user), Get(session.sem, session.authTime))
    ensures IsUserAuthenticated(o.spi) <==> Get(session.sem, session.user).Val?
  {
    var user := Get(session.sem, session.user);
    var authTime := Get(session.sem, session.authTime);
    var spi := RequestSpi(user, authTime);
    o := NoInteractionDelegated(spi, info);
  }

  /** `handle`: call the API, then dispatch on its action code. */
  method Handle(api: ApiResult, session: Session, now: int) returns (o: Outcome)
    modifies session
    ensures api.CallFailed? ==> o == ApiCallFailed && session.State() == old(session.State())
    ensures api.Answered? && api.response.action == Interaction ==>
              session.State() == InteractionState(session.sem, old(session.State()), api.response, now) &&
              o == PageRendered(AuthorizationPage, PageModel(api.response, Get(session.sem, session.user)))
    ensures api.Answered? && api.response.action == NoInteraction ==>
              session.State() == old(session.State()) &&
              o == NoInteractionDelegated(RequestSpi(Get(session.sem, session.user),
                                                     Get(session.sem, session.authTime)),
                                          api.response)
    ensures api.Answered? && api.response.action !in {Interaction, NoInteraction} ==>
              session.State() == old(session.State()) && o == ErrorDelegated(api.response)
  {
    if api.CallFailed? {
      return ApiCallFailed;
    }
    var response := api.response;
    match response.action {
      case Interaction =>
        o := HandleInteraction(response, session, now);
      case NoInteraction =>
        o := HandleNoInteraction(response, session);
      case _ =>
        o := ErrorDelegated(response);
    }
  }

  // ---------------------------------------------------------------------
  // Properties of the freshness check

  /** Nothing cached: the check leaves the whole session as it is. */
  lemma NoCachedLoginNoChange(sem: StoreSemantics, st: SessionState,
                              info: AuthorizationResponse, now: int)
    requires !Get(sem, st.user).Val? || !Get(sem, st.authTime).Val?
    ensures FreshnessChecked(sem, st, info, now) == st
  {
  }

  /** `prompt=login` discards a cached login whatever its age and whatever
      `max_age` says; the other keys are untouched. */
  lemma LoginPromptForcesReauthentication(sem: StoreSemantics, st: SessionState,
                                          info: AuthorizationResponse, now: int)
    requires Get(sem, st.user).Val? && Get(sem, st.authTime).Val?
    requires LoginRequested(info)
    ensures var st' := FreshnessChecked(sem, st, info, now);
            !Get(sem, st'.user).Val? && !Get(sem, st'.authTime).Val? &&
            st'.params == st.params && st'.acrs == st.acrs && st'.client == st.client
  {
  }

  /** A `max_age` that is not positive never expires a login. */
  lemma NonPositiveMaxAgeNeverExpires(sem: StoreSemantics, st: SessionState,
                                      info: AuthorizationResponse, now: int)
    requires info.maxAge <= 0 && !LoginRequested(info)
    ensures FreshnessChecked(sem, st, info, now) == st
  {
  }

  /** With a positive `max_age` and a cached login, the login is discarded
      when the rounded age exceeds `max_age`, and kept when it does not and
      no login is requested. */
  lemma MaxAgeRule(sem: StoreSemantics, st: SessionState, info: AuthorizationResponse,
                   now: int, t: int)
    requires Get(sem, st.user).Val? && Get(sem, st.authTime) == Val(t)
    requires info.maxAge > 0
    ensures AuthAge(now, t) > info.maxAge ==>
              FreshnessChecked(sem, st, info, now) == Cleared(sem, st)
    ensures AuthAge(now, t) <= info.maxAge && !LoginRequested(info) ==>
              FreshnessChecked(sem, st, info, now) == st
  {
  }

  /** The age rule without rounding: a login expires exactly when at least
      `max_age` seconds and a half have passed since it. */
  lemma MaxAgeThreshold(info: AuthorizationResponse, t: int, now: int)
    requires info.maxAge > 0
    ensures MaxAgeExceeded(info, t, now) <==> now - t >= 1000 * info.maxAge + 500
  {
    RoundedExceeds(now - t, info.maxAge);
  }

  /** Once expired, a login stays expired at every later instant. */
  lemma ExpiryIsPermanent(info: AuthorizationResponse, t: int, now: int, later: int)
    requires MaxAgeExceeded(info, t, now) && now <= later
    ensures MaxAgeExceeded(info, t, later)
  {
    RoundMillisToSecondsMonotone(now - t, later - t);
  }

  /** Applying the check twice at the same instant is applying it once. */
  lemma FreshnessCheckIdempotent(sem: StoreSemantics, st: SessionState,
                                 info: AuthorizationResponse, now: int)
    ensures FreshnessChecked(sem, FreshnessChecked(sem, st, info, now), info, now)
         == FreshnessChecked(sem, st, info, now)
  {
  }

  /** The interaction path leaves the pending request in the session, and
      changes the login exactly as the freshness check of the session it
      started from would. */
  lemma InteractionStoresPendingRequest(sem: StoreSemantics, st: SessionState,
                                        info: AuthorizationResponse, now: int)
    ensures var st' := InteractionState(sem, st, info, now);
            Get(sem, st'.params) == Val(ParamsFrom(info)) &&
            st'.acrs == Set(sem, info.acrs) && st'.client == Set(sem, info.client) &&
            st'.user == FreshnessChecked(sem, st, info, now).user &&
            st'.authTime == FreshnessChecked(sem, st, info, now).authTime
  {
  }

  // ---------------------------------------------------------------------
  // The guard as written against the corrected one

  /** As written, a session in which no login ever happened throws on every
      request with a positive `max_age`, if a key never set reads as
      `undefined`. */
  lemma AsWrittenThrowsOnFreshSession(sem: StoreSemantics, info: AuthorizationResponse, now: int)
    requires !sem.absentReadsAsNull && info.maxAge > 0
    ensures FreshnessCheckedAsWritten(sem, EmptyState(), info, now).Threw?
  {
  }

  /** As written, the interaction path on such a session stores the pending
      request and then throws, so no page is rendered. */
  lemma InteractionAsWrittenThrowsOnFreshSession(sem: StoreSemantics, info: AuthorizationResponse, now: int)
    requires !sem.absentReadsAsNull && info.maxAge > 0
    ensures var c := FreshnessCheckedAsWritten(sem, PendingStored(sem, EmptyState(), info), info, now);
            c.Threw? && Get(sem, c.state.params) == Val(ParamsFrom(info))
  {
  }

  /** As written, a second way in: if the library deletes a key set to
      `null`, a login cleared by `prompt=login` leaves the keys unset, and
      the next interaction request with a positive `max_age` throws. */
  lemma AsWrittenThrowsAfterLoginClear(sem: StoreSemantics, st: SessionState,
                                       info1: AuthorizationResponse, info2: AuthorizationResponse,
                                       now: int, later: int)
    requires sem.nullWriteDeletes && !sem.absentReadsAsNull
    requires Get(sem, st.user).Val? && Get(sem, st.authTime).Val?
    requires LoginRequested(info1) && info2.maxAge > 0
    ensures var c1 := FreshnessCheckedAsWritten(sem, PendingStored(sem, st, info1), info1, now);
            c1.Completed? &&
            FreshnessCheckedAsWritten(sem, PendingStored(sem, c1.state, info2), info2, later).Threw?
  {
  }

  /** The corrected check leaves such a session alone. */
  lemma CorrectedSkipsFreshSession(sem: StoreSemantics, info: AuthorizationResponse, now: int)
    ensures FreshnessChecked(sem, EmptyState(), info, now) == EmptyState()
  {
  }

  /** Whenever neither key reads as `undefined`, the guard as written and
      the corrected guard do the same thing. */
  lemma AsWrittenAgreesWithoutUndefined(sem: StoreSemantics, st: SessionState,
                                        info: AuthorizationResponse, now: int)
    requires Get(sem, st.user) != Undefined && Get(sem, st.authTime) != Undefined
    ensures FreshnessCheckedAsWritten(sem, st, info, now) == Completed(FreshnessChecked(sem, st, info, now))
  {
  }

  // ---------------------------------------------------------------------
  // Scenarios

  /** A login 3700 seconds old is discarded under `max_age=3600`. */
  lemma ScenarioOldLoginExpires(sem: StoreSemantics, st: SessionState,
                                info: AuthorizationResponse, now: int)
    requires Get(sem, st.user).Val? && Get(sem, st.authTime) == Val(now - 3700000)
    requires info.maxAge == 3600
    ensures FreshnessChecked(sem, st, info, now) == Cleared(sem, st)
  {
  }

  /** A login 100 seconds old is kept under `max_age=3600`. */
  lemma ScenarioRecentLoginKept(sem: StoreSemantics, st: SessionState,
                                info: AuthorizationResponse, now: int)
    requires Get(sem, st.user).Val? && Get(sem, st.authTime) == Val(now - 100000)
    requires info.maxAge == 3600 && info.prompts == []
    ensures FreshnessChecked(sem, st, info, now) == st
  {
  }
}
