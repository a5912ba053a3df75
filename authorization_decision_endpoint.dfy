/** The decision endpoint (`POST /authorization/decision`): the target of
    the form on the authorization page. It logs the user in if the session
    has none, consumes the pending request stored by the authorization
    endpoint, and hands the user's decision to Authlete's decision handler. */
module AuthorizationDecisionEndpoint {
  import opened JsValues
  import opened Users
  import opened AuthleteTypes
  import opened SessionStore
  import FormParameters
  import opened AuthorizationRequestHandlerSpi
  import opened AuthorizationDecisionHandlerSpi
  import AuthorizationEndpoint

  /** The message of the 400 response to a decision without a pending
      request. */
  const ParamsMissingMessage := "'params' must be present in the session."

  /** The response the endpoint produces, or the handler it hands over to. */
  datatype Outcome =
    | ParamsMissing(message: string)                  // 400 Bad Request
    | DecisionDelegated(params: Params, spi: DecisionSpi)

  // ---------------------------------------------------------------------
  // The rules, as functions of the session's keys

  /** The session after `authenticateUserIfNecessary` at instant `now`. */
  function Authenticated(sem: StoreSemantics, st: SessionState, form: FormParameters.Form,
                         lookup: CredentialLookup, now: int): SessionState
  {
    if Has(sem, st.user) then st
    else
      var loginUser := lookup(FormParameters.Get(form, "loginId"), FormParameters.Get(form, "password"));
      if loginUser.Val? then st.(user := Set(sem, loginUser), authTime := Set(sem, Val(now)))
      else st
  }

  /** `takeAttribute` on one key: what it returns and what it leaves. */
  function Take<T>(sem: StoreSemantics, s: Slot<T>): (r: (Js<T>, Slot<T>))
    ensures !Get(sem, r.1).Val?
  {
    if !Has(sem, s) then (Null, s)
    else (Get(sem, s), Set(sem, Null))
  }

  /** The session after `handlePost`, and its outcome. */
  function Decided(sem: StoreSemantics, st: SessionState, form: FormParameters.Form,
                   lookup: CredentialLookup, now: int): (SessionState, Outcome)
  {
    var st1 := Authenticated(sem, st, form, lookup, now);
    var (params, slot) := Take(sem, st1.params);
    var st2 := st1.(params := slot);
    if !params.Val? then (st2, ParamsMissing(ParamsMissingMessage))
    else
      var authorized := FormParameters.Has(form, "authorized");
      (st2, DecisionDelegated(params.value,
                              NewDecisionSpi(authorized, Get(sem, st2.user), Get(sem, st2.authTime))))
  }

  // ---------------------------------------------------------------------
  // The endpoint

  /** `authenticateUserIfNecessary`, with the clock reading `now` passed in. */
  method AuthenticateUserIfNecessary(session: Session, form: FormParameters.Form,
                                     lookup: CredentialLookup, now: int)
    modifies session
    ensures session.State() == Authenticated(session.sem, old(session.State()), form, lookup, now)
  {
    if Has(session.sem, session.user) {
      return;
    }
    var loginId := FormParameters.Get(form, "loginId");
    var password := FormParameters.Get(form, "password");
    var loginUser := lookup(loginId, password);
    if loginUser.Val? {
      session.user := Set(session.sem, loginUser);
      session.authTime := Set(session.sem, Val(now));
    }
  }

  /** `takeAttribute(session, 'params')`. */
  method TakeParams(session: Session) returns (value: Js<Params>)
    modifies session
    ensures (value, session.params) == Take(session.sem, old(session.params))
    ensures session.State() == old(session.State()).(params := session.params)
  {
    if !Has(session.sem, session.params) {
      return Null;
    }
    value := Get(session.sem, session.params);
    session.params := Set(session.sem, Null);
  }

  /** `AuthorizationDecisionEndpoint.handlePost`. */
  method HandlePost(session: Session, form: FormParameters.Form,
                    lookup: CredentialLookup, now: int) returns (o: Outcome)
    modifies session
    ensures (session.State(), o) == Decided(session.sem, old(session.State()), form, lookup, now)
  {
    AuthenticateUserIfNecessary(session, form, lookup, now);
    var params := TakeParams(session);
    if !params.Val? {
      return ParamsMissing(ParamsMissingMessage);
    }
    var authorized := FormParameters.Has(form, "authorized");
    var user := Get(session.sem, session.user);
    var authTime := Get(session.sem, session.authTime);
    var spi := NewDecisionSpi(authorized, user, authTime);
    o := DecisionDelegated(params.value, spi);
  }

  /** Two submissions of the form with no authorization request between
      them: the second is always refused. */
  method SubmitTwice(session: Session, form1: FormParameters.Form, form2: FormParameters.Form,
                     lookup: CredentialLookup, now1: int, now2: int)
    returns (first: Outcome, second: Outcome)
    modifies session
    ensures second == ParamsMissing(ParamsMissingMessage)
    ensures first.DecisionDelegated? <==> Get(session.sem, old(session.params)).Val?
  {
    first := HandlePost(session, form1, lookup, now1);
    second := HandlePost(session, form2, lookup, now2);
    SecondSubmissionRejected(session.sem, old(session.State()), form1, form2, lookup, now1, now2);
    RejectedIffNoPendingRequest(session.sem, old(session.State()), form1, lookup, now1);
  }

  // ---------------------------------------------------------------------
  // Properties of the login step

  /** A session that has a user is not touched by the login step. */
  lemma ExistingUserKept(sem: StoreSemantics, st: SessionState, form: FormParameters.Form,
                         lookup: CredentialLookup, now: int)
    requires Has(sem, st.user)
    ensures Authenticated(sem, st, form, lookup, now) == st
  {
  }

  /** Without a user, credentials that the store accepts log its user in
      at `now`; nothing else changes. */
  lemma LoginRecordsUserAndTime(sem: StoreSemantics, st: SessionState, form: FormParameters.Form,
                                lookup: CredentialLookup, now: int)
    requires !Has(sem, st.user)
    requires lookup(FormParameters.Get(form, "loginId"), FormParameters.Get(form, "password")).Val?
    ensures var st' := Authenticated(sem, st, form, lookup, now);
            Get(sem, st'.user) == lookup(FormParameters.Get(form, "loginId"), FormParameters.Get(form, "password")) &&
            Get(sem, st'.authTime) == Val(now) &&
            st'.params == st.params && st'.acrs == st.acrs && st'.client == st.client
  {
  }

  /** Without a user, rejected credentials change nothing, and the request
      goes on: whether it is refused depends on the pending request only,
      and the decision then carries the session's (absent) user. */
  lemma FailedLoginContinues(sem: StoreSemantics, st: SessionState, form: FormParameters.Form,
                             lookup: CredentialLookup, now: int)
    requires !Has(sem, st.user)
    requires !lookup(FormParameters.Get(form, "loginId"), FormParameters.Get(form, "password")).Val?
    requires Get(sem, st.params).Val?
    ensures Authenticated(sem, st, form, lookup, now) == st
    ensures var o := Decided(sem, st, form, lookup, now).1;
            o.DecisionDelegated? && o.spi.base.user == Get(sem, st.user) && !o.spi.base.user.Val?
  {
  }

  // ---------------------------------------------------------------------
  // Properties of takeAttribute

  /** A key `has` does not report: `null`, and the key is left alone. */
  lemma TakeMissingKey<T>(sem: StoreSemantics, s: Slot<T>)
    requires !Has(sem, s)
    ensures Take(sem, s) == (Null, s)
  {
  }

  /** A key `has` reports: its value, and the key then holds `null` (or is
      gone), so an immediate second take yields `null`. */
  lemma TakeTwice<T>(sem: StoreSemantics, s: Slot<T>)
    requires Has(sem, s)
    ensures Take(sem, s).0 == Get(sem, s)
    ensures Take(sem, Take(sem, s).1).0 == Null
  {
  }

  // ---------------------------------------------------------------------
  // Properties of handlePost

  /** The request is refused with 400 exactly when the session holds no
      pending request; the login step never decides it. */
  lemma RejectedIffNoPendingRequest(sem: StoreSemantics, st: SessionState, form: FormParameters.Form,
                                    lookup: CredentialLookup, now: int)
    ensures Decided(sem, st, form, lookup, now).1.ParamsMissing? <==> !Get(sem, st.params).Val?
    ensures Decided(sem, st, form, lookup, now).1.ParamsMissing? ==>
              Decided(sem, st, form, lookup, now).1 == ParamsMissing(ParamsMissingMessage)
  {
    assert Authenticated(sem, st, form, lookup, now).params == st.params;
  }

  /** Whatever the outcome, no pending request is left behind. */
  lemma PendingRequestConsumed(sem: StoreSemantics, st: SessionState, form: FormParameters.Form,
                               lookup: CredentialLookup, now: int)
    ensures !Get(sem, Decided(sem, st, form, lookup, now).0.params).Val?
  {
  }

  /** A second submission after a first, with no authorization request in
      between, is refused. */
  lemma SecondSubmissionRejected(sem: StoreSemantics, st: SessionState,
                                 form1: FormParameters.Form, form2: FormParameters.Form,
                                 lookup: CredentialLookup, now1: int, now2: int)
    ensures var st1 := Decided(sem, st, form1, lookup, now1).0;
            Decided(sem, st1, form2, lookup, now2).1 == ParamsMissing(ParamsMissingMessage)
  {
    var st1 := Decided(sem, st, form1, lookup, now1).0;
    PendingRequestConsumed(sem, st, form1, lookup, now1);
    RejectedIffNoPendingRequest(sem, st1, form2, lookup, now2);
  }

  /** A decision carries the pending request, approval exactly when the
      form has an `authorized` entry (whatever its value), and the user and
      time the session holds after the login step. */
  lemma DecisionContents(sem: StoreSemantics, st: SessionState, form: FormParameters.Form,
                         lookup: CredentialLookup, now: int)
    requires Get(sem, st.params).Val?
    ensures var (st', o) := Decided(sem, st, form, lookup, now);
            o.DecisionDelegated? && o.params == Get(sem, st.params).value &&
            (IsClientAuthorized(o.spi) <==> exists i :: 0 <= i < |form| && form[i].0 == "authorized") &&
            o.spi.base == RequestSpi(Get(sem, st'.user), Get(sem, st'.authTime)) &&
            st'.user == Authenticated(sem, st, form, lookup, now).user &&
            st'.authTime == Authenticated(sem, st, form, lookup, now).authTime
  {
    assert Authenticated(sem, st, form, lookup, now).params == st.params;
  }

  // ---------------------------------------------------------------------
  // Across the two endpoints

  /** After `prompt=login` has discarded a cached login, a decision with
      accepted credentials logs the user in again exactly when the session
      library does not report the `null` left in `user` as present. */
  lemma ReloginAfterLoginPrompt(sem: StoreSemantics, st: SessionState, info: AuthorizationResponse,
                                now: int, form: FormParameters.Form, lookup: CredentialLookup,
                                later: int)
    requires Get(sem, st.user).Val? && Get(sem, st.authTime).Val?
    requires AuthorizationEndpoint.LoginRequested(info)
    requires lookup(FormParameters.Get(form, "loginId"), FormParameters.Get(form, "password")).Val?
    ensures var st1 := AuthorizationEndpoint.InteractionState(sem, st, info, now);
            Get(sem, Authenticated(sem, st1, form, lookup, later).user).Val? <==>
              !(sem.nullKeyIsPresent && !sem.nullWriteDeletes)
  {
    var st1 := AuthorizationEndpoint.InteractionState(sem, st, info, now);
    assert st1.user == Set(sem, Null);
    SetNullReadsFalsy<User>(sem);
  }
}
