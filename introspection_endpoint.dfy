/** The caller check in front of the introspection endpoint
    (`POST /api/introspection`). Section 2.1 of RFC 7662 requires the
    endpoint to authorize its callers; this server accepts every caller
    but the one whose Basic credentials name the user `nobody`. */
module IntrospectionEndpoint {
  import opened JsValues

  /** The `WWW-Authenticate` challenge of the 401 response. */
  const Challenge := "Basic realm=\"/api/introspection\""

  /** Basic credentials parsed from the `Authorization` header. */
  datatype BasicCredentials = BasicCredentials(userId: Js<string>, password: Js<string>)

  /** The response the endpoint produces, or the handler it hands over to. */
  datatype Outcome = Unauthorized(challenge: string) | IntrospectionDelegated

  /** `authenticateApiCaller`, given what parsing the header produced. */
  function AuthenticateApiCaller(credentials: Js<BasicCredentials>): (accepted: bool)
    ensures !accepted <==> credentials.Val? && credentials.value.userId == Val("nobody")
  {
    var userId := if credentials.Val? then credentials.value.userId else Undefined;
    userId != Val("nobody")
  }

  /** `IntrospectionEndpoint.handlePost`. */
  function HandlePost(credentials: Js<BasicCredentials>): (o: Outcome)
    ensures o.Unauthorized? <==> !AuthenticateApiCaller(credentials)
    ensures o.Unauthorized? ==> o.challenge == "Basic realm=\"/api/introspection\""
  {
    if !AuthenticateApiCaller(credentials) then Unauthorized(Challenge)
    else IntrospectionDelegated
  }

  /** Without parseable credentials the caller is accepted. */
  lemma MissingCredentialsAccepted(credentials: Js<BasicCredentials>)
    requires !credentials.Val? || !credentials.value.userId.Val?
    ensures HandlePost(credentials) == IntrospectionDelegated
  {
  }

  /** The password never matters. */
  lemma PasswordIgnored(userId: Js<string>, password: Js<string>, other: Js<string>)
    ensures HandlePost(Val(BasicCredentials(userId, password)))
         == HandlePost(Val(BasicCredentials(userId, other)))
  {
  }
}
