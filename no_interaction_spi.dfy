/** `NoInteractionHandlerSpiImpl`: the request SPI plus the verdict the
    no-interaction handler (`prompt=none`) asks for. */
module NoInteractionHandlerSpi {
  import opened JsValues
  import opened Users
  import opened AuthorizationRequestHandlerSpi

  /** `isUserAuthenticated()`: whether a subject can be reported. */
  function IsUserAuthenticated(spi: RequestSpi): (authenticated: bool)
    ensures authenticated <==> spi.user.Val?
  {
    GetUserSubject(spi) != Null
  }

  /** The verdict depends on the user only, never on the authentication
      time. */
  lemma VerdictIgnoresAuthTime(user: Js<User>, t1: Js<int>, t2: Js<int>)
    ensures IsUserAuthenticated(RequestSpi(user, t1)) == IsUserAuthenticated(RequestSpi(user, t2))
  {
  }

  /** Without a user the handler sees: not authenticated, authenticated at
      0, and `null` for every claim, whatever the authentication time. */
  lemma NoUserNothingReported<V>(user: Js<User>, authTime: Js<int>, getClaim: ClaimLookup<V>,
                                 subject: string, claimName: string, languageTag: Js<string>)
    requires !user.Val?
    ensures !IsUserAuthenticated(RequestSpi(user, authTime))
    ensures GetUserAuthenticatedAt(RequestSpi(user, authTime)) == 0
    ensures GetUserClaimValue(RequestSpi(user, authTime), getClaim, subject, claimName, languageTag) == Null
  {
  }
}
