/** `AuthorizationRequestHandlerSpiImpl`: the value handed to Authlete's
    handlers on the authorization path. It carries what the session held
    for `user` and `authTime` when it was built and never changes; the
    getters derive what the handlers ask for. */
module AuthorizationRequestHandlerSpi {
  import opened JsValues
  import opened Users

  /** The constructor's arguments, kept as given: each may be a value,
      `null` or `undefined`. */
  datatype RequestSpi = RequestSpi(user: Js<User>, authTime: Js<int>)

  /** `getUserClaimValue(subject, claimName, languageTag)`. */
  function GetUserClaimValue<V>(spi: RequestSpi, getClaim: ClaimLookup<V>,
                                subject: string, claimName: string,
                                languageTag: Js<string>): (r: Js<V>)
    ensures !spi.user.Val? ==> r == Null
    ensures spi.user.Val? ==> r == getClaim(spi.user.value, claimName, languageTag)
  {
    if !spi.user.Val? then Null
    else getClaim(spi.user.value, claimName, languageTag)
  }

  /** `getUserAuthenticatedAt()`: the authentication time in seconds since
      the epoch, or 0. */
  function GetUserAuthenticatedAt(spi: RequestSpi): (seconds: int)
    ensures !spi.user.Val? || !spi.authTime.Val? ==> seconds == 0
    ensures spi.user.Val? && spi.authTime.Val? ==>
              1000 * seconds - 500 <= spi.authTime.value < 1000 * seconds + 500
  {
    if !spi.user.Val? || !spi.authTime.Val? then 0
    else RoundMillisToSeconds(spi.authTime.value)
  }

  /** `getUserSubject()`. */
  function GetUserSubject(spi: RequestSpi): (subject: Js<string>)
    ensures subject == Null <==> !spi.user.Val?
    ensures subject != Undefined
    ensures spi.user.Val? ==> subject == Val(spi.user.value.subject)
  {
    if !spi.user.Val? then Null else Val(spi.user.value.subject)
  }

  /** The `subject` argument of a claim lookup is never consulted. */
  lemma ClaimValueIgnoresSubject<V>(spi: RequestSpi, getClaim: ClaimLookup<V>,
                                    subject: string, other: string,
                                    claimName: string, languageTag: Js<string>)
    ensures GetUserClaimValue(spi, getClaim, subject, claimName, languageTag)
         == GetUserClaimValue(spi, getClaim, other, claimName, languageTag)
  {
  }

  /** The authenticated-at time is the authentication instant rounded to
      the nearest second (halves upwards), when both are known; the user
      with a known time is also the one whose subject is reported. */
  lemma AuthenticatedAtIsRoundedAuthTime(spi: RequestSpi, s: int)
    requires spi.user.Val? && spi.authTime.Val?
    requires 1000 * s - 500 <= spi.authTime.value < 1000 * s + 500
    ensures GetUserAuthenticatedAt(spi) == s
    ensures GetUserSubject(spi).Val?
  {
    RoundMillisToSecondsUnique(spi.authTime.value, s);
  }
}
