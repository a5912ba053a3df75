/** `AuthorizationDecisionHandlerSpiImpl`: the request SPI plus the
    end-user's decision on the client's request. */
module AuthorizationDecisionHandlerSpi {
  import opened JsValues
  import opened Users
  import opened AuthorizationRequestHandlerSpi

  /** The constructor's `clientAuthorized` flag and the request SPI it
      builds from `user` and `authTime`. Nothing relates the flag to the
      presence of a user. */
  datatype DecisionSpi = DecisionSpi(clientAuthorized: bool, base: RequestSpi)

  /** `new AuthorizationDecisionHandlerSpiImpl(clientAuthorized, user, authTime)`. */
  function NewDecisionSpi(clientAuthorized: bool, user: Js<User>, authTime: Js<int>): (spi: DecisionSpi)
    ensures IsClientAuthorized(spi) == clientAuthorized
    ensures GetUserSubject(spi.base) == GetUserSubject(RequestSpi(user, authTime))
    ensures GetUserAuthenticatedAt(spi.base) == GetUserAuthenticatedAt(RequestSpi(user, authTime))
  {
    DecisionSpi(clientAuthorized, RequestSpi(user, authTime))
  }

  /** `isClientAuthorized()`. */
  function IsClientAuthorized(spi: DecisionSpi): (authorized: bool)
    ensures authorized <==> spi.clientAuthorized
  {
    spi.clientAuthorized
  }

  /** An approval without any user in the session is representable: the
      SPI then reports approval and no subject. */
  lemma ApprovalWithoutUser(authTime: Js<int>)
    ensures IsClientAuthorized(NewDecisionSpi(true, Null, authTime))
    ensures GetUserSubject(NewDecisionSpi(true, Null, authTime).base) == Null
    ensures GetUserAuthenticatedAt(NewDecisionSpi(true, Null, authTime).base) == 0
  {
  }
}
