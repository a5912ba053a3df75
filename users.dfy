/** End-users as the server's user store hands them out. */
module Users {
  import opened JsValues

  /** A user entity. Only its subject (the unique identifier of the
      end-user) is used by the authorization flow. */
  datatype User = User(subject: string)

  /** `UserEntity.getClaim(claimName, languageTag)`: the store's claim
      lookup, which is not part of this model and is passed in. */
  type ClaimLookup<V> = (User, string, Js<string>) -> Js<V>

  /** `UserDao.getByCredentials(loginId, password)`: the store's credential
      check, passed in; it yields the matching user or a falsy value. */
  type CredentialLookup = (Js<string>, Js<string>) -> Js<User>
}
