/** The values the Authlete library hands to the server on the
    authorization path, reduced to the parts the server looks at. */
module AuthleteTypes {
  import opened JsValues

  /** `AuthorizationResponse.Action`: what the `/auth/authorization` API
      tells the server to do next. */
  datatype Action =
    | InternalServerError
    | BadRequest
    | Location
    | Form
    | NoInteraction
    | Interaction

  /** The values of the `prompt` request parameter. */
  datatype Prompt = None | Login | Consent | SelectAccount

  /** The client application that made the authorization request. */
  datatype Client = Client(clientId: int)

  /** The response of the `/auth/authorization` API. A missing `prompts`
      array is represented by the empty sequence; the server treats both
      alike. `maxAge` is in seconds. */
  datatype AuthorizationResponse = AuthorizationResponse(
    action: Action,
    prompts: seq<Prompt>,
    maxAge: int,
    acrs: Js<seq<string>>,
    client: Js<Client>)

  /** `AuthorizationDecisionHandler.Params`, which the library derives from
      the response by `Params.from`; the model keeps the response itself. */
  datatype Params = ParamsFrom(response: AuthorizationResponse)
}
