/**
 * `AuthMiddleware.InvokeAsync`: requests to an endpoint marked
 * `[Authorize]` pass on only with a live session; anything else is answered
 * with status 401 and a one-line message. Logging is not modelled.
 */
module AuthMiddleware {
  import opened Wrappers
  import opened Entities
  import opened TokenService

  /** The routed endpoint: whether its metadata holds an `[Authorize]` attribute. */
  datatype Endpoint = Endpoint(hasAuthorize: bool)

  /** What the middleware does with the request. */
  datatype Outcome = CallNext | Respond(status: nat, body: string)

  const StatusUnauthorized: nat := 401

  method InvokeAsync(users: seq<User>, tokens: seq<UserToken>, endpoint: Option<Endpoint>, header: string, jwt: Jwt, now: Time)
    returns (outcome: Outcome)
    ensures endpoint.None? || !endpoint.value.hasAuthorize ==> outcome == CallNext
    ensures endpoint.Some? && endpoint.value.hasAuthorize ==>
      var s := GetUserAndExpiredStatus(users, tokens, header, jwt, now);
      && (outcome == CallNext <==> !s.expired && s.user.Some?)
      && (s.user.None? ==> outcome == Respond(401, "Unauthorized user."))
      && (s.user.Some? && s.expired ==> outcome == Respond(401, "Session expired. Please login again."))
    ensures endpoint.Some? && endpoint.value.hasAuthorize && outcome == CallNext ==>
      && BearerToken(header).Some?
      && jwt(BearerToken(header).value).Some?
      && exists i | 0 <= i < |tokens| ::
           && IsSessionOf(users, tokens[i], BearerToken(header).value, jwt(BearerToken(header).value).value)
           && tokens[i].expiresDate > now
  {
    if endpoint.Some? && endpoint.value.hasAuthorize {
      var s := GetUserAndExpiredStatus(users, tokens, header, jwt, now);
      if s.expired || s.user.None? {
        var message := "";
        if s.expired {
          message := "Session expired. Please login again.";
        }
        if s.user.None? {
          message := "Unauthorized user.";
        }
        return Respond(StatusUnauthorized, message);
      }
    }
    return CallNext;
  }
}
