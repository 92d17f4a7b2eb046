/**
 * `TokenService`: who is calling. A request carries `Authorization: Bearer
 * <token>`; the token's signature and lifetime are checked by the JWT
 * library, modelled as the parameter `jwt` that yields the token's
 * name-identifier claim or `None` (invalid token, missing claim, or any
 * exception while reading them). A session is live when a `UserTokens` row
 * holds that exact token for a user with that username and has not expired.
 */
module TokenService {
  import opened Wrappers
  import opened Text
  import opened Entities
  import opened Data

  /** The name-identifier claim of a valid JWT, if any. */
  type Jwt = string -> Option<string>

  /** `header.Split(" ")[1]`: the second space-separated field, if there is one. */
  function BearerToken(header: string): Option<string>
  {
    var parts := Split(header, ' ');
    if |parts| >= 2 then Some(parts[1]) else None
  }

  /** `Bearer <token>` (and anything after a further space) yields the token. */
  lemma BearerTokenOf(scheme: string, token: string, tail: string)
    requires ' ' !in scheme && ' ' !in token
    requires tail == [] || tail[0] == ' '
    ensures BearerToken(scheme + " " + token + tail) == Some(token)
  {
    assert scheme + " " + token + tail == scheme + [' '] + (token + tail);
    SplitAtFirst(scheme, token + tail, ' ');
    if tail == [] {
      assert token + tail == token;
      SplitWithoutSeparator(token, ' ');
    } else {
      assert token + tail == token + [' '] + tail[1..];
      SplitAtFirst(token, tail[1..], ' ');
    }
  }

  /** A header without a space carries no token. */
  lemma NoSpaceNoToken(header: string)
    requires ' ' !in header
    ensures BearerToken(header).None?
  {
    SplitWithoutSeparator(header, ' ');
  }

  /** `ut.Token == token && ut.User.Username == username`. */
  predicate IsSessionOf(users: seq<User>, row: UserToken, token: string, username: string)
  {
    row.token == token && exists i | 0 <= i < |users| :: users[i].id == row.userId && users[i].username == username
  }

  /** The first session row for the token and username. */
  function SessionRow(users: seq<User>, tokens: seq<UserToken>, token: string, username: string): (r: Option<UserToken>)
    ensures r.Some? ==> r.value in tokens && IsSessionOf(users, r.value, token, username)
    ensures r.None? <==> forall i | 0 <= i < |tokens| :: !IsSessionOf(users, tokens[i], token, username)
  {
    if tokens == [] then None
    else if IsSessionOf(users, tokens[0], token, username) then Some(tokens[0])
    else
      var r := SessionRow(users, tokens[1..], token, username);
      assert forall i | 1 <= i < |tokens| :: tokens[i] == tokens[1..][i - 1];
      r
  }

  /** `GetUsername`: the caller's username when the session has not expired (`ExpiresDate >= now`). */
  function GetUsername(users: seq<User>, tokens: seq<UserToken>, header: string, jwt: Jwt, now: Time): (r: Option<string>)
    ensures r.Some? ==>
      && BearerToken(header).Some? && jwt(BearerToken(header).value) == r
      && exists i | 0 <= i < |tokens| ::
           IsSessionOf(users, tokens[i], BearerToken(header).value, r.value) && tokens[i].expiresDate >= now
  {
    match BearerToken(header)
    case None => None
    case Some(token) =>
      match jwt(token)
      case None => None
      case Some(username) =>
        match SessionRow(users, tokens, token, username)
        case None => None
        case Some(row) => if row.expiresDate < now then None else Some(username)
  }

  /** The first user with the username. */
  function FindUser(users: seq<User>, username: string): (r: Option<User>)
    ensures r.Some? ==> r.value in users && r.value.username == username
    ensures r.None? <==> forall i | 0 <= i < |users| :: users[i].username != username
  {
    match FindIndex(users, Username, username)
    case None => None
    case Some(i) => Some(users[i])
  }

  /** `GetUser`: the user the live session belongs to. */
  function GetUser(users: seq<User>, tokens: seq<UserToken>, header: string, jwt: Jwt, now: Time): (r: Option<User>)
    ensures r.Some? ==> r.value in users && GetUsername(users, tokens, header, jwt, now) == Some(r.value.username)
    ensures GetUsername(users, tokens, header, jwt, now).None? ==> r.None?
  {
    match GetUsername(users, tokens, header, jwt, now)
    case None => None
    case Some(username) => FindUser(users, username)
  }

  datatype SessionStatus = SessionStatus(user: Option<User>, expired: bool)

  /**
   * `GetUserAndExpiredStatus`: the user named by the JWT, and whether the
   * session is expired; a session counts as live only while `ExpiresDate > now`.
   */
  function GetUserAndExpiredStatus(users: seq<User>, tokens: seq<UserToken>, header: string, jwt: Jwt, now: Time): (r: SessionStatus)
    ensures BearerToken(header).None? ==> r == SessionStatus(None, true)
    ensures BearerToken(header).Some? && jwt(BearerToken(header).value).None? ==> r == SessionStatus(None, true)
    ensures r.user.Some? ==> r.user.value in users && Some(r.user.value.username) == jwt(BearerToken(header).value)
    ensures !r.expired ==>
      && BearerToken(header).Some? && jwt(BearerToken(header).value).Some?
      && exists i | 0 <= i < |tokens| ::
           && IsSessionOf(users, tokens[i], BearerToken(header).value, jwt(BearerToken(header).value).value)
           && tokens[i].expiresDate > now
  {
    match BearerToken(header)
    case None => SessionStatus(None, true)
    case Some(token) =>
      match jwt(token)
      case None => SessionStatus(None, true)
      case Some(username) =>
        var row := SessionRow(users, tokens, token, username);
        var expired := !(row.Some? && row.value.expiresDate > now);
        SessionStatus(FindUser(users, username), expired)
  }

  /** With unique tokens, one session row matches at most, and it is the one found. */
  lemma SessionRowUnique(users: seq<User>, tokens: seq<UserToken>, token: string, username: string, i: nat)
    requires UniqueBy(tokens, TokenText) && i < |tokens| && IsSessionOf(users, tokens[i], token, username)
    ensures SessionRow(users, tokens, token, username) == Some(tokens[i])
  {
    var r := SessionRow(users, tokens, token, username);
    var j :| 0 <= j < |tokens| && tokens[j] == r.value;
    assert TokenText(tokens[i]) == TokenText(tokens[j]);
  }

  /** Completeness of `GetUsername`: a live matching session is recognised. */
  lemma GetUsernameComplete(users: seq<User>, tokens: seq<UserToken>, header: string, jwt: Jwt, now: Time, i: nat)
    requires UniqueBy(tokens, TokenText) && i < |tokens|
    requires BearerToken(header).Some? && jwt(BearerToken(header).value).Some?
    requires IsSessionOf(users, tokens[i], BearerToken(header).value, jwt(BearerToken(header).value).value)
    requires tokens[i].expiresDate >= now
    ensures GetUsername(users, tokens, header, jwt, now) == jwt(BearerToken(header).value)
  {
    SessionRowUnique(users, tokens, BearerToken(header).value, jwt(BearerToken(header).value).value, i);
  }

  /**
   * The two checks disagree at the expiry instant: a session whose
   * `ExpiresDate` equals `now` still names its user in `GetUsername`, while
   * `GetUserAndExpiredStatus` already reports it expired.
   */
  lemma ExpiryBoundary(users: seq<User>, tokens: seq<UserToken>, header: string, jwt: Jwt, now: Time, i: nat)
    requires UniqueBy(tokens, TokenText) && i < |tokens|
    requires BearerToken(header).Some? && jwt(BearerToken(header).value).Some?
    requires IsSessionOf(users, tokens[i], BearerToken(header).value, jwt(BearerToken(header).value).value)
    requires tokens[i].expiresDate == now
    ensures GetUsername(users, tokens, header, jwt, now).Some?
    ensures GetUserAndExpiredStatus(users, tokens, header, jwt, now).expired
  {
    SessionRowUnique(users, tokens, BearerToken(header).value, jwt(BearerToken(header).value).value, i);
  }

  /** Away from the expiry instant, a request has a user exactly when the middleware would let it through. */
  lemma ChecksAgreeOffBoundary(users: seq<User>, tokens: seq<UserToken>, header: string, jwt: Jwt, now: Time)
    requires BearerToken(header).Some? && jwt(BearerToken(header).value).Some?
    requires var row := SessionRow(users, tokens, BearerToken(header).value, jwt(BearerToken(header).value).value);
      row.Some? ==> row.value.expiresDate != now
    ensures var s := GetUserAndExpiredStatus(users, tokens, header, jwt, now);
      GetUser(users, tokens, header, jwt, now).Some? <==> !s.expired && s.user.Some?
  {
  }

  /** A token no row holds any more (logged out or replaced by a newer login) identifies nobody. */
  lemma RemovedTokenRejected(users: seq<User>, tokens: seq<UserToken>, header: string, jwt: Jwt, now: Time)
    requires BearerToken(header).Some?
    requires forall i | 0 <= i < |tokens| :: tokens[i].token != BearerToken(header).value
    ensures GetUsername(users, tokens, header, jwt, now).None?
    ensures GetUser(users, tokens, header, jwt, now).None?
    ensures GetUserAndExpiredStatus(users, tokens, header, jwt, now).expired
  {
  }
}
