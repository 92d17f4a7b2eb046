/**
 * `AuthController`: login, logout and registration. Login and logout keep
 * the session ledger `UserTokens`; registration creates a user with its
 * Register link, its status and its first session. The JWT a session holds
 * is generated by a library and arrives here as the `token` parameter; the
 * password check is the parameter `verifyPassword` (stored hash, password).
 */
module AuthController {
  import opened Wrappers
  import opened Text
  import opened Entities
  import opened Data
  import opened TokenService
  import opened UserMapping
  import opened UserVerificationToken
  import SlugHelper
  import UserService
  import opened Validation

  /** The attributes of `LoginUserDto`: `[Required, StringLength(128)]` username, `[Required, MinLength(8), StringLength(64)]` password. */
  predicate LoginUserDtoValid(username: string, password: string)
  {
    Required(username) && |username| <= 128 && Required(password) && LengthWithin(password, 8, 64)
  }

  /**
   * `PostLogin`: a request that fails validation is answered before the
   * action runs; otherwise a correct password replaces all of the user's
   * sessions by one 30-day token.
   */
  method PostLogin(
    db: Database, username: string, password: string, verifyPassword: (string, string) -> bool, token: string, now: Time)
    returns (reply: Reply)
    requires db.Valid()
    modifies db`tokens, db`tokenSeq
    ensures db.Valid()
    ensures !LoginUserDtoValid(username, password) ==> reply == ValidationProblem && db.tokens == old(db.tokens)
    ensures var u := FindUser(db.users, username);
      LoginUserDtoValid(username, password) && (u.None? || !verifyPassword(u.value.passwordHash, password)) ==>
        reply == Unauthorized && db.tokens == old(db.tokens)
    ensures var u := FindUser(db.users, username);
      LoginUserDtoValid(username, password) && u.Some? && verifyPassword(u.value.passwordHash, password) ==>
        var kept := Without(old(db.tokens), TokenOwner, u.value.id);
        && (KeyAbsent(kept, TokenText, token) ==>
              && reply == Ok("Login Successfully", Some(token))
              && db.tokens == kept + [UserToken(old(db.tokenSeq), token, u.value.id, now + ThirtyDays, now)])
        && (!KeyAbsent(kept, TokenText, token) ==> reply == BadRequest(SaveFailed.Message()) && db.tokens == kept)
    ensures reply.Ok? ==>
      var id := FindUser(db.users, username).value.id;
      && (forall i | 0 <= i < |db.tokens| :: db.tokens[i].userId == id <==> i == |db.tokens| - 1)
      && (forall i | 0 <= i < |old(db.tokens)| :: old(db.tokens)[i].userId != id ==> old(db.tokens)[i] in db.tokens)
  {
    if !LoginUserDtoValid(username, password) {
      return ValidationProblem;
    }
    var user := FindUser(db.users, username);
    if user.None? || !verifyPassword(user.value.passwordHash, password) {
      return Unauthorized;
    }
    var id := user.value.id;
    var _ := db.DeleteTokensOf(id);
    ghost var kept := db.tokens;
    var err := db.AddToken(token, id, now + ThirtyDays, now);
    assert db.HasUser(id) by {
      var j :| 0 <= j < |db.users| && db.users[j] == user.value;
    }
    if err.Some? {
      return BadRequest(err.value.Message());
    }
    assert KeyAbsent(kept, TokenOwner, id);
    reply := Ok("Login Successfully", Some(token));
  }

  /** With unique usernames, the rows joined to a user's name are exactly the rows with the user's id. */
  lemma JoinByUsername(users: seq<User>, u: User, t: UserToken)
    requires UniqueBy(users, Username) && u in users
    ensures (exists j | 0 <= j < |users| :: users[j].id == t.userId && users[j].username == u.username) <==> t.userId == u.id
  {
    var k :| 0 <= k < |users| && users[k] == u;
    if exists j | 0 <= j < |users| :: users[j].id == t.userId && users[j].username == u.username {
      var j :| 0 <= j < |users| && users[j].id == t.userId && users[j].username == u.username;
      assert Username(users[j]) == Username(users[k]);
    }
  }

  /**
   * The `FirstAsync` lookup of logout always succeeds: the user `GetUser`
   * names owns the session row that identified them.
   */
  lemma {:induction false} SessionUserHasToken(users: seq<User>, tokens: seq<UserToken>, header: string, jwt: Jwt, now: Time)
    requires UniqueBy(users, Username)
    requires GetUser(users, tokens, header, jwt, now).Some?
    ensures !KeyAbsent(tokens, TokenOwner, GetUser(users, tokens, header, jwt, now).value.id)
  {
    var u := GetUser(users, tokens, header, jwt, now).value;
    var i :| 0 <= i < |tokens| && IsSessionOf(users, tokens[i], BearerToken(header).value, u.username)
      && tokens[i].expiresDate >= now;
    JoinByUsername(users, u, tokens[i]);
    assert TokenOwner(tokens[i]) == u.id;
  }

  /** `PostLogout`: the caller's sessions, all of them, are deleted. */
  method PostLogout(db: Database, header: string, jwt: Jwt, now: Time) returns (reply: Reply)
    requires db.Valid()
    modifies db`tokens
    ensures db.Valid()
    ensures var u := GetUser(db.users, old(db.tokens), header, jwt, now);
      && (u.None? ==> reply == Unauthorized && db.tokens == old(db.tokens))
      && (u.Some? ==>
            && reply == Ok("Logout Successfully", None)
            && db.tokens == Without(old(db.tokens), TokenOwner, u.value.id)
            && |db.tokens| < |old(db.tokens)|)
  {
    var user := GetUser(db.users, db.tokens, header, jwt, now);
    if user.None? {
      return Unauthorized;
    }
    SessionUserHasToken(db.users, db.tokens, header, jwt, now);
    var _ := db.DeleteTokensOf(user.value.id);
    reply := Ok("Logout Successfully", None);
  }

  /**
   * The attributes of `RegisterUserDto`: `[Required, StringLength(255)]`
   * full name, `[Required, StringLength(128), EmailAddress]` e-mail and
   * `[Required, MinLength(8), StringLength(64)]` password.
   */
  predicate RegisterUserDtoValid(dto: RegisterUserDto)
  {
    && Required(dto.fullname) && |dto.fullname| <= 255
    && Required(dto.email) && |dto.email| <= 128 && EmailAddress(dto.email)
    && Required(dto.password) && LengthWithin(dto.password, 8, 64)
  }

  /**
   * A registration that passes validation fits the full-name and e-mail
   * columns, so with a hash that fits its column the only column left to
   * overflow is the username's: an e-mail of up to 128 characters can have
   * a local part longer than 64.
   */
  lemma ValidRegistrationFits(dto: RegisterUserDto, passwordHash: string, now: Time)
    requires RegisterUserDtoValid(dto) && |passwordHash| <= PasswordHashMaxLength
    ensures UserFits(ToEntity(dto, passwordHash, now)) <==> |UsernameFromEmail(dto.email)| <= UsernameMaxLength
  {
  }

  /**
   * `PostRegister`: a request that fails validation is answered before the
   * action runs. Otherwise a new email gets a user, a Register link, an Unverified
   * status and a session, saved one after another. A taken email is a
   * conflict; a taken username (two emails with the same local part), a
   * value longer than its column (a username over 64 characters) or a taken
   * token fails the save at that step, keeping the rows saved before.
   */
  method PostRegister(
    db: Database, dto: RegisterUserDto, passwordHash: string, token: string, rolls: seq<nat>, ticks: nat, now: Time)
    returns (reply: Reply)
    requires db.Valid()
    requires |rolls| >= SlugHelper.BodyLength - 1 && SlugHelper.ValidRolls(rolls)
    modifies db`users, db`userSeq, db`links, db`linkSeq, db`statuses, db`statusSeq, db`tokens, db`tokenSeq
    ensures db.Valid()
    ensures !RegisterUserDtoValid(dto) ==>
      && reply == ValidationProblem
      && db.users == old(db.users) && db.links == old(db.links)
      && db.statuses == old(db.statuses) && db.tokens == old(db.tokens)
    ensures var username := UsernameFromEmail(dto.email);
      RegisterUserDtoValid(dto) &&
      (!KeyAbsent(old(db.users), Email, dto.email) || !KeyAbsent(old(db.users), Username, username)
       || !UserFits(ToEntity(dto, passwordHash, now))) ==>
        && reply == (if !KeyAbsent(old(db.users), Email, dto.email) then Conflict else BadRequest(SaveFailed.Message()))
        && db.users == old(db.users) && db.links == old(db.links)
        && db.statuses == old(db.statuses) && db.tokens == old(db.tokens)
    ensures var username := UsernameFromEmail(dto.email);
      RegisterUserDtoValid(dto) && KeyAbsent(old(db.users), Email, dto.email) && KeyAbsent(old(db.users), Username, username)
      && UserFits(ToEntity(dto, passwordHash, now)) ==>
        var id := old(db.userSeq);
        && db.users == old(db.users) + [ToEntity(dto, passwordHash, now).(id := id)]
        && db.links == old(db.links) + [NewVerificationToken(
             Register, id, Some(dto.email), SlugHelper.Slug(username, rolls, ticks), now).(id := old(db.linkSeq))]
        && db.statuses == old(db.statuses) + [UserStatus(old(db.statusSeq), id, Unverified, now, now)]
        && (KeyAbsent(old(db.tokens), TokenText, token) ==>
              && reply == Ok("Registration Successfully", Some(token))
              && db.tokens == old(db.tokens) + [UserToken(old(db.tokenSeq), token, id, now + ThirtyDays, now)])
        && (!KeyAbsent(old(db.tokens), TokenText, token) ==>
              reply == BadRequest(SaveFailed.Message()) && db.tokens == old(db.tokens))
  {
    if !RegisterUserDtoValid(dto) {
      return ValidationProblem;
    }
    if !KeyAbsent(db.users, Email, dto.email) {
      return Conflict;
    }
    var user := ToEntity(dto, passwordHash, now);
    assert KeyAbsent(db.statuses, StatusOwner, db.userSeq);
    var err, id := db.AddUser(user);
    if err.Some? {
      return BadRequest(err.value.Message());
    }
    assert db.HasUser(id) by {
      assert db.users[|db.users| - 1].id == id;
    }
    err := UserService.AddAccount(db, id, user.username, user.email, token, rolls, ticks, now);
    if err.Some? {
      return BadRequest(err.value.Message());
    }
    reply := Ok("Registration Successfully", Some(token));
  }

  /** The link mailed after registration: `u` is the session token, `t` the link token, `s` the type byte. */
  function VerificationLink(scheme: string, host: string, sessionToken: string, linkToken: string, kind: VerificationType)
    : string
  {
    scheme + "://" + host + "/api/auth/verify?u=" + sessionToken + "&t=" + linkToken + "&s=" + Decimal(kind.Code())
  }

  /** A Register link ends in `&s=1`. */
  lemma RegisterLinkType(scheme: string, host: string, sessionToken: string, linkToken: string)
    ensures var link := VerificationLink(scheme, host, sessionToken, linkToken, Register);
      |link| >= 4 && link[|link| - 4..] == "&s=1"
  {
    assert Decimal(1) == "1";
  }
}
