/**
 * `UserService`: the user, status, session-token and verification
 * operations on the database. A failed operation reports its error message
 * instead of throwing; the `Option<Error>` results here are those messages
 * (`None` for success).
 */
module UserService {
  import opened Wrappers
  import opened Entities
  import opened Data
  import SlugHelper
  import opened UserVerificationToken

  /** `GetUserByIdAsync`: the user row with the id. */
  function GetUserById(users: seq<User>, id: nat): (r: Option<User>)
    ensures r.Some? ==> r.value in users && r.value.id == id
    ensures r.None? <==> KeyAbsent(users, UserId, id)
  {
    match FindIndex(users, UserId, id)
    case None => None
    case Some(i) => Some(users[i])
  }

  /** `HasEmailAsync`: whether some user has exactly the email. */
  method HasEmailAsync(db: Database, email: string) returns (b: bool)
    ensures b <==> exists i | 0 <= i < |db.users| :: db.users[i].email == email
  {
    b := !KeyAbsent(db.users, Email, email);
  }

  /**
   * `CreateUserAsync`: saves the user together with a Register link (a slug
   * of the username), an Unverified status and a 30-day session token, in
   * one `SaveChanges`; any refused row (a taken email, username or token,
   * or a user string longer than its column) refuses them all and gives `None`.
   */
  method CreateUserAsync(db: Database, user: User, token: string, rolls: seq<nat>, ticks: nat, now: Time)
    returns (created: Option<User>)
    requires db.Valid()
    requires |rolls| >= SlugHelper.BodyLength - 1 && SlugHelper.ValidRolls(rolls)
    modifies db`users, db`userSeq, db`links, db`linkSeq, db`statuses, db`statusSeq, db`tokens, db`tokenSeq
    ensures db.Valid()
    ensures created.Some? <==>
      && KeyAbsent(old(db.users), Email, user.email)
      && KeyAbsent(old(db.users), Username, user.username)
      && KeyAbsent(old(db.tokens), TokenText, token)
      && UserFits(user)
    ensures created.None? ==>
      && db.users == old(db.users) && db.links == old(db.links)
      && db.statuses == old(db.statuses) && db.tokens == old(db.tokens)
    ensures created.Some? ==>
      var id := old(db.userSeq);
      && created.value == user.(id := id)
      && db.users == old(db.users) + [user.(id := id)]
      && db.links == old(db.links) + [NewVerificationToken(
           Register, id, Some(user.email), SlugHelper.Slug(user.username, rolls, ticks), now).(id := old(db.linkSeq))]
      && db.statuses == old(db.statuses) + [UserStatus(old(db.statusSeq), id, Unverified, now, now)]
      && db.tokens == old(db.tokens) + [UserToken(old(db.tokenSeq), token, id, now + ThirtyDays, now)]
  {
    if !KeyAbsent(db.users, Email, user.email) || !KeyAbsent(db.users, Username, user.username)
      || !KeyAbsent(db.tokens, TokenText, token) || !UserFits(user)
    {
      return None;
    }
    assert KeyAbsent(db.statuses, StatusOwner, db.userSeq);
    var err, id := db.AddUser(user);
    assert err.None? && db.HasUser(id) by {
      assert db.users[|db.users| - 1].id == id;
    }
    err := AddAccount(db, id, user.username, user.email, token, rolls, ticks, now);
    assert err.None?;
    created := Some(user.(id := id));
  }

  /**
   * The rows saved beside a new user `id`: its registration, then its
   * 30-day session token, whose save fails when the token is taken.
   */
  method AddAccount(db: Database, id: nat, username: string, email: string, token: string,
                    rolls: seq<nat>, ticks: nat, now: Time)
    returns (err: Option<Error>)
    requires db.Valid() && db.HasUser(id) && KeyAbsent(db.statuses, StatusOwner, id)
    requires |rolls| >= SlugHelper.BodyLength - 1 && SlugHelper.ValidRolls(rolls)
    modifies db`links, db`linkSeq, db`statuses, db`statusSeq, db`tokens, db`tokenSeq
    ensures db.Valid()
    ensures db.links == old(db.links) + [NewVerificationToken(
      Register, id, Some(email), SlugHelper.Slug(username, rolls, ticks), now).(id := old(db.linkSeq))]
    ensures db.statuses == old(db.statuses) + [UserStatus(old(db.statusSeq), id, Unverified, now, now)]
    ensures err.Some? <==> !KeyAbsent(old(db.tokens), TokenText, token)
    ensures err.Some? ==> err == Some(SaveFailed) && db.tokens == old(db.tokens)
    ensures err.None? ==> db.tokens == old(db.tokens) + [UserToken(old(db.tokenSeq), token, id, now + ThirtyDays, now)]
  {
    AddRegistration(db, id, username, email, rolls, ticks, now);
    err := db.AddToken(token, id, now + ThirtyDays, now);
  }

  /** The Register link and the Unverified status saved for the new user `id`, as registration does. */
  method AddRegistration(db: Database, id: nat, username: string, email: string, rolls: seq<nat>, ticks: nat, now: Time)
    requires db.Valid() && db.HasUser(id) && KeyAbsent(db.statuses, StatusOwner, id)
    requires |rolls| >= SlugHelper.BodyLength - 1 && SlugHelper.ValidRolls(rolls)
    modifies db`links, db`linkSeq, db`statuses, db`statusSeq
    ensures db.Valid()
    ensures db.links == old(db.links) + [NewVerificationToken(
      Register, id, Some(email), SlugHelper.Slug(username, rolls, ticks), now).(id := old(db.linkSeq))]
    ensures db.statuses == old(db.statuses) + [UserStatus(old(db.statusSeq), id, Unverified, now, now)]
  {
    var slug := SlugHelper.Create(username, rolls, ticks);
    var err := db.AddLink(NewVerificationToken(Register, id, Some(email), slug, now));
    assert err.None?;
    err := db.AddStatus(id, Unverified, now);
    assert err.None?;
  }

  /** `GetUserStatusByIdAsync` then `Add`: a user gets one status, always Unverified whatever was passed. */
  method CreateUserStatusAsync(db: Database, status: UserStatus, now: Time) returns (err: Option<Error>)
    requires db.Valid()
    modifies db`statuses, db`statusSeq
    ensures db.Valid()
    ensures err == Some(UserStatusAlreadyExist) <==> !KeyAbsent(old(db.statuses), StatusOwner, status.userId)
    ensures err == Some(SaveFailed) <==> KeyAbsent(old(db.statuses), StatusOwner, status.userId) && !db.HasUser(status.userId)
    ensures err.Some? ==> db.statuses == old(db.statuses)
    ensures err.None? ==> db.statuses == old(db.statuses) + [UserStatus(old(db.statusSeq), status.userId, Unverified, now, now)]
  {
    if !KeyAbsent(db.statuses, StatusOwner, status.userId) {
      return Some(UserStatusAlreadyExist);
    }
    err := db.AddStatus(status.userId, Unverified, now);
  }

  /** `DeleteUserTokenAsync`: deletes every token row of the user; deleting none is an error. */
  method DeleteUserTokenAsync(db: Database, userId: nat) returns (err: Option<Error>)
    requires db.Valid()
    modifies db`tokens
    ensures db.Valid()
    ensures db.tokens == Without(old(db.tokens), TokenOwner, userId)
    ensures err.Some? <==> KeyAbsent(old(db.tokens), TokenOwner, userId)
    ensures err.Some? ==> err == Some(FailedToDeleteToken) && db.tokens == old(db.tokens)
  {
    var count := db.DeleteTokensOf(userId);
    err := if count > 0 then None else Some(FailedToDeleteToken);
  }

  /**
   * `CreateUserTokenAsync`: replaces the user's sessions by one 30-day
   * token. A user with no session yet cannot get one this way: the delete
   * reports an error and nothing is inserted. Otherwise the insert is
   * refused only when the token text is taken by a row that survived the
   * delete, or when the user row is missing.
   */
  method CreateUserTokenAsync(db: Database, userId: nat, token: string, now: Time) returns (err: Option<Error>)
    requires db.Valid()
    modifies db`tokens, db`tokenSeq
    ensures db.Valid()
    ensures err == Some(FailedToDeleteToken) <==> KeyAbsent(old(db.tokens), TokenOwner, userId)
    ensures err == Some(FailedToDeleteToken) ==> db.tokens == old(db.tokens)
    ensures err == Some(SaveFailed) <==>
      && !KeyAbsent(old(db.tokens), TokenOwner, userId)
      && (!KeyAbsent(Without(old(db.tokens), TokenOwner, userId), TokenText, token) || !db.HasUser(userId))
    ensures err.None? <==>
      && !KeyAbsent(old(db.tokens), TokenOwner, userId)
      && KeyAbsent(Without(old(db.tokens), TokenOwner, userId), TokenText, token)
      && db.HasUser(userId)
    ensures err == Some(SaveFailed) ==> db.tokens == Without(old(db.tokens), TokenOwner, userId)
    ensures err.None? ==>
      db.tokens == Without(old(db.tokens), TokenOwner, userId) + [UserToken(old(db.tokenSeq), token, userId, now + ThirtyDays, now)]
    ensures err.None? ==> forall i | 0 <= i < |db.tokens| :: db.tokens[i].userId == userId <==> i == |db.tokens| - 1
    ensures err.None? || err == Some(FailedToDeleteToken) || err == Some(SaveFailed)
  {
    err := DeleteUserTokenAsync(db, userId);
    if err.Some? {
      return;
    }
    ghost var kept := db.tokens;
    err := db.AddToken(token, userId, now + ThirtyDays, now);
    assert KeyAbsent(kept, TokenOwner, userId);
  }

  /** `GetVerificationCodeAsync`: the newest code row for the user with that code and type. */
  function GetVerificationCode(codes: seq<Verification>, userId: nat, code: string, kind: Option<VerificationType>)
    : (r: Option<Verification>)
    ensures r.Some? ==> r.value in codes && r.value.userId == userId && r.value.code == code && Some(r.value.kind) == kind
    ensures r.Some? ==> forall i | 0 <= i < |codes| ::
      codes[i].userId == userId && codes[i].code == code && Some(codes[i].kind) == kind ==> codes[i].createdAt <= r.value.createdAt
    ensures r.None? <==> forall i | 0 <= i < |codes| ::
      !(codes[i].userId == userId && codes[i].code == code && Some(codes[i].kind) == kind)
  {
    LatestWhere(codes, (v: Verification) => v.userId == userId && v.code == code && Some(v.kind) == kind, CodeCreatedAt)
  }

  /** `GetVerificationTokenByTokenAsync`: the newest link row for the user with that token and type. */
  function GetVerificationToken(links: seq<VerificationToken>, userId: nat, token: string, kind: Option<VerificationType>)
    : (r: Option<VerificationToken>)
    ensures r.Some? ==> r.value in links && r.value.userId == userId && r.value.token == token && Some(r.value.kind) == kind
    ensures r.Some? ==> forall i | 0 <= i < |links| ::
      links[i].userId == userId && links[i].token == token && Some(links[i].kind) == kind ==> links[i].createdAt <= r.value.createdAt
    ensures r.None? <==> forall i | 0 <= i < |links| ::
      !(links[i].userId == userId && links[i].token == token && Some(links[i].kind) == kind)
  {
    LatestWhere(links, (v: VerificationToken) => v.userId == userId && v.token == token && Some(v.kind) == kind, LinkCreatedAt)
  }

  /**
   * `CreateVerificationTokenAsync`: a link of the given type for an existing
   * user; its token is a fresh slug of the username, and the `token`
   * argument plays no part.
   */
  method CreateVerificationTokenAsync(
    db: Database, userId: nat, token: string, kind: VerificationType, rolls: seq<nat>, ticks: nat, now: Time)
    returns (err: Option<Error>)
    requires db.Valid()
    requires |rolls| >= SlugHelper.BodyLength - 1 && SlugHelper.ValidRolls(rolls)
    modifies db`links, db`linkSeq
    ensures db.Valid()
    ensures err.Some? <==> KeyAbsent(db.users, UserId, userId)
    ensures err.Some? ==> err == Some(UserNotFound) && db.links == old(db.links)
    ensures err.None? ==>
      var u := GetUserById(db.users, userId).value;
      db.links == old(db.links) + [NewVerificationToken(
        kind, userId, Some(u.email), SlugHelper.Slug(u.username, rolls, ticks), now).(id := old(db.linkSeq))]
  {
    var user := GetUserById(db.users, userId);
    if user.None? {
      return Some(UserNotFound);
    }
    var slug := SlugHelper.Create(user.value.username, rolls, ticks);
    err := db.AddLink(NewVerificationToken(kind, userId, Some(user.value.email), slug, now));
    assert err.None?;
  }
}
