/**
 * `UserController`: the account lifecycle. `RequestDelete` issues an
 * AccountDeletion link; `VerifyToken` consumes a link (`u` = session token,
 * `t` = link token, `s` = type) and applies it; `VerifyCode` consumes a
 * six-digit Register code.
 *
 * Each consumption marks the row with `VerifiedAt` and saves it before the
 * type is acted on, so the mark stays when the action then fails. Neither
 * lookup looks at `VerifiedAt`: a consumed row still matches until it
 * expires. The status write of the Register branches names `AcconutStatus`,
 * a property `UserStatus` does not have, so it changes nothing; and the
 * final save is read the wrong way round: saving one or more rows reports
 * "Verify Account Failed".
 */
module UserController {
  import opened Wrappers
  import opened Entities
  import opened Data
  import opened TokenService
  import opened UserVerificationToken
  import SlugHelper
  import opened Validation
  import opened Text

  /** `RequestDelete`: an AccountDeletion link for the caller, a slug of their username. */
  method RequestDelete(db: Database, header: string, jwt: Jwt, rolls: seq<nat>, ticks: nat, now: Time) returns (reply: Reply)
    requires db.Valid()
    requires |rolls| >= SlugHelper.BodyLength - 1 && SlugHelper.ValidRolls(rolls)
    modifies db`links, db`linkSeq
    ensures db.Valid()
    ensures var u := GetUser(db.users, db.tokens, header, jwt, now);
      && (u.None? ==> reply == NotFound("User not found") && db.links == old(db.links))
      && (u.Some? ==>
            && reply == Ok("Success", None)
            && db.links == old(db.links) + [NewVerificationToken(AccountDeletion, u.value.id, Some(u.value.email),
                 SlugHelper.Slug(u.value.username, rolls, ticks), now).(id := old(db.linkSeq))])
  {
    var user := GetUser(db.users, db.tokens, header, jwt, now);
    if user.None? {
      return NotFound("User not found");
    }
    var u := user.value;
    var slug := SlugHelper.Create(u.username, rolls, ticks);
    assert db.HasUser(u.id) by {
      var j :| 0 <= j < |db.users| && db.users[j] == u;
    }
    var err := db.AddLink(NewVerificationToken(AccountDeletion, u.id, Some(u.email), slug, now));
    assert err.None?;
    reply := Ok("Success", None);
  }

  /** The newest session row holding the token `u`. */
  function SessionByToken(tokens: seq<UserToken>, u: string): (r: Option<UserToken>)
    ensures r.Some? ==> r.value in tokens && r.value.token == u
    ensures r.None? <==> forall i | 0 <= i < |tokens| :: tokens[i].token != u
  {
    LatestWhere(tokens, (x: UserToken) => x.token == u, TokenCreatedAt)
  }

  /**
   * The position of the first link row of the user with token `t` and type
   * `s`. The requested type is nullable and a stored type never is, so a
   * request without a type matches no row.
   */
  function FindLink(links: seq<VerificationToken>, userId: nat, t: string, s: Option<VerificationType>): (r: Option<nat>)
    ensures r.Some? ==> r.value < |links| && links[r.value].userId == userId && links[r.value].token == t && Some(links[r.value].kind) == s
    ensures r.None? <==> forall i | 0 <= i < |links| :: !(links[i].userId == userId && links[i].token == t && Some(links[i].kind) == s)
  {
    FirstWhere(links, (v: VerificationToken) => v.userId == userId && v.token == t && Some(v.kind) == s)
  }

  /** Stamping a row does not stop it from matching: the same link can be consumed again. */
  lemma {:induction false} StampedLinkMatchesAgain(links: seq<VerificationToken>, userId: nat, t: string, s: Option<VerificationType>, at: Time)
    requires FindLink(links, userId, t, s).Some?
    ensures var k := FindLink(links, userId, t, s).value;
      FindLink(links[k := links[k].(verifiedAt := Some(at))], userId, t, s) == Some(k)
  {
    var k := FindLink(links, userId, t, s).value;
    var links' := links[k := links[k].(verifiedAt := Some(at))];
    assert links'[k].userId == userId && links'[k].token == t && Some(links'[k].kind) == s;
    assert forall i | 0 <= i < k :: links'[i] == links[i];
  }

  /** What the type dispatch of `VerifyToken` did: its message and the rows its final save wrote, or its error. */
  datatype Applied = Applied(message: string, saved: nat) | Failed(err: Error)

  /** The type dispatch of `VerifyToken` for the user `id`. */
  method Apply(db: Database, s: VerificationType, id: nat) returns (outcome: Applied)
    requires db.Valid()
    modifies db`statuses, db`profiles, db`users
    ensures db.Valid()
    ensures s == Register ==>
      && outcome == (if KeyAbsent(db.statuses, StatusOwner, id) then Failed(NoElements) else Applied("Account Verified Successfully", 0))
      && db.statuses == old(db.statuses) && db.profiles == old(db.profiles) && db.users == old(db.users)
    ensures s == AccountDeletion ==>
      var blocked := old(db.UserDeleteBlocked(id));
      && outcome == (if blocked then Failed(DeleteConflict) else Applied("Account Deleted Successfully", 0))
      && db.statuses == Without(old(db.statuses), StatusOwner, id)
      && db.profiles == Without(old(db.profiles), ProfileOwner, id)
      && db.users == (if blocked then old(db.users) else Without(old(db.users), UserId, id))
    ensures s == AccountDeactivation ==>
      && db.profiles == old(db.profiles) && db.users == old(db.users)
      && match FindIndex(old(db.statuses), StatusOwner, id)
         case None => outcome == Failed(NullEntity) && db.statuses == old(db.statuses)
         case Some(j) =>
           && db.statuses == old(db.statuses)[j := old(db.statuses)[j].(status := Inactive)]
           && outcome == Applied("Account Deacitvated Successfully", if old(db.statuses)[j].status == Inactive then 0 else 1)
    ensures s !in {Register, AccountDeletion, AccountDeactivation} ==>
      && outcome == Failed(InvalidVerificationLink)
      && db.statuses == old(db.statuses) && db.profiles == old(db.profiles) && db.users == old(db.users)
    ensures outcome.Applied? ==>
      && s in {Register, AccountDeletion, AccountDeactivation}
      && outcome.message == (if s == Register then "Account Verified Successfully"
                             else if s == AccountDeletion then "Account Deleted Successfully"
                             else "Account Deacitvated Successfully")
      && (s == AccountDeletion ==> KeyAbsent(db.users, UserId, id))
  {
    match s
    case Register =>
      if KeyAbsent(db.statuses, StatusOwner, id) {
        return Failed(NoElements);
      }
      outcome := Applied("Account Verified Successfully", 0);
    case AccountDeletion =>
      var err := DeleteAccount(db, id);
      outcome := if err.Some? then Failed(err.value) else Applied("Account Deleted Successfully", 0);
    case AccountDeactivation =>
      outcome := DeactivateAccount(db, id);
    case _ =>
      outcome := Failed(InvalidVerificationLink);
  }

  /**
   * The AccountDeletion branch: `ExecuteDelete` of the user's status, profile
   * and user rows, one after another. When a foreign key keeps the user row,
   * the third delete throws and the first two stay done.
   */
  method DeleteAccount(db: Database, id: nat) returns (err: Option<Error>)
    requires db.Valid()
    modifies db`statuses, db`profiles, db`users
    ensures db.Valid()
    ensures db.statuses == Without(old(db.statuses), StatusOwner, id)
    ensures db.profiles == Without(old(db.profiles), ProfileOwner, id)
    ensures err.Some? <==> old(db.UserDeleteBlocked(id))
    ensures err.Some? ==> err == Some(DeleteConflict) && db.users == old(db.users)
    ensures err.None? ==> db.users == Without(old(db.users), UserId, id)
  {
    ghost var blocked := db.UserDeleteBlocked(id);
    DeleteStatusOf(db, id);
    db.profiles := Without(db.profiles, ProfileOwner, id);
    assert db.UserDeleteBlocked(id) == blocked;
    err := DeleteUser(db, id);
  }

  /** `ExecuteDelete` of the user's status row. */
  method DeleteStatusOf(db: Database, id: nat)
    requires db.Valid()
    modifies db`statuses
    ensures db.Valid()
    ensures db.statuses == Without(old(db.statuses), StatusOwner, id)
  {
    WithoutUnique(db.statuses, StatusOwner, id, StatusOwner);
    WithoutBelow(db.statuses, StatusOwner, id, StatusId, db.statusSeq);
    WithoutBelow(db.statuses, StatusOwner, id, StatusOwner, db.userSeq);
    db.statuses := Without(db.statuses, StatusOwner, id);
  }

  /** `ExecuteDelete` of the user row; a row whose foreign key does not cascade makes it throw, and nothing is deleted. */
  method DeleteUser(db: Database, id: nat) returns (err: Option<Error>)
    requires db.Valid()
    modifies db`users
    ensures db.Valid()
    ensures err.Some? <==> old(db.UserDeleteBlocked(id))
    ensures err.Some? ==> err == Some(DeleteConflict) && db.users == old(db.users)
    ensures err.None? ==> db.users == Without(old(db.users), UserId, id)
  {
    if db.UserDeleteBlocked(id) {
      return Some(DeleteConflict);
    }
    WithoutUnique(db.users, UserId, id, Email);
    WithoutUnique(db.users, UserId, id, Username);
    WithoutUnique(db.users, UserId, id, UserId);
    WithoutBelow(db.users, UserId, id, UserId, db.userSeq);
    db.users := Without(db.users, UserId, id);
    err := None;
  }

  /** The AccountDeactivation branch: the user's status becomes Inactive; a missing status is `Entry(null)`. */
  method DeactivateAccount(db: Database, id: nat) returns (outcome: Applied)
    requires db.Valid()
    modifies db`statuses
    ensures db.Valid()
    ensures match FindIndex(old(db.statuses), StatusOwner, id)
      case None => outcome == Failed(NullEntity) && db.statuses == old(db.statuses)
      case Some(j) =>
        && db.statuses == old(db.statuses)[j := old(db.statuses)[j].(status := Inactive)]
        && outcome == Applied("Account Deacitvated Successfully", if old(db.statuses)[j].status == Inactive then 0 else 1)
  {
    var j := FindIndex(db.statuses, StatusOwner, id);
    if j.None? {
      return Failed(NullEntity);
    }
    var row := db.statuses[j.value];
    UniqueUpdate(db.statuses, j.value, row.(status := Inactive), StatusOwner);
    db.statuses := db.statuses[j.value := row.(status := Inactive)];
    outcome := Applied("Account Deacitvated Successfully", if row.status == Inactive then 0 else 1);
  }

  /** The lookup of `VerifyToken`: the session's user and the position of the live link, or the error it answers. */
  datatype LinkCheck = Live(k: nat, id: nat) | Refused(err: Error)

  /**
   * The checks `VerifyToken` makes before it acts: a session row holding
   * `u`, a link of that session's user with token `t` and type `s`, and
   * `ExpiresDate > now` on that link. Without a type no link matches.
   */
  function CheckLink(tokens: seq<UserToken>, links: seq<VerificationToken>, u: string, t: string, s: Option<VerificationType>, now: Time): (r: LinkCheck)
    ensures r.Live? || r == Refused(InvalidVerificationLink) || r == Refused(VerificationCodeExpired)
    ensures r.Live? <==>
      && SessionByToken(tokens, u).Some?
      && FindLink(links, SessionByToken(tokens, u).value.userId, t, s).Some?
      && links[FindLink(links, SessionByToken(tokens, u).value.userId, t, s).value].expiresDate > now
    ensures r.Live? ==> r.id == SessionByToken(tokens, u).value.userId && FindLink(links, r.id, t, s) == Some(r.k)
    ensures r.Live? ==> r.k < |links| && s == Some(links[r.k].kind)
    ensures s.None? ==> r == Refused(InvalidVerificationLink)
    ensures r == Refused(InvalidVerificationLink) <==>
      SessionByToken(tokens, u).None? || FindLink(links, SessionByToken(tokens, u).value.userId, t, s).None?
  {
    var row := SessionByToken(tokens, u);
    if row.None? then Refused(InvalidVerificationLink)
    else match FindLink(links, row.value.userId, t, s)
      case None => Refused(InvalidVerificationLink)
      case Some(k) => if links[k].expiresDate > now then Live(k, row.value.userId) else Refused(VerificationCodeExpired)
  }

  /**
   * What `VerifyToken` does with a live link: stamps row `k` with `now` and
   * saves it, then applies the type `s` to the user `id`.
   */
  method UseLink(db: Database, k: nat, s: VerificationType, id: nat, now: Time) returns (reply: Reply)
    requires db.Valid() && k < |db.links|
    modifies db`links, db`statuses, db`profiles, db`users
    ensures db.Valid()
    ensures db.links == old(db.links)[k := old(db.links)[k].(verifiedAt := Some(now))]
    ensures Dispatched(old(db.statuses), old(db.profiles), old(db.users), db.statuses, db.profiles, db.users,
                       s, id, old(db.UserDeleteBlocked(id)), reply)
  {
    ghost var blocked := db.UserDeleteBlocked(id);
    db.StampLink(k, now);
    assert db.UserDeleteBlocked(id) == blocked;
    ghost var links1 := db.links;
    reply := Dispatch(db, s, id);
    assert db.links == links1;
  }

  /**
   * `VerifyToken`: consumes the link, then applies its type; the stamp stays
   * whatever the type does. A query without `s` binds a null type, which
   * no link matches.
   */
  method VerifyToken(db: Database, u: string, t: string, s: Option<VerificationType>, now: Time) returns (reply: Reply)
    requires db.Valid()
    modifies db`links, db`statuses, db`profiles, db`users
    ensures db.Valid()
    ensures var c := CheckLink(old(db.tokens), old(db.links), u, t, s, now);
      && (c.Refused? ==>
            && reply == BadRequest(c.err.Message())
            && db.links == old(db.links) && db.statuses == old(db.statuses)
            && db.profiles == old(db.profiles) && db.users == old(db.users))
      && (c.Live? ==>
            && db.links == old(db.links)[c.k := old(db.links)[c.k].(verifiedAt := Some(now))]
            && s.Some?
            && Dispatched(old(db.statuses), old(db.profiles), old(db.users), db.statuses, db.profiles, db.users,
                          s.value, c.id, old(db.UserDeleteBlocked(c.id)), reply))
      && (reply.Ok? ==>
            && c.Live?
            && s.value in {Register, AccountDeletion, AccountDeactivation}
            && reply == Ok(if s.value == Register then "Account Verified Successfully"
                           else if s.value == AccountDeletion then "Account Deleted Successfully"
                           else "Account Deacitvated Successfully", None)
            && (s.value == AccountDeletion ==> KeyAbsent(db.users, UserId, c.id)))
    ensures s.None? ==>
      && reply == BadRequest(InvalidVerificationLink.Message())
      && db.links == old(db.links) && db.statuses == old(db.statuses)
      && db.profiles == old(db.profiles) && db.users == old(db.users)
  {
    ghost var statuses0, profiles0, users0 := db.statuses, db.profiles, db.users;
    var check := CheckLink(db.tokens, db.links, u, t, s, now);
    match check
    case Refused(e) =>
      reply := BadRequest(e.Message());
    case Live(k, id) =>
      reply := UseLink(db, k, s.value, id, now);
      if reply.Ok? {
        DispatchedOk(statuses0, profiles0, users0, db.statuses, db.profiles, db.users, s.value, id, old(db.UserDeleteBlocked(id)), reply);
      }
  }

  /**
   * What the type dispatch for user `id` does: the status, profile and user
   * tables go from `statuses0`, `profiles0`, `users0` to `statuses`,
   * `profiles`, `users`, and `reply` is its answer. Register and every type
   * without a branch change no table; AccountDeletion removes the user's
   * status and profile rows, and then its user row unless `blocked` (a row
   * whose foreign key does not cascade keeps it), in which case it answers
   * the provider's error; AccountDeactivation sets the first status row of
   * the user to Inactive. The success test after the final save is
   * inverted, so a deactivation that changes the status answers "Verify
   * Account Failed".
   */
  predicate Dispatched(statuses0: seq<UserStatus>, profiles0: seq<Profile>, users0: seq<User>,
                       statuses: seq<UserStatus>, profiles: seq<Profile>, users: seq<User>,
                       s: VerificationType, id: nat, blocked: bool, reply: Reply)
  {
    match s
    case Register =>
      && statuses == statuses0 && profiles == profiles0 && users == users0
      && reply == if KeyAbsent(statuses0, StatusOwner, id) then BadRequest(NoElements.Message())
                  else Ok("Account Verified Successfully", None)
    case AccountDeletion =>
      && statuses == Without(statuses0, StatusOwner, id)
      && profiles == Without(profiles0, ProfileOwner, id)
      && users == (if blocked then users0 else Without(users0, UserId, id))
      && reply == if blocked then BadRequest(DeleteConflict.Message()) else Ok("Account Deleted Successfully", None)
    case AccountDeactivation =>
      && profiles == profiles0 && users == users0
      && (match FindIndex(statuses0, StatusOwner, id)
          case None => statuses == statuses0 && reply == BadRequest(NullEntity.Message())
          case Some(j) =>
            && statuses == statuses0[j := statuses0[j].(status := Inactive)]
            && reply == if statuses0[j].status == Inactive then Ok("Account Deacitvated Successfully", None)
                        else BadRequest(VerifyAccountFailed.Message()))
    case _ =>
      && statuses == statuses0 && profiles == profiles0 && users == users0
      && reply == BadRequest(InvalidVerificationLink.Message())
  }

  /** A success reply of the dispatch names its branch, and a deletion it reports was not blocked and left the user no row. */
  lemma DispatchedOk(statuses0: seq<UserStatus>, profiles0: seq<Profile>, users0: seq<User>,
                     statuses: seq<UserStatus>, profiles: seq<Profile>, users: seq<User>,
                     s: VerificationType, id: nat, blocked: bool, reply: Reply)
    requires Dispatched(statuses0, profiles0, users0, statuses, profiles, users, s, id, blocked, reply)
    requires reply.Ok?
    ensures s in {Register, AccountDeletion, AccountDeactivation}
    ensures reply == Ok(if s == Register then "Account Verified Successfully"
                        else if s == AccountDeletion then "Account Deleted Successfully"
                        else "Account Deacitvated Successfully", None)
    ensures s == AccountDeletion ==> !blocked && KeyAbsent(users, UserId, id)
  {
  }

  /** The second half of `VerifyToken`: the type dispatch and the reply its outcome gives. */
  method Dispatch(db: Database, s: VerificationType, id: nat) returns (reply: Reply)
    requires db.Valid()
    modifies db`statuses, db`profiles, db`users
    ensures db.Valid()
    ensures reply.Ok? ==>
      && reply == Ok(if s == Register then "Account Verified Successfully"
                     else if s == AccountDeletion then "Account Deleted Successfully"
                     else "Account Deacitvated Successfully", None)
      && s in {Register, AccountDeletion, AccountDeactivation}
      && (s == AccountDeletion ==> KeyAbsent(db.users, UserId, id))
    ensures Dispatched(old(db.statuses), old(db.profiles), old(db.users), db.statuses, db.profiles, db.users,
                       s, id, old(db.UserDeleteBlocked(id)), reply)
  {
    var outcome := Apply(db, s, id);
    match outcome
    case Failed(e) =>
      reply := BadRequest(e.Message());
    case Applied(message, saved) =>
      reply := if saved > 0 then BadRequest(VerifyAccountFailed.Message()) else Ok(message, None);
  }

  /** The position of the first Register code row of the user with that code. */
  function FindCode(codes: seq<Verification>, userId: nat, code: string): (r: Option<nat>)
    ensures r.Some? ==> r.value < |codes| && codes[r.value].code == code && codes[r.value].userId == userId && codes[r.value].kind == Register
    ensures r.None? <==> forall i | 0 <= i < |codes| :: !(codes[i].code == code && codes[i].userId == userId && codes[i].kind == Register)
  {
    FirstWhere(codes, (v: Verification) => v.code == code && v.userId == userId && v.kind == Register)
  }

  /** The attribute of `VerifyCodeDto`: `[Required, MinLength(6), StringLength(6)]` code. */
  predicate VerifyCodeDtoValid(code: string)
  {
    Required(code) && LengthWithin(code, 6, 6)
  }

  /**
   * When every stored code has six digits, as the codes registration
   * creates do, a code that fails validation matches no row: the
   * validation changes only the reply, not what the action would store.
   */
  lemma InvalidCodeMatchesNothing(codes: seq<Verification>, userId: nat, code: string)
    requires forall i | 0 <= i < |codes| :: |codes[i].code| == 6 && AllDigits(codes[i].code)
    requires !VerifyCodeDtoValid(code)
    ensures FindCode(codes, userId, code).None?
  {
    forall i | 0 <= i < |codes| ensures codes[i].code != code
    {
      DigitsRequired(codes[i].code);
    }
  }

  /**
   * `VerifyCode`: a code that fails validation is answered before the
   * action runs; otherwise the caller's Register code, unexpired, is
   * stamped, and their status must exist.
   */
  method VerifyCode(db: Database, header: string, jwt: Jwt, code: string, now: Time) returns (reply: Reply)
    requires db.Valid()
    modifies db`codes
    ensures db.Valid()
    ensures !VerifyCodeDtoValid(code) ==> reply == ValidationProblem && db.codes == old(db.codes)
    ensures VerifyCodeDtoValid(code) ==>
      var u := GetUser(db.users, db.tokens, header, jwt, now);
      && (u.None? ==> reply == Unauthorized && db.codes == old(db.codes))
      && (u.Some? && FindCode(old(db.codes), u.value.id, code).None? ==>
            reply == BadRequest(NoElements.Message()) && db.codes == old(db.codes))
      && (u.Some? && FindCode(old(db.codes), u.value.id, code).Some? ==>
            var k := FindCode(old(db.codes), u.value.id, code).value;
            && (old(db.codes)[k].expiresDate <= now ==>
                  reply == BadRequest(VerificationCodeExpired.Message()) && db.codes == old(db.codes))
            && (old(db.codes)[k].expiresDate > now ==>
                  && db.codes == old(db.codes)[k := old(db.codes)[k].(verifiedAt := Some(now))]
                  && reply == if KeyAbsent(db.statuses, StatusOwner, u.value.id) then BadRequest(NoElements.Message())
                              else Ok("Verified Account Successfully", None)))
  {
    if !VerifyCodeDtoValid(code) {
      return ValidationProblem;
    }
    var user := GetUser(db.users, db.tokens, header, jwt, now);
    if user.None? {
      return Unauthorized;
    }
    reply := RedeemCode(db, user.value.id, code, now);
  }

  /** The part of `VerifyCode` after the caller is known: find, check and stamp the code, then read the status. */
  method RedeemCode(db: Database, id: nat, code: string, now: Time) returns (reply: Reply)
    requires db.Valid()
    modifies db`codes
    ensures db.Valid()
    ensures FindCode(old(db.codes), id, code).None? ==> reply == BadRequest(NoElements.Message()) && db.codes == old(db.codes)
    ensures FindCode(old(db.codes), id, code).Some? ==>
      var k := FindCode(old(db.codes), id, code).value;
      && (old(db.codes)[k].expiresDate <= now ==>
            reply == BadRequest(VerificationCodeExpired.Message()) && db.codes == old(db.codes))
      && (old(db.codes)[k].expiresDate > now ==>
            && db.codes == old(db.codes)[k := old(db.codes)[k].(verifiedAt := Some(now))]
            && reply == if KeyAbsent(db.statuses, StatusOwner, id) then BadRequest(NoElements.Message())
                        else Ok("Verified Account Successfully", None))
  {
    var k := FindCode(db.codes, id, code);
    if k.None? {
      return BadRequest(NoElements.Message());
    }
    if !(db.codes[k.value].expiresDate > now) {
      return BadRequest(VerificationCodeExpired.Message());
    }
    db.codes := db.codes[k.value := db.codes[k.value].(verifiedAt := Some(now))];
    if KeyAbsent(db.statuses, StatusOwner, id) {
      return BadRequest(NoElements.Message());
    }
    reply := Ok("Verified Account Successfully", None);
  }
}
