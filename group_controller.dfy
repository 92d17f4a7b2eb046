/**
 * `GroupController`: viewing a group by slug, which depends on who asks,
 * and the actions that create, delete, join and answer requests. The
 * current user comes from `TokenService.GetUser`. The slug rolls and tick
 * counters that `SlugHelper.Create` would draw are parameters: one set for
 * the group's slug and one for the creator's membership slug.
 */
module GroupController {
  import opened Wrappers
  import opened Entities
  import opened Data
  import opened TokenService
  import opened GroupService
  import SlugHelper
  import opened Validation

  // ------------------------------------------------------------- viewing

  /** What `GetBySlug` answers, and the group it shows. */
  datatype GroupView = GroupView(reply: Reply, group: Option<Group>)

  /**
   * `GetBySlug`: a signed-in viewer is served through the member-or-creator
   * lookup, an anonymous one through the public-only lookup; no group gives
   * 404 "No group found".
   */
  function GetBySlug(users: seq<User>, tokens: seq<UserToken>, members: seq<GroupMember>, groups: seq<Group>,
                     header: string, jwt: Jwt, now: Time, slug: string): (r: GroupView)
    ensures r.group.None? <==> r.reply == NotFound("No group found")
    ensures r.group.Some? ==> r.reply == Ok("Success", None) && r.group.value in groups && r.group.value.slug == slug
    ensures var viewer := GetUser(users, tokens, header, jwt, now);
      && (viewer.None? && r.group.Some? ==> r.group.value.privacy == Public)
      && (viewer.Some? && r.group.Some? ==> IsMemberOrCreator(users, members, r.group.value, viewer.value.username))
  {
    var viewer := GetUser(users, tokens, header, jwt, now);
    var found := if viewer.Some? then GetGroupBySlugWithAllPrivacyAsync(users, members, groups, slug, viewer.value.username)
                 else GetGroupBySlugWithPublicOnlyAsync(groups, slug);
    if found.None? then GroupView(NotFound("No group found"), None) else GroupView(Ok("Success", None), found)
  }

  /**
   * A Public group is shown to anyone without a session, but hidden from a
   * signed-in viewer who is neither a member nor its creator.
   */
  lemma PublicGroupHiddenFromOutsiders(users: seq<User>, tokens: seq<UserToken>, members: seq<GroupMember>,
                                       groups: seq<Group>, header: string, jwt: Jwt, now: Time, i: nat)
    requires UniqueBy(groups, GroupSlug) && i < |groups| && groups[i].privacy == Public
    ensures var viewer := GetUser(users, tokens, header, jwt, now);
      && (viewer.None? ==> GetBySlug(users, tokens, members, groups, header, jwt, now, groups[i].slug).group == Some(groups[i]))
      && (viewer.Some? && !IsMemberOrCreator(users, members, groups[i], viewer.value.username) ==>
            GetBySlug(users, tokens, members, groups, header, jwt, now, groups[i].slug).reply == NotFound("No group found"))
  {
    var viewer := GetUser(users, tokens, header, jwt, now);
    var name := if viewer.Some? then viewer.value.username else "";
    VisibilityOfSlugGroup(users, members, groups, groups[i].slug, name);
    var k := FindIndex(groups, GroupSlug, groups[i].slug).value;
    assert k == i;
  }

  /** A Private group is never shown to a viewer without a session. */
  lemma PrivateGroupNeedsSession(users: seq<User>, tokens: seq<UserToken>, members: seq<GroupMember>,
                                 groups: seq<Group>, header: string, jwt: Jwt, now: Time, slug: string)
    requires UniqueBy(groups, GroupSlug)
    requires GetUser(users, tokens, header, jwt, now).None?
    requires GetGroupBySlugUnsafeAsync(groups, slug).Some? && GetGroupBySlugUnsafeAsync(groups, slug).value.privacy != Public
    ensures GetBySlug(users, tokens, members, groups, header, jwt, now, slug).reply == NotFound("No group found")
  {
    VisibilityOfSlugGroup(users, members, groups, slug, "");
  }

  // ------------------------------------------------------------- actions

  /** The body of `Create` (`CreateGroupDto`). */
  datatype CreateGroupDto = CreateGroupDto(name: string, privacy: Option<Privacy>, description: Option<string>)

  /** `CreateGroupDto.ToEntity`: the slug drawn from the name, Public unless a privacy is given. */
  function ToEntity(dto: CreateGroupDto, creatorId: nat, rolls: seq<nat>, ticks: nat, now: Time): (g: Group)
    requires |rolls| >= SlugHelper.BodyLength - 1 && SlugHelper.ValidRolls(rolls)
    ensures g.name == dto.name && g.creatorId == creatorId && g.description == dto.description && g.deletedAt.None?
    ensures g.privacy == (if dto.privacy.Some? then dto.privacy.value else Public)
    ensures g.slug == SlugHelper.Slug(dto.name, rolls, ticks)
  {
    Group(0, dto.name, SlugHelper.Slug(dto.name, rolls, ticks), dto.privacy.GetOr(Public), dto.description,
          creatorId, None, now, now)
  }

  /** The attributes of `CreateGroupDto`: `[MinLength(4), MaxLength(255)]` name, `[StringLength(1024)]` description. */
  predicate CreateGroupDtoValid(dto: CreateGroupDto)
  {
    LengthWithin(dto.name, 4, 255) && OptionalAtMost(dto.description, 1024)
  }

  /** A group mapped from a request that passes validation fits the `Groups.Name` column. */
  lemma ValidGroupNameFits(dto: CreateGroupDto, creatorId: nat, rolls: seq<nat>, ticks: nat, now: Time)
    requires |rolls| >= SlugHelper.BodyLength - 1 && SlugHelper.ValidRolls(rolls)
    requires CreateGroupDtoValid(dto)
    ensures |ToEntity(dto, creatorId, rolls, ticks, now).name| <= GroupNameMaxLength
  {
  }

  /**
   * `Create`: a request that fails validation is answered before the action
   * runs; otherwise the service's error message as a BadRequest, or success.
   */
  method Create(db: Database, header: string, jwt: Jwt, dto: CreateGroupDto, groupRolls: seq<nat>, groupTicks: nat,
                memberRolls: seq<nat>, memberTicks: nat, now: Time)
    returns (reply: Reply)
    requires db.Valid()
    requires |groupRolls| >= SlugHelper.BodyLength - 1 && SlugHelper.ValidRolls(groupRolls)
    requires |memberRolls| >= SlugHelper.BodyLength - 1 && SlugHelper.ValidRolls(memberRolls)
    modifies db`groups, db`groupSeq, db`members, db`memberSeq
    ensures db.Valid()
    ensures !CreateGroupDtoValid(dto) ==> reply == ValidationProblem && db.groups == old(db.groups) && db.members == old(db.members)
    ensures var user := GetUser(db.users, db.tokens, header, jwt, now);
      && (CreateGroupDtoValid(dto) && user.None? ==> reply == Unauthorized && db.groups == old(db.groups) && db.members == old(db.members))
      && (CreateGroupDtoValid(dto) && user.Some? ==>
            var g := ToEntity(dto, user.value.id, groupRolls, groupTicks, now);
            var memberSlug := SlugHelper.Slug(g.name, memberRolls, memberTicks);
            && (!old(db.GroupInsertable(g, memberSlug)) ==>
                  reply == BadRequest(SaveFailed.Message()) && db.groups == old(db.groups) && db.members == old(db.members))
            && (old(db.GroupInsertable(g, memberSlug)) ==>
                  && reply == Ok("Group Created Successfully", None)
                  && db.groups == old(db.groups) + [g.(id := old(db.groupSeq))]
                  && db.members == old(db.members)
                     + [GroupMember(old(db.memberSeq), memberSlug, Approved, old(db.groupSeq), user.value.id, Some(now), now, now)]))
  {
    if !CreateGroupDtoValid(dto) {
      return ValidationProblem;
    }
    var user := GetUser(db.users, db.tokens, header, jwt, now);
    if user.None? {
      return Unauthorized;
    }
    var err := CreateGroupAsync(db, ToEntity(dto, user.value.id, groupRolls, groupTicks, now), memberRolls, memberTicks, now);
    reply := if err.Some? then BadRequest(err.value.Message()) else Ok("Group Created Successfully", None);
  }

  /** `Delete`: the creator soft-deletes the group and its posts. */
  method Delete(db: Database, header: string, jwt: Jwt, slug: string, now: Time) returns (reply: Reply)
    requires db.Valid()
    modifies db`groups, db`posts
    ensures db.Valid()
    ensures var user := GetUser(db.users, db.tokens, header, jwt, now);
      && (user.None? ==> reply == Unauthorized && db.groups == old(db.groups) && db.posts == old(db.posts))
      && (user.Some? ==>
            var k := DeleteTarget(old(db.groups), slug, user.value.id);
            && (k.None? ==>
                  && reply == BadRequest(NoPermissionToDeleteGroup.Message())
                  && db.groups == old(db.groups) && db.posts == old(db.posts))
            && (k.Some? ==>
                  && reply == Ok("Delete Successful", None)
                  && db.groups == old(db.groups)[k.value := old(db.groups)[k.value].(deletedAt := Some(now))]
                  && db.posts == CascadeDeleted(old(db.posts), old(db.groups)[k.value].id, now)))
  {
    var user := GetUser(db.users, db.tokens, header, jwt, now);
    if user.None? {
      return Unauthorized;
    }
    var err := DeleteGroupAsync(db, slug, user.value, now);
    reply := if err.Some? then BadRequest(err.value.Message()) else Ok("Delete Successful", None);
  }

  /** `RequestJoin`: the service's answer is dropped; a signed-in caller always hears success. */
  method RequestJoin(db: Database, header: string, jwt: Jwt, slug: string, rolls: seq<nat>, ticks: nat, now: Time)
    returns (reply: Reply)
    requires db.Valid() && |rolls| >= SlugHelper.BodyLength - 1 && SlugHelper.ValidRolls(rolls)
    modifies db`members, db`memberSeq
    ensures db.Valid()
    ensures var user := GetUser(db.users, db.tokens, header, jwt, now);
      && (user.None? ==> reply == Unauthorized && db.members == old(db.members))
      && (user.Some? ==>
            && reply == Ok("Request Successful", None)
            && (JoinCheck(db.groups, old(db.members), slug, user.value.id).Some? ==> db.members == old(db.members))
            && (JoinCheck(db.groups, old(db.members), slug, user.value.id).None? ==>
                  var m := JoinRow(GetGroupBySlugWithNonPrivateAsync(db.groups, slug).value, user.value, rolls, ticks,
                                   old(db.memberSeq), now);
                  db.members == if KeyAbsent(old(db.members), MemberSlug, m.slug) && |m.slug| <= SlugMaxLength
                                then old(db.members) + [m] else old(db.members)))
  {
    var user := GetUser(db.users, db.tokens, header, jwt, now);
    if user.None? {
      return Unauthorized;
    }
    assert db.HasUser(user.value.id) by {
      var i :| 0 <= i < |db.users| && db.users[i] == user.value;
      assert UserId(db.users[i]) == user.value.id;
    }
    var _ := JoinGroupAsync(db, slug, user.value, rolls, ticks, now);
    reply := Ok("Request Successful", None);
  }

  /** `UpdateMemberStatus`: the service's answer is dropped; a signed-in caller always hears success. */
  method UpdateMemberStatus(db: Database, header: string, jwt: Jwt, slug: string, memberId: nat, status: MemberStatus,
                            now: Time)
    returns (reply: Reply)
    requires db.Valid()
    modifies db`members
    ensures db.Valid()
    ensures var user := GetUser(db.users, db.tokens, header, jwt, now);
      && (user.None? ==> reply == Unauthorized && db.members == old(db.members))
      && (user.Some? ==>
            && reply == Ok("Update Successful", None)
            && match AnswerTarget(db.groups, old(db.members), slug, user.value.id, memberId, status)
               case Refused(_) => db.members == old(db.members)
               case Answerable(k) => db.members == old(db.members)[k := Answered(old(db.members)[k], status, now)])
  {
    var user := GetUser(db.users, db.tokens, header, jwt, now);
    if user.None? {
      return Unauthorized;
    }
    var _ := UpdateMemberStatusAsync(db, slug, user.value.id, memberId, status, now);
    reply := Ok("Update Successful", None);
  }
}
