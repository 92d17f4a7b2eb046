/**
 * `GroupService`: the group search with its privacy-ordered pages, the slug
 * lookups that differ in which groups they may return, and the operations
 * that create a group, ask to join one, answer a join request and
 * soft-delete a group together with its posts. The member slugs drawn by
 * `SlugHelper.Create` take their random rolls and tick counter as
 * parameters.
 */
module GroupService {
  import opened Wrappers
  import opened Text
  import opened Entities
  import opened Data
  import SlugHelper
  import PostQuery

  /** The user row with the id, if one is stored. */
  function UserOf(users: seq<User>, id: nat): (r: Option<User>)
    ensures r.None? <==> KeyAbsent(users, UserId, id)
    ensures r.Some? ==> r.value in users && r.value.id == id
  {
    match FindIndex(users, UserId, id)
    case None => None
    case Some(i) => Some(users[i])
  }

  // --------------------------------------------------------------- search

  /**
   * A search term after `Trim()`, when it is not blank. Unlike the post
   * search, the term keeps its case.
   */
  function SearchTerm(s: Option<string>): Option<string>
  {
    if s.None? || Trim(s.value) == [] then None else Some(Trim(s.value))
  }

  /** `Username.ToLower().Contains(term)` of the stored user with the id. */
  predicate UsernameHit(users: seq<User>, id: nat, term: string)
  {
    var u := UserOf(users, id);
    u.Some? && Contains(ToLower(u.value.username), term)
  }

  /** The username clause: the creator's username, or some member's, contains the term. */
  predicate PeopleHit(users: seq<User>, members: seq<GroupMember>, g: Group, term: string)
  {
    || UsernameHit(users, g.creatorId, term)
    || exists k | 0 <= k < |members| :: members[k].groupId == g.id && UsernameHit(users, members[k].memberId, term)
  }

  /** The keyword clause: the lowered name, or the lowered description, contains the term. */
  predicate NameHit(g: Group, term: string)
  {
    Contains(ToLower(g.name), term) || (g.description.Some? && Contains(ToLower(g.description.value), term))
  }

  /** A group passes each search term that is given and not blank. */
  predicate GroupMatches(users: seq<User>, members: seq<GroupMember>, keyword: Option<string>, username: Option<string>, g: Group)
  {
    && (SearchTerm(username).Some? ==> PeopleHit(users, members, g, SearchTerm(username).value))
    && (SearchTerm(keyword).Some? ==> NameHit(g, SearchTerm(keyword).value))
  }

  /** The groups passing the search, in table order. */
  function GroupMatching(users: seq<User>, members: seq<GroupMember>, keyword: Option<string>, username: Option<string>,
                         groups: seq<Group>): (r: seq<Group>)
    ensures |r| <= |groups|
    ensures forall g :: g in r <==> g in groups && GroupMatches(users, members, keyword, username, g)
    ensures forall g | g in r :: multiset(r)[g] == multiset(groups)[g]
    ensures (forall i | 0 <= i < |groups| :: GroupMatches(users, members, keyword, username, groups[i])) ==> r == groups
    ensures (forall i | 0 <= i < |groups| :: !GroupMatches(users, members, keyword, username, groups[i])) ==> r == []
  {
    var keep := (g: Group) => GroupMatches(users, members, keyword, username, g);
    FilterMeaning(groups, keep);
    Filter(groups, keep)
  }

  /**
   * The fields are lowered but the terms are not: a term with an upper-case
   * letter fails its clause for every group.
   */
  lemma UpperCaseTermNeverHits(users: seq<User>, members: seq<GroupMember>, g: Group, term: string)
    requires !NoUpper(term)
    ensures !NameHit(g, term)
    ensures !PeopleHit(users, members, g, term)
  {
    ToLowerIdempotent(g.name);
    if Contains(ToLower(g.name), term) {
      ContainsNoUpper(ToLower(g.name), term);
    }
    if g.description.Some? {
      ToLowerIdempotent(g.description.value);
      if Contains(ToLower(g.description.value), term) {
        ContainsNoUpper(ToLower(g.description.value), term);
      }
    }
    forall id: nat ensures !UsernameHit(users, id, term)
    {
      var u := UserOf(users, id);
      if u.Some? {
        ToLowerIdempotent(u.value.username);
        if Contains(ToLower(u.value.username), term) {
          ContainsNoUpper(ToLower(u.value.username), term);
        }
      }
    }
  }

  // ------------------------------------------------------------- ordering

  /** `OrderBy(PrivacyType)`: ascending by the stored privacy byte. */
  predicate PrivacyOrdered(s: seq<Group>)
  {
    forall i, j | 0 <= i < j < |s| :: s[i].privacy.Rank() <= s[j].privacy.Rank()
  }

  function InsertByPrivacy(g: Group, s: seq<Group>): (r: seq<Group>)
    requires PrivacyOrdered(s)
    ensures PrivacyOrdered(r)
    ensures multiset(r) == multiset(s) + multiset{g}
    ensures |r| == |s| + 1
    ensures forall i | 0 <= i < |r| :: r[i] == g || r[i] in s
  {
    if s == [] || g.privacy.Rank() <= s[0].privacy.Rank() then [g] + s
    else
      var rest := InsertByPrivacy(g, s[1..]);
      assert s == [s[0]] + s[1..];
      NotBelowHead(g, s, rest);
      ConsOrdered(s[0], rest);
      [s[0]] + rest
  }

  /** An ordered sequence stays ordered under a head that ranks no higher than any of its elements. */
  lemma ConsOrdered(h: Group, rest: seq<Group>)
    requires PrivacyOrdered(rest)
    requires forall i | 0 <= i < |rest| :: rest[i].privacy.Rank() >= h.privacy.Rank()
    ensures PrivacyOrdered([h] + rest)
  {
    var r := [h] + rest;
    forall i, j | 0 <= i < j < |r| ensures r[i].privacy.Rank() <= r[j].privacy.Rank()
    {
      assert r[j] == rest[j - 1];
      if i > 0 {
        assert r[i] == rest[i - 1];
      }
    }
  }

  /** What is inserted into the tail of `s` ranks no lower than the head of `s`. */
  lemma NotBelowHead(g: Group, s: seq<Group>, rest: seq<Group>)
    requires PrivacyOrdered(s) && s != [] && g.privacy.Rank() > s[0].privacy.Rank()
    requires forall i | 0 <= i < |rest| :: rest[i] == g || rest[i] in s[1..]
    ensures forall i | 0 <= i < |rest| :: rest[i].privacy.Rank() >= s[0].privacy.Rank()
  {
    forall i | 0 <= i < |rest| ensures rest[i].privacy.Rank() >= s[0].privacy.Rank()
    {
      if rest[i] != g {
        var k :| 0 <= k < |s[1..]| && s[1..][k] == rest[i];
        assert s[k + 1] == rest[i];
      }
    }
  }

  /** The groups ordered by privacy; the same groups, each as often. */
  function SortByPrivacy(s: seq<Group>): (r: seq<Group>)
    ensures PrivacyOrdered(r)
    ensures multiset(r) == multiset(s)
    ensures |r| == |s|
    ensures forall g | g in r :: g in s
  {
    if s == [] then []
    else
      assert s == [s[0]] + s[1..];
      InsertByPrivacy(s[0], SortByPrivacy(s[1..]))
  }

  // ---------------------------------------------------------------- pages

  /** The reply of `GetGroupsAsync`: the page, the count of all matches, the page asked for and the limit used. */
  datatype GroupPage = GroupPage(groups: seq<Group>, total: nat, page: int, limit: nat)

  /** `GetGroupsAsync`: search, order by privacy, then take the window of the page. */
  function GetGroupsAsync(users: seq<User>, members: seq<GroupMember>, groups: seq<Group>,
                          keyword: Option<string>, username: Option<string>, page: int, limit: Option<nat>): (r: GroupPage)
    ensures r.page == page && r.limit == limit.GetOr(PostQuery.DefaultLimit)
    ensures r.total == |GroupMatching(users, members, keyword, username, groups)|
    ensures |r.groups| <= r.limit
    ensures forall g | g in r.groups :: g in groups && GroupMatches(users, members, keyword, username, g)
  {
    var lim := limit.GetOr(PostQuery.DefaultLimit);
    var matching := GroupMatching(users, members, keyword, username, groups);
    var sorted := SortByPrivacy(matching);
    var start := PostQuery.StartOf(page, lim);
    var window := PostQuery.Window(sorted, start, lim);
    assert forall g | g in window :: g in sorted;
    GroupPage(window, |matching|, page, lim)
  }

  /**
   * The page is the window (`Skip`/`Take`, see `PostQuery.Window`) of the
   * privacy-ordered matches that follows the earlier pages, so within a page
   * no group ranks below the one before it.
   */
  lemma GetGroupsPage(users: seq<User>, members: seq<GroupMember>, groups: seq<Group>,
                      keyword: Option<string>, username: Option<string>, page: int, limit: Option<nat>)
    ensures var r := GetGroupsAsync(users, members, groups, keyword, username, page, limit);
      var sorted := SortByPrivacy(GroupMatching(users, members, keyword, username, groups));
      var lim := limit.GetOr(PostQuery.DefaultLimit);
      && r.groups == PostQuery.Window(sorted, PostQuery.StartOf(page, lim), lim)
      && PrivacyOrdered(r.groups)
  {
    var lim := limit.GetOr(PostQuery.DefaultLimit);
    var sorted := SortByPrivacy(GroupMatching(users, members, keyword, username, groups));
    WindowOrdered(sorted, PostQuery.StartOf(page, lim), lim);
  }

  /** A window of a privacy-ordered sequence is privacy-ordered. */
  lemma WindowOrdered(s: seq<Group>, start: nat, limit: nat)
    requires PrivacyOrdered(s)
    ensures PrivacyOrdered(PostQuery.Window(s, start, limit))
  {
    var r := PostQuery.Window(s, start, limit);
    forall i, j | 0 <= i < j < |r| ensures r[i].privacy.Rank() <= r[j].privacy.Rank()
    {
      assert r[i] == s[start + i] && r[j] == s[start + j];
    }
  }

  /** A search term with an upper-case letter finds no group at all. */
  lemma UpperCaseSearchFindsNothing(users: seq<User>, members: seq<GroupMember>, groups: seq<Group>,
                                    keyword: Option<string>, username: Option<string>, page: int, limit: Option<nat>)
    requires || (SearchTerm(keyword).Some? && !NoUpper(SearchTerm(keyword).value))
             || (SearchTerm(username).Some? && !NoUpper(SearchTerm(username).value))
    ensures GetGroupsAsync(users, members, groups, keyword, username, page, limit).total == 0
    ensures GetGroupsAsync(users, members, groups, keyword, username, page, limit).groups == []
  {
    var term := if SearchTerm(keyword).Some? && !NoUpper(SearchTerm(keyword).value)
      then SearchTerm(keyword).value else SearchTerm(username).value;
    forall i | 0 <= i < |groups| ensures !GroupMatches(users, members, keyword, username, groups[i])
    {
      UpperCaseTermNeverHits(users, members, groups[i], term);
    }
  }

  /** Without search terms every group is counted. */
  lemma NoSearchCountsAll(users: seq<User>, members: seq<GroupMember>, groups: seq<Group>, page: int, limit: Option<nat>)
    ensures GetGroupsAsync(users, members, groups, None, None, page, limit).total == |groups|
  {
  }

  // --------------------------------------------------------- slug lookups

  /** `Members.Any(u => u.Member.Username == username) || Creator.Username == username`. */
  predicate IsMemberOrCreator(users: seq<User>, members: seq<GroupMember>, g: Group, username: string)
  {
    || (exists k | 0 <= k < |members| ::
          members[k].groupId == g.id && UserOf(users, members[k].memberId).Some?
          && UserOf(users, members[k].memberId).value.username == username)
    || (UserOf(users, g.creatorId).Some? && UserOf(users, g.creatorId).value.username == username)
  }

  /** The first group that passes `keep`. */
  function FirstGroup(groups: seq<Group>, keep: Group -> bool): (r: Option<Group>)
    ensures r.Some? ==> r.value in groups && keep(r.value)
    ensures r.None? <==> forall i | 0 <= i < |groups| :: !keep(groups[i])
  {
    match FirstWhere(groups, keep)
    case None => None
    case Some(i) => Some(groups[i])
  }

  /** `GetGroupBySlugUnsafeAsync`: the group with the slug, whatever its privacy. */
  function GetGroupBySlugUnsafeAsync(groups: seq<Group>, slug: string): (r: Option<Group>)
    ensures r.Some? ==> r.value in groups && r.value.slug == slug
    ensures r.None? <==> KeyAbsent(groups, GroupSlug, slug)
  {
    FirstGroup(groups, (g: Group) => g.slug == slug)
  }

  /** `GetGroupBySlugWithAllPrivacyAsync`: the group with the slug, when the user is one of its members or its creator. */
  function GetGroupBySlugWithAllPrivacyAsync(users: seq<User>, members: seq<GroupMember>, groups: seq<Group>,
                                             slug: string, username: string): (r: Option<Group>)
    ensures r.Some? ==> r.value in groups && r.value.slug == slug && IsMemberOrCreator(users, members, r.value, username)
    ensures r.None? <==>
      forall i | 0 <= i < |groups| :: groups[i].slug == slug ==> !IsMemberOrCreator(users, members, groups[i], username)
  {
    FirstGroup(groups, (g: Group) => g.slug == slug && IsMemberOrCreator(users, members, g, username))
  }

  /** `GetGroupBySlugWithNonPrivateAsync`: the group with the slug, unless it is Private. */
  function GetGroupBySlugWithNonPrivateAsync(groups: seq<Group>, slug: string): (r: Option<Group>)
    ensures r.Some? ==> r.value in groups && r.value.slug == slug && r.value.privacy != Private
    ensures r.None? <==> forall i | 0 <= i < |groups| :: groups[i].slug == slug ==> groups[i].privacy == Private
  {
    FirstGroup(groups, (g: Group) => g.slug == slug && g.privacy != Private)
  }

  /** `GetGroupBySlugWithPublicOnlyAsync`: the group with the slug, when it is Public. */
  function GetGroupBySlugWithPublicOnlyAsync(groups: seq<Group>, slug: string): (r: Option<Group>)
    ensures r.Some? ==> r.value in groups && r.value.slug == slug && r.value.privacy == Public
    ensures r.None? <==> forall i | 0 <= i < |groups| :: groups[i].slug == slug ==> groups[i].privacy != Public
  {
    FirstGroup(groups, (g: Group) => g.slug == slug && g.privacy == Public)
  }

  /** With unique slugs, a lookup that tests the slug and more finds the slug's group exactly when it passes. */
  lemma FirstWithSlug(groups: seq<Group>, slug: string, keep: Group -> bool)
    requires UniqueBy(groups, GroupSlug)
    requires forall g :: keep(g) ==> g.slug == slug
    ensures var u := GetGroupBySlugUnsafeAsync(groups, slug);
      FirstGroup(groups, keep) == if u.Some? && keep(u.value) then u else None
  {
    var u := GetGroupBySlugUnsafeAsync(groups, slug);
    var r := FirstGroup(groups, keep);
    if u.Some? {
      var i := FindIndex(groups, GroupSlug, slug).value;
      assert groups[i] == u.value;
      assert forall j | 0 <= j < |groups| && j != i :: groups[j].slug != slug;
      if r.Some? {
        var j :| 0 <= j < |groups| && groups[j] == r.value;
        assert j == i;
      }
    }
  }

  /**
   * With unique slugs the three visibility lookups are the unguarded lookup
   * narrowed by their test: every viewer check is a test of the one group
   * that has the slug.
   */
  lemma VisibilityOfSlugGroup(users: seq<User>, members: seq<GroupMember>, groups: seq<Group>, slug: string, username: string)
    requires UniqueBy(groups, GroupSlug)
    ensures var u := GetGroupBySlugUnsafeAsync(groups, slug);
      && GetGroupBySlugWithPublicOnlyAsync(groups, slug) == (if u.Some? && u.value.privacy == Public then u else None)
      && GetGroupBySlugWithNonPrivateAsync(groups, slug) == (if u.Some? && u.value.privacy != Private then u else None)
      && GetGroupBySlugWithAllPrivacyAsync(users, members, groups, slug, username)
         == (if u.Some? && IsMemberOrCreator(users, members, u.value, username) then u else None)
  {
    FirstWithSlug(groups, slug, (g: Group) => g.slug == slug && g.privacy == Public);
    FirstWithSlug(groups, slug, (g: Group) => g.slug == slug && g.privacy != Private);
    FirstWithSlug(groups, slug, (g: Group) => g.slug == slug && IsMemberOrCreator(users, members, g, username));
  }

  /** A stored creator always finds their own group, whatever its privacy. */
  lemma CreatorSeesOwnGroup(users: seq<User>, members: seq<GroupMember>, groups: seq<Group>, i: nat)
    requires UniqueBy(groups, GroupSlug) && i < |groups| && UserOf(users, groups[i].creatorId).Some?
    ensures GetGroupBySlugWithAllPrivacyAsync(users, members, groups, groups[i].slug,
                                              UserOf(users, groups[i].creatorId).value.username) == Some(groups[i])
  {
    var slug := groups[i].slug;
    VisibilityOfSlugGroup(users, members, groups, slug, UserOf(users, groups[i].creatorId).value.username);
    var k := FindIndex(groups, GroupSlug, slug).value;
    assert k == i;
  }

  // -------------------------------------------------------------- create

  /**
   * `CreateGroupAsync`: the group is saved together with its creator's
   * membership, Approved and joined now, under a slug drawn from the
   * group's name.
   */
  method CreateGroupAsync(db: Database, g: Group, rolls: seq<nat>, ticks: nat, now: Time) returns (err: Option<Error>)
    requires db.Valid() && |rolls| >= SlugHelper.BodyLength - 1 && SlugHelper.ValidRolls(rolls)
    modifies db`groups, db`groupSeq, db`members, db`memberSeq
    ensures db.Valid()
    ensures var memberSlug := SlugHelper.Slug(g.name, rolls, ticks);
      && (err.Some? <==> !old(db.GroupInsertable(g, memberSlug)))
      && (err.Some? ==> err == Some(SaveFailed) && db.groups == old(db.groups) && db.members == old(db.members))
      && (err.None? ==>
            && db.groups == old(db.groups) + [g.(id := old(db.groupSeq))]
            && db.members == old(db.members)
               + [GroupMember(old(db.memberSeq), memberSlug, Approved, old(db.groupSeq), g.creatorId, Some(now), now, now)])
  {
    var memberSlug := SlugHelper.Create(g.name, rolls, ticks);
    var id;
    err, id := db.AddGroup(g, memberSlug, now);
  }

  // ---------------------------------------------------------------- join

  /** The refusals of `JoinGroupAsync`, before anything is saved. */
  function JoinCheck(groups: seq<Group>, members: seq<GroupMember>, slug: string, userId: nat): (r: Option<Error>)
    ensures r == Some(CannotJoinGroup) <==> GetGroupBySlugWithNonPrivateAsync(groups, slug).None?
    ensures r == Some(AlreadyRequested) <==>
      && GetGroupBySlugWithNonPrivateAsync(groups, slug).Some?
      && !KeyAbsent(members, Membership, (GetGroupBySlugWithNonPrivateAsync(groups, slug).value.id, userId))
    ensures r.Some? ==> r == Some(CannotJoinGroup) || r == Some(AlreadyRequested)
  {
    match GetGroupBySlugWithNonPrivateAsync(groups, slug)
    case None => Some(CannotJoinGroup)
    case Some(g) => if !KeyAbsent(members, Membership, (g.id, userId)) then Some(AlreadyRequested) else None
  }

  /** The request row `JoinGroupAsync` adds: status Request, slug drawn from "<group name>-<username>". */
  function JoinRow(g: Group, user: User, rolls: seq<nat>, ticks: nat, id: nat, now: Time): GroupMember
    requires |rolls| >= SlugHelper.BodyLength - 1 && SlugHelper.ValidRolls(rolls)
  {
    GroupMember(id, SlugHelper.Slug(g.name + "-" + user.username, rolls, ticks), Request, g.id, user.id, Some(now), now, now)
  }

  /**
   * The decision of `JoinGroupAsync` over the table values: a Private or
   * missing group cannot be joined; a user who already has a membership row
   * cannot ask again; otherwise the save adds one Request row, unless its
   * slug is taken or longer than its column, or the user is not stored.
   */
  function JoinOutcome(users: seq<User>, groups: seq<Group>, members: seq<GroupMember>, memberSeq: nat, slug: string,
                       user: User, rolls: seq<nat>, ticks: nat, now: Time): (r: (Option<Error>, seq<GroupMember>))
    requires |rolls| >= SlugHelper.BodyLength - 1 && SlugHelper.ValidRolls(rolls)
    ensures var check := JoinCheck(groups, members, slug, user.id);
      && (check.Some? ==> r == (check, members))
      && (check.None? ==>
            var m := JoinRow(GetGroupBySlugWithNonPrivateAsync(groups, slug).value, user, rolls, ticks, memberSeq, now);
            && (r.0.Some? <==> !KeyAbsent(members, MemberSlug, m.slug) || |m.slug| > SlugMaxLength || KeyAbsent(users, UserId, user.id))
            && (r.0.Some? ==> r == (Some(SaveFailed), members))
            && (r.0.None? ==> r.1 == members + [m]))
  {
    var check := JoinCheck(groups, members, slug, user.id);
    if check.Some? then (check, members)
    else
      var m := JoinRow(GetGroupBySlugWithNonPrivateAsync(groups, slug).value, user, rolls, ticks, memberSeq, now);
      if !KeyAbsent(members, MemberSlug, m.slug) || |m.slug| > SlugMaxLength || KeyAbsent(users, UserId, user.id) then (Some(SaveFailed), members)
      else (None, members + [m])
  }

  /** `JoinGroupAsync`: the checks, then the slug drawn and the request row saved. */
  method JoinGroupAsync(db: Database, slug: string, user: User, rolls: seq<nat>, ticks: nat, now: Time)
    returns (err: Option<Error>)
    requires db.Valid() && |rolls| >= SlugHelper.BodyLength - 1 && SlugHelper.ValidRolls(rolls)
    modifies db`members, db`memberSeq
    ensures db.Valid()
    ensures (err, db.members) == JoinOutcome(old(db.users), old(db.groups), old(db.members), old(db.memberSeq), slug, user, rolls, ticks, now)
  {
    ghost var out := JoinOutcome(db.users, db.groups, db.members, db.memberSeq, slug, user, rolls, ticks, now);
    var found := GetGroupBySlugWithNonPrivateAsync(db.groups, slug);
    if found.None? {
      assert out == (Some(CannotJoinGroup), db.members);
      return Some(CannotJoinGroup);
    }
    var g := found.value;
    if !KeyAbsent(db.members, Membership, (g.id, user.id)) {
      assert out == (Some(AlreadyRequested), db.members);
      return Some(AlreadyRequested);
    }
    var memberSlug := SlugHelper.Create(g.name + "-" + user.username, rolls, ticks);
    var i :| 0 <= i < |db.groups| && db.groups[i] == g;
    assert GroupId(db.groups[i]) == g.id;
    var m := GroupMember(0, memberSlug, Request, g.id, user.id, Some(now), now, now);
    ghost var row := JoinRow(g, user, rolls, ticks, db.memberSeq, now);
    assert m.(id := db.memberSeq) == row && m.slug == row.slug;
    assert out == if !KeyAbsent(db.members, MemberSlug, row.slug) || |row.slug| > SlugMaxLength || !db.HasUser(user.id) then (Some(SaveFailed), db.members)
                  else (None, db.members + [row]);
    err := db.AddMember(m);
    assert (err, db.members) == out;
  }

  /** Once a join is saved, asking again is refused: at most one membership row per user and group. */
  lemma JoinTwiceRefused(groups: seq<Group>, members: seq<GroupMember>, slug: string, user: User,
                         rolls: seq<nat>, ticks: nat, id: nat, now: Time)
    requires |rolls| >= SlugHelper.BodyLength - 1 && SlugHelper.ValidRolls(rolls)
    requires JoinCheck(groups, members, slug, user.id).None?
    ensures var m := JoinRow(GetGroupBySlugWithNonPrivateAsync(groups, slug).value, user, rolls, ticks, id, now);
      JoinCheck(groups, members + [m], slug, user.id) == Some(AlreadyRequested)
  {
    var m := JoinRow(GetGroupBySlugWithNonPrivateAsync(groups, slug).value, user, rolls, ticks, id, now);
    assert Membership((members + [m])[|members|]) == Membership(m);
  }

  // ------------------------------------------------------ member status

  /** Where `UpdateMemberStatusAsync` stops, or the row it answers. */
  datatype Answer = Refused(error: Error) | Answerable(index: nat)

  /** A pending request of the user, in any group. */
  predicate PendingOf(m: GroupMember, memberId: nat)
  {
    m.memberId == memberId && m.status == Request
  }

  /**
   * The checks of `UpdateMemberStatusAsync`: the group must exist; only its
   * creator may set a status other than Left or Request; the answered row
   * is the user's first pending request, whichever group it belongs to.
   */
  function AnswerTarget(groups: seq<Group>, members: seq<GroupMember>, slug: string, creatorId: nat, memberId: nat,
                        status: MemberStatus): (r: Answer)
    ensures var g := GetGroupBySlugUnsafeAsync(groups, slug);
      && (r == Refused(GroupNotFound) <==> g.None?)
      && (r == Refused(NotAnAdmin) <==> g.Some? && g.value.creatorId != creatorId && status != Left && status != Request)
      && (r == Refused(MemberRequestNotAvailable) <==>
            && g.Some? && (g.value.creatorId == creatorId || status == Left || status == Request)
            && forall k | 0 <= k < |members| :: !PendingOf(members[k], memberId))
    ensures r.Answerable? ==>
      && r.index < |members| && PendingOf(members[r.index], memberId)
      && forall k | 0 <= k < r.index :: !PendingOf(members[k], memberId)
  {
    match GetGroupBySlugUnsafeAsync(groups, slug)
    case None => Refused(GroupNotFound)
    case Some(g) =>
      if g.creatorId != creatorId && status != Left && status != Request then Refused(NotAnAdmin)
      else match FirstWhere(members, m => PendingOf(m, memberId))
        case None => Refused(MemberRequestNotAvailable)
        case Some(k) => Answerable(k)
  }

  /** The answered row: the new status, updated now, and joined now when approved. */
  function Answered(m: GroupMember, status: MemberStatus, now: Time): (r: GroupMember)
    ensures r.id == m.id && r.slug == m.slug && Membership(r) == Membership(m)
  {
    m.(status := status, updatedAt := now, joinedAt := if status == Approved then Some(now) else m.joinedAt)
  }

  /** `UpdateMemberStatusAsync`. */
  method UpdateMemberStatusAsync(db: Database, slug: string, creatorId: nat, memberId: nat, status: MemberStatus, now: Time)
    returns (err: Option<Error>)
    requires db.Valid()
    modifies db`members
    ensures db.Valid()
    ensures match AnswerTarget(db.groups, old(db.members), slug, creatorId, memberId, status)
      case Refused(e) => err == Some(e) && db.members == old(db.members)
      case Answerable(k) => err.None? && db.members == old(db.members)[k := Answered(old(db.members)[k], status, now)]
  {
    match AnswerTarget(db.groups, db.members, slug, creatorId, memberId, status)
    case Refused(e) =>
      err := Some(e);
    case Answerable(k) =>
      db.SetMember(k, Answered(db.members[k], status, now));
      err := None;
  }

  /** Only the creator can approve, reject or remove: anyone else may only leave or re-request. */
  lemma OnlyCreatorDecides(groups: seq<Group>, members: seq<GroupMember>, slug: string, creatorId: nat, memberId: nat,
                           status: MemberStatus)
    requires AnswerTarget(groups, members, slug, creatorId, memberId, status).Answerable?
    requires status == Approved || status == Rejected || status == Removed
    ensures GetGroupBySlugUnsafeAsync(groups, slug).value.creatorId == creatorId
  {
  }

  /** The request that is answered need not belong to the group named by the slug. */
  lemma AnswerIgnoresGroup()
    ensures var a := Group(1, "A", "a", Public, None, 7, None, 0, 0);
      var b := Group(2, "B", "b", Public, None, 8, None, 0, 0);
      var request := GroupMember(3, "b-m", Request, 2, 5, None, 0, 0);
      AnswerTarget([a, b], [request], "a", 7, 5, Approved) == Answerable(0)
  {
    var a := Group(1, "A", "a", Public, None, 7, None, 0, 0);
    var b := Group(2, "B", "b", Public, None, 8, None, 0, 0);
    assert GetGroupBySlugUnsafeAsync([a, b], "a") == Some(a) by {
      assert FirstWhere([a, b], (g: Group) => g.slug == "a") == Some(0);
    }
  }

  /** Approval stamps the join time; any other answer keeps it. */
  lemma AnsweredJoinTime(m: GroupMember, status: MemberStatus, now: Time)
    ensures status == Approved ==> Answered(m, status, now).joinedAt == Some(now)
    ensures status != Approved ==> Answered(m, status, now).joinedAt == m.joinedAt
    ensures Answered(m, status, now).status == status && Answered(m, status, now).updatedAt == now
  {
  }

  // -------------------------------------------------------------- delete

  /** The group `DeleteGroupAsync` deletes: the first with the slug that the user created. */
  function DeleteTarget(groups: seq<Group>, slug: string, creatorId: nat): (r: Option<nat>)
    ensures r.Some? ==> r.value < |groups| && groups[r.value].slug == slug && groups[r.value].creatorId == creatorId
    ensures r.None? <==> forall i | 0 <= i < |groups| :: groups[i].slug == slug ==> groups[i].creatorId != creatorId
  {
    FirstWhere(groups, (g: Group) => g.slug == slug && g.creatorId == creatorId)
  }

  /** The posts after the cascade: those of the group carry `DeletedAt`. */
  function CascadeDeleted(posts: seq<Post>, groupId: nat, t: Time): (r: seq<Post>)
    ensures |r| == |posts|
  {
    seq(|posts|, i requires 0 <= i < |posts| =>
      if posts[i].groupId == Some(groupId) then posts[i].(deletedAt := Some(t)) else posts[i])
  }

  /**
   * The cascade marks exactly the group's posts, changes nothing else about
   * them, and leaves every other post as it was; marking twice is marking once.
   */
  lemma CascadeMeaning(posts: seq<Post>, groupId: nat, t: Time)
    ensures var r := CascadeDeleted(posts, groupId, t);
      && (forall i | 0 <= i < |r| ::
            && r[i].(deletedAt := posts[i].deletedAt) == posts[i]
            && (posts[i].groupId == Some(groupId) ==> r[i].deletedAt == Some(t))
            && (posts[i].groupId != Some(groupId) ==> r[i] == posts[i]))
      && CascadeDeleted(r, groupId, t) == r
  {
  }

  /**
   * `DeleteGroupAsync`: only the creator may delete; the group and each of
   * its posts get `DeletedAt`, and nothing else changes.
   */
  method DeleteGroupAsync(db: Database, slug: string, creator: User, deletedAt: Time) returns (err: Option<Error>)
    requires db.Valid()
    modifies db`groups, db`posts
    ensures db.Valid()
    ensures var k := DeleteTarget(old(db.groups), slug, creator.id);
      && (k.None? ==> err == Some(NoPermissionToDeleteGroup) && db.groups == old(db.groups) && db.posts == old(db.posts))
      && (k.Some? ==>
            && err.None?
            && db.groups == old(db.groups)[k.value := old(db.groups)[k.value].(deletedAt := Some(deletedAt))]
            && db.posts == CascadeDeleted(old(db.posts), old(db.groups)[k.value].id, deletedAt))
  {
    var k := DeleteTarget(db.groups, slug, creator.id);
    if k.None? {
      return Some(NoPermissionToDeleteGroup);
    }
    var gid := db.groups[k.value].id;
    db.SetGroupDeletedAt(k.value, deletedAt);
    CascadePosts(db, gid, deletedAt);
    err := None;
  }

  /** The loop over the group's posts, setting `DeletedAt` on each. */
  method CascadePosts(db: Database, groupId: nat, t: Time)
    requires db.Valid()
    modifies db`posts
    ensures db.Valid()
    ensures db.posts == CascadeDeleted(old(db.posts), groupId, t)
  {
    ghost var start := db.posts;
    ghost var target := CascadeDeleted(start, groupId, t);
    var i := 0;
    while i < |db.posts|
      invariant db.Valid()
      invariant |db.posts| == |start| && 0 <= i <= |start|
      invariant forall j | 0 <= j < i :: db.posts[j] == target[j]
      invariant forall j | i <= j < |start| :: db.posts[j] == start[j]
      decreases |db.posts| - i
    {
      if db.posts[i].groupId == Some(groupId) {
        var _ := db.SetPostDeletedAt(i, t);
      }
      i := i + 1;
    }
    assert db.posts == target;
  }
}
