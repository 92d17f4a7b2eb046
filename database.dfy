/**
 * `SocialMediaDatabaseContext`: one sequence of rows per table, an identity
 * counter per table that has an identity column, and the unique indexes
 * the context declares, kept as the class invariant `Valid`.
 */
module Data {
  import opened Wrappers
  import opened Entities

  /** No two rows share a key. */
  ghost predicate UniqueBy<T, K>(s: seq<T>, key: T -> K)
  {
    forall i, j | 0 <= i < j < |s| :: key(s[i]) != key(s[j])
  }

  /** Every id is below the identity counter, so the counter is a fresh id. */
  ghost predicate Below<T>(s: seq<T>, id: T -> nat, bound: nat)
  {
    forall i | 0 <= i < |s| :: id(s[i]) < bound
  }

  predicate KeyAbsent<T, K(==)>(s: seq<T>, key: T -> K, k: K)
  {
    forall i | 0 <= i < |s| :: key(s[i]) != k
  }

  lemma UniqueAppend<T, K>(s: seq<T>, x: T, key: T -> K)
    requires UniqueBy(s, key) && KeyAbsent(s, key, key(x))
    ensures UniqueBy(s + [x], key)
  {
  }

  lemma UniqueUpdate<T, K>(s: seq<T>, i: nat, x: T, key: T -> K)
    requires i < |s| && UniqueBy(s, key) && key(x) == key(s[i])
    ensures UniqueBy(s[i := x], key)
  {
  }

  lemma BelowAppend<T>(s: seq<T>, x: T, id: T -> nat, bound: nat, bound': nat)
    requires Below(s, id, bound) && bound <= bound' && id(x) < bound'
    ensures Below(s + [x], id, bound')
  {
  }

  /** The first row whose key is `k`. */
  function FindIndex<T, K(==)>(s: seq<T>, key: T -> K, k: K): (r: Option<nat>)
    ensures r.Some? ==> r.value < |s| && key(s[r.value]) == k && KeyAbsent(s[..r.value], key, k)
    ensures r.None? <==> KeyAbsent(s, key, k)
  {
    if s == [] then None
    else if key(s[0]) == k then Some(0)
    else match FindIndex(s[1..], key, k)
      case None => None
      case Some(i) => assert s[..i + 1] == [s[0]] + s[1..][..i]; Some(i + 1)
  }

  lemma UniqueTail<T, K>(s: seq<T>, key: T -> K)
    requires s != [] && UniqueBy(s, key)
    ensures UniqueBy(s[1..], key)
  {
    forall i, j | 0 <= i < j < |s[1..]| ensures key(s[1..][i]) != key(s[1..][j])
    {
      assert s[1..][i] == s[i + 1] && s[1..][j] == s[j + 1];
    }
  }

  /** With unique keys, the row found is the only one with that key. */
  lemma {:induction false} FindIndexUnique<T, K>(s: seq<T>, key: T -> K, k: K, j: nat)
    requires UniqueBy(s, key) && j < |s| && key(s[j]) == k
    ensures FindIndex(s, key, k) == Some(j)
  {
    if j > 0 {
      assert key(s[0]) != key(s[j]);
      UniqueTail(s, key);
      FindIndexUnique(s[1..], key, k, j - 1);
    }
  }

  /** Appending a row with another key does not move what `FindIndex` finds. */
  lemma {:induction false} FindIndexAppendOther<T, K>(s: seq<T>, x: T, key: T -> K, k: K)
    requires key(x) != k
    ensures FindIndex(s + [x], key, k) == FindIndex(s, key, k)
  {
    if s != [] {
      assert (s + [x])[1..] == s[1..] + [x];
      FindIndexAppendOther(s[1..], x, key, k);
    }
  }

  /** A key first appended is found at the appended row. */
  lemma {:induction false} FindIndexAppendNew<T, K>(s: seq<T>, x: T, key: T -> K)
    requires KeyAbsent(s, key, key(x))
    ensures FindIndex(s + [x], key, key(x)) == Some(|s|)
  {
    if s != [] {
      assert (s + [x])[1..] == s[1..] + [x];
      FindIndexAppendNew(s[1..], x, key);
    }
  }

  /** A row found stays the one found when rows are appended. */
  lemma {:induction false} FindIndexPrefix<T, K>(s: seq<T>, u: seq<T>, key: T -> K, k: K)
    requires FindIndex(s, key, k).Some?
    ensures FindIndex(s + u, key, k) == FindIndex(s, key, k)
  {
    if key(s[0]) != k {
      assert (s + u)[1..] == s[1..] + u;
      FindIndexPrefix(s[1..], u, key, k);
    }
  }

  /** `Where(keep)` over a table, in table order. */
  function Filter<T>(s: seq<T>, keep: T -> bool): (r: seq<T>)
    ensures |r| <= |s|
    ensures forall i | 0 <= i < |r| :: r[i] in s && keep(r[i])
    ensures forall i | 0 <= i < |s| :: keep(s[i]) ==> s[i] in r
  {
    if s == [] then [] else (if keep(s[0]) then [s[0]] else []) + Filter(s[1..], keep)
  }

  /** A filter keeps each kept value as often as the table holds it, and no other value. */
  lemma {:induction false} FilterCount<T>(s: seq<T>, keep: T -> bool)
    ensures forall x :: multiset(Filter(s, keep))[x] == if keep(x) then multiset(s)[x] else 0
  {
    if s != [] {
      FilterCount(s[1..], keep);
      assert s == [s[0]] + s[1..];
      assert Filter(s, keep) == (if keep(s[0]) then [s[0]] else []) + Filter(s[1..], keep);
    }
  }

  /**
   * A filter keeps every kept row as often as the table holds it, keeps the
   * whole table when every row passes and nothing when none does.
   */
  lemma {:induction false} FilterMeaning<T>(s: seq<T>, keep: T -> bool)
    ensures var r := Filter(s, keep);
      && (forall x | x in r :: multiset(r)[x] == multiset(s)[x])
      && ((forall i | 0 <= i < |s| :: keep(s[i])) ==> r == s)
      && ((forall i | 0 <= i < |s| :: !keep(s[i])) ==> r == [])
  {
    FilterCount(s, keep);
    if s != [] {
      FilterMeaning(s[1..], keep);
      assert s == [s[0]] + s[1..];
    }
  }

  lemma {:induction false} FilterUnique<T, K>(s: seq<T>, keep: T -> bool, key: T -> K)
    requires UniqueBy(s, key)
    ensures UniqueBy(Filter(s, keep), key)
  {
    if s != [] {
      UniqueTail(s, key);
      FilterUnique(s[1..], keep, key);
      var rest := Filter(s[1..], keep);
      if keep(s[0]) {
        forall i | 0 <= i < |rest| ensures key(rest[i]) != key(s[0])
        {
          assert rest[i] in s[1..];
          var j :| 0 <= j < |s[1..]| && s[1..][j] == rest[i];
          assert s[j + 1] == rest[i];
        }
        UniquePrepend(s[0], rest, key);
      } else {
        assert Filter(s, keep) == rest;
      }
    }
  }

  lemma UniquePrepend<T, K>(x: T, s: seq<T>, key: T -> K)
    requires UniqueBy(s, key)
    requires forall i | 0 <= i < |s| :: key(s[i]) != key(x)
    ensures UniqueBy([x] + s, key)
  {
    var t := [x] + s;
    forall i, j | 0 <= i < j < |t| ensures key(t[i]) != key(t[j])
    {
      assert t[j] == s[j - 1];
      if i > 0 {
        assert t[i] == s[i - 1];
      }
    }
  }

  lemma FilterBelow<T>(s: seq<T>, keep: T -> bool, id: T -> nat, bound: nat)
    requires Below(s, id, bound)
    ensures Below(Filter(s, keep), id, bound)
  {
    var r := Filter(s, keep);
    forall i | 0 <= i < |r| ensures id(r[i]) < bound
    {
      assert r[i] in s;
    }
  }

  /** `Where(key != k)`: what is left after `ExecuteDelete` of the rows with key `k`. */
  function Without<T, K(==)>(s: seq<T>, key: T -> K, k: K): (r: seq<T>)
    ensures |r| <= |s| && KeyAbsent(r, key, k)
    ensures forall i | 0 <= i < |r| :: r[i] in s
    ensures forall i | 0 <= i < |s| :: key(s[i]) != k ==> s[i] in r
    ensures |r| == |s| <==> KeyAbsent(s, key, k)
    ensures KeyAbsent(s, key, k) ==> r == s
  {
    if s == [] then [] else (if key(s[0]) == k then [] else [s[0]]) + Without(s[1..], key, k)
  }

  lemma {:induction false} WithoutUnique<T, K, K2>(s: seq<T>, key: T -> K, k: K, key2: T -> K2)
    requires UniqueBy(s, key2)
    ensures UniqueBy(Without(s, key, k), key2)
  {
    if s != [] {
      UniqueTail(s, key2);
      WithoutUnique(s[1..], key, k, key2);
      var rest := Without(s[1..], key, k);
      if key(s[0]) != k {
        forall i | 0 <= i < |rest| ensures key2(rest[i]) != key2(s[0])
        {
          var j :| 0 <= j < |s[1..]| && s[1..][j] == rest[i];
          assert s[j + 1] == rest[i];
        }
        UniquePrepend(s[0], rest, key2);
      } else {
        assert Without(s, key, k) == rest;
      }
    }
  }

  /** After deleting the rows with key `k`, a key is present iff it was present and is not `k`. */
  lemma WithoutKeys<T, K>(s: seq<T>, key: T -> K, k: K, k2: K)
    ensures !KeyAbsent(Without(s, key, k), key, k2) <==> !KeyAbsent(s, key, k2) && k2 != k
  {
    var r := Without(s, key, k);
    if !KeyAbsent(r, key, k2) {
      var i :| 0 <= i < |r| && key(r[i]) == k2;
      assert r[i] in s;
    }
    if !KeyAbsent(s, key, k2) && k2 != k {
      var i :| 0 <= i < |s| && key(s[i]) == k2;
      assert s[i] in r;
    }
  }

  lemma WithoutBelow<T, K>(s: seq<T>, key: T -> K, k: K, id: T -> nat, bound: nat)
    requires Below(s, id, bound)
    ensures Below(Without(s, key, k), id, bound)
  {
    var r := Without(s, key, k);
    forall i | 0 <= i < |r| ensures id(r[i]) < bound
    {
      assert r[i] in s;
    }
  }

  /** `FirstOrDefault(keep)`: the position of the first row that satisfies `keep`. */
  function FirstWhere<T>(s: seq<T>, keep: T -> bool): (r: Option<nat>)
    ensures r.Some? ==> r.value < |s| && keep(s[r.value]) && forall i | 0 <= i < r.value :: !keep(s[i])
    ensures r.None? <==> forall i | 0 <= i < |s| :: !keep(s[i])
  {
    if s == [] then None
    else if keep(s[0]) then Some(0)
    else match FirstWhere(s[1..], keep)
      case None => None
      case Some(i) => Some(i + 1)
  }

  /**
   * `Where(keep).OrderByDescending(created).FirstOrDefault()`: a row that
   * satisfies `keep` and is at least as new as every other such row.
   */
  function LatestWhere<T>(s: seq<T>, keep: T -> bool, created: T -> int): (r: Option<T>)
    ensures r.Some? ==> r.value in s && keep(r.value)
    ensures r.Some? ==> forall i | 0 <= i < |s| && keep(s[i]) :: created(s[i]) <= created(r.value)
    ensures r.None? <==> forall i | 0 <= i < |s| :: !keep(s[i])
  {
    if s == [] then None
    else
      var rest := LatestWhere(s[1..], keep, created);
      assert forall i | 1 <= i < |s| :: s[i] == s[1..][i - 1];
      if !keep(s[0]) then rest
      else if rest.Some? && created(rest.value) > created(s[0]) then rest
      else Some(s[0])
  }

  // Key and id accessors, one per unique index and identity column.
  function UserId(u: User): nat { u.id }
  function Email(u: User): string { u.email }
  function Username(u: User): string { u.username }
  function StatusId(s: UserStatus): nat { s.id }
  function StatusOwner(s: UserStatus): nat { s.userId }
  function ProfileOwner(p: Profile): nat { p.userId }
  function TokenId(t: UserToken): nat { t.id }
  function TokenText(t: UserToken): string { t.token }
  function TokenOwner(t: UserToken): nat { t.userId }
  function LinkId(v: VerificationToken): nat { v.id }
  function LinkOwner(v: VerificationToken): nat { v.userId }
  function CodeOwner(v: Verification): nat { v.userId }
  function GroupId(g: Group): nat { g.id }
  function GroupSlug(g: Group): string { g.slug }
  function MemberRowId(m: GroupMember): nat { m.id }
  function MemberSlug(m: GroupMember): string { m.slug }
  function MemberGroup(m: GroupMember): nat { m.groupId }
  function Membership(m: GroupMember): (nat, nat) { (m.groupId, m.memberId) }
  function PostId(p: Post): nat { p.id }
  function PostSlug(p: Post): string { p.slug }
  function HashtagId(h: Hashtag): nat { h.id }
  function HashtagTag(h: Hashtag): string { h.tag }
  function LinkKey(l: PostHashtag): (nat, nat) { (l.postId, l.hashtagId) }
  function LinkPost(l: PostHashtag): nat { l.postId }
  function LinkHashtag(l: PostHashtag): nat { l.hashtagId }
  function MediaId(m: PostMedia): nat { m.id }
  function CommentId(c: Comment): nat { c.id }
  function PostReactionId(r: PostReaction): nat { r.id }
  function CommentReactionId(r: CommentReaction): nat { r.id }
  function TokenCreatedAt(t: UserToken): int { t.createdAt }
  function CodeCreatedAt(v: Verification): int { v.createdAt }
  function LinkCreatedAt(v: VerificationToken): int { v.createdAt }

  // The `MaxLength` of the string columns the core fills from its input; a longer value makes the insert fail.
  const FullnameMaxLength := 255
  const UsernameMaxLength := 64
  const EmailMaxLength := 128
  const PasswordHashMaxLength := 255
  const TagMaxLength := 64
  const GroupNameMaxLength := 255
  // `UserPosts.Slug`, `Groups.Slug` and `GroupMembers.Slug` are all `nvarchar(255)`.
  const SlugMaxLength := 255

  /** Every string of the user row fits its column. */
  predicate UserFits(u: User)
  {
    && |u.fullname| <= FullnameMaxLength
    && |u.username| <= UsernameMaxLength
    && |u.email| <= EmailMaxLength
    && |u.passwordHash| <= PasswordHashMaxLength
  }

  /** The post `postId` is one of `userId`'s. */
  predicate AuthoredBy(posts: seq<Post>, postId: nat, userId: nat)
  {
    exists j | 0 <= j < |posts| :: posts[j].id == postId && posts[j].authorId == userId
  }

  /**
   * Rows that keep user `userId` from being deleted: their foreign key does
   * not cascade. They are a group the user created, a comment, post
   * reaction or comment reaction the user wrote, and a comment or post
   * reaction on one of the user's posts (the posts cascade from the user,
   * their comments and reactions do not cascade from the post).
   */
  predicate BlocksUserDelete(groups: seq<Group>, posts: seq<Post>, comments: seq<Comment>,
                             postReactions: seq<PostReaction>, commentReactions: seq<CommentReaction>, userId: nat)
  {
    || (exists i | 0 <= i < |groups| :: groups[i].creatorId == userId)
    || (exists i | 0 <= i < |comments| :: comments[i].userId == userId || AuthoredBy(posts, comments[i].postId, userId))
    || (exists i | 0 <= i < |postReactions| ::
          postReactions[i].userId == userId || AuthoredBy(posts, postReactions[i].postId, userId))
    || (exists i | 0 <= i < |commentReactions| :: commentReactions[i].userId == userId)
  }

  // The unique indexes and identity columns of each table, on table values.
  ghost predicate ValidUsers(users: seq<User>, userSeq: nat)
  {
    UniqueBy(users, Email) && UniqueBy(users, Username) && UniqueBy(users, UserId) && Below(users, UserId, userSeq)
  }

  /** `UserStatus` is one-to-one with `User`: at most one status row per user. */
  ghost predicate ValidStatuses(statuses: seq<UserStatus>, statusSeq: nat, userSeq: nat)
  {
    UniqueBy(statuses, StatusOwner) && Below(statuses, StatusId, statusSeq) && Below(statuses, StatusOwner, userSeq)
  }

  ghost predicate ValidTokens(tokens: seq<UserToken>, tokenSeq: nat, userSeq: nat)
  {
    UniqueBy(tokens, TokenText) && Below(tokens, TokenId, tokenSeq) && Below(tokens, TokenOwner, userSeq)
  }

  ghost predicate ValidLinks(links: seq<VerificationToken>, linkSeq: nat, userSeq: nat)
  {
    Below(links, LinkId, linkSeq) && Below(links, LinkOwner, userSeq)
  }

  ghost predicate ValidGroups(groups: seq<Group>, groupSeq: nat)
  {
    UniqueBy(groups, GroupSlug) && UniqueBy(groups, GroupId) && Below(groups, GroupId, groupSeq)
  }

  /** Member slugs are unique, and a user has at most one membership row per group. */
  ghost predicate ValidMembers(members: seq<GroupMember>, memberSeq: nat, groupSeq: nat)
  {
    UniqueBy(members, MemberSlug) && UniqueBy(members, Membership)
    && Below(members, MemberRowId, memberSeq) && Below(members, MemberGroup, groupSeq)
  }

  ghost predicate ValidPosts(posts: seq<Post>, postSeq: nat)
  {
    UniqueBy(posts, PostSlug) && UniqueBy(posts, PostId) && Below(posts, PostId, postSeq)
  }

  ghost predicate ValidHashtags(hashtags: seq<Hashtag>, hashtagSeq: nat)
  {
    UniqueBy(hashtags, HashtagTag) && UniqueBy(hashtags, HashtagId) && Below(hashtags, HashtagId, hashtagSeq)
  }

  /** `PostHashtags` is keyed by the pair (PostId, HashtagId). */
  ghost predicate ValidPostHashtags(links: seq<PostHashtag>, postSeq: nat)
  {
    UniqueBy(links, LinkKey) && Below(links, LinkPost, postSeq)
  }

  /** The rows of `batch` numbered from `start`, as an identity column numbers an inserted range. */
  function Numbered(batch: seq<PostMedia>, start: nat): (r: seq<PostMedia>)
    ensures |r| == |batch|
    ensures forall k | 0 <= k < |r| :: r[k] == batch[k].(id := start + k)
  {
    seq(|batch|, k requires 0 <= k < |batch| => batch[k].(id := start + k))
  }

  /**
   * What `SaveChanges` accepts for a range of new post-hashtag rows: their
   * keys are distinct and not stored yet, and each names a stored post and
   * a stored hashtag.
   */
  predicate LinksInsertableInto(links: seq<PostHashtag>, posts: seq<Post>, hashtags: seq<Hashtag>, batch: seq<PostHashtag>)
  {
    && (forall i, j | 0 <= i < j < |batch| :: LinkKey(batch[i]) != LinkKey(batch[j]))
    && (forall k | 0 <= k < |batch| ::
          && KeyAbsent(links, LinkKey, LinkKey(batch[k]))
          && !KeyAbsent(posts, PostId, batch[k].postId)
          && !KeyAbsent(hashtags, HashtagId, batch[k].hashtagId))
  }

  class Database {
    var users: seq<User>
    var userSeq: nat
    var profiles: seq<Profile>
    var statuses: seq<UserStatus>
    var statusSeq: nat
    var tokens: seq<UserToken>
    var tokenSeq: nat
    /** `UserVerifications`: six-digit codes. */
    var codes: seq<Verification>
    /** `UserVerificationTokens`: link tokens. */
    var links: seq<VerificationToken>
    var linkSeq: nat
    var groups: seq<Group>
    var groupSeq: nat
    var members: seq<GroupMember>
    var memberSeq: nat
    var posts: seq<Post>
    var postSeq: nat
    var hashtags: seq<Hashtag>
    var hashtagSeq: nat
    var postHashtags: seq<PostHashtag>
    var media: seq<PostMedia>
    var mediaSeq: nat
    var comments: seq<Comment>
    var commentSeq: nat
    var postReactions: seq<PostReaction>
    var postReactionSeq: nat
    var commentReactions: seq<CommentReaction>
    var commentReactionSeq: nat

    ghost predicate Valid()
      reads this
    {
      && ValidUsers(users, userSeq)
      && ValidStatuses(statuses, statusSeq, userSeq)
      && ValidTokens(tokens, tokenSeq, userSeq)
      && ValidLinks(links, linkSeq, userSeq)
      && ValidGroups(groups, groupSeq)
      && ValidMembers(members, memberSeq, groupSeq)
      && ValidPosts(posts, postSeq)
      && ValidHashtags(hashtags, hashtagSeq)
      && ValidPostHashtags(postHashtags, postSeq)
    }

    /** An empty database. */
    constructor ()
      ensures Valid()
      ensures users == [] && statuses == [] && tokens == [] && links == [] && codes == []
      ensures groups == [] && members == [] && posts == [] && hashtags == [] && postHashtags == []
      ensures media == [] && comments == [] && postReactions == [] && commentReactions == [] && profiles == []
    {
      users, profiles, statuses, tokens, codes, links := [], [], [], [], [], [];
      groups, members, posts, hashtags, postHashtags := [], [], [], [], [];
      media, comments, postReactions, commentReactions := [], [], [], [];
      userSeq, statusSeq, tokenSeq, linkSeq, groupSeq, memberSeq := 0, 0, 0, 0, 0, 0;
      postSeq, hashtagSeq, mediaSeq, commentSeq, postReactionSeq, commentReactionSeq := 0, 0, 0, 0, 0, 0;
    }

    /** Some user row has the id: what a foreign key to `Users` demands. */
    predicate HasUser(id: nat)
      reads this`users
    {
      !KeyAbsent(users, UserId, id)
    }

    /** `Users.Where(Id == id).ExecuteDelete()` would delete a row that a foreign key keeps. */
    predicate UserDeleteBlocked(id: nat)
      reads this`users, this`groups, this`posts, this`comments, this`postReactions, this`commentReactions
    {
      HasUser(id) && BlocksUserDelete(groups, posts, comments, postReactions, commentReactions, id)
    }

    /**
     * `Users.Add(u)` and `SaveChanges`: the email and username indexes
     * refuse duplicates, and the columns refuse strings longer than they are.
     */
    method AddUser(u: User) returns (err: Option<Error>, id: nat)
      requires Valid()
      modifies this`users, this`userSeq
      ensures Valid()
      ensures err.Some? <==> !KeyAbsent(old(users), Email, u.email) || !KeyAbsent(old(users), Username, u.username) || !UserFits(u)
      ensures err.Some? ==> err == Some(SaveFailed) && users == old(users) && userSeq == old(userSeq)
      ensures err.None? ==> id == old(userSeq) && users == old(users) + [u.(id := id)] && userSeq == old(userSeq) + 1
    {
      if !KeyAbsent(users, Email, u.email) || !KeyAbsent(users, Username, u.username) || !UserFits(u) {
        return Some(SaveFailed), 0;
      }
      id := userSeq;
      var row := u.(id := id);
      UniqueAppend(users, row, Email);
      UniqueAppend(users, row, Username);
      UniqueAppend(users, row, UserId);
      users, userSeq := users + [row], userSeq + 1;
      err := None;
    }

    /** `UserStatuses.Add` and `SaveChanges`: one status per user, and the user must exist. */
    method AddStatus(userId: nat, status: AccountStatus, now: Time) returns (err: Option<Error>)
      requires Valid()
      modifies this`statuses, this`statusSeq
      ensures Valid()
      ensures err.Some? <==> !KeyAbsent(old(statuses), StatusOwner, userId) || !old(HasUser(userId))
      ensures err.Some? ==> err == Some(SaveFailed) && statuses == old(statuses) && statusSeq == old(statusSeq)
      ensures err.None? ==>
        && statuses == old(statuses) + [UserStatus(old(statusSeq), userId, status, now, now)]
        && statusSeq == old(statusSeq) + 1
    {
      if !KeyAbsent(statuses, StatusOwner, userId) || !HasUser(userId) {
        return Some(SaveFailed);
      }
      var row := UserStatus(statusSeq, userId, status, now, now);
      UniqueAppend(statuses, row, StatusOwner);
      statuses, statusSeq := statuses + [row], statusSeq + 1;
      err := None;
    }

    /** `UserTokens.Add` and `SaveChanges`: token texts are unique, and the user must exist. */
    method AddToken(token: string, userId: nat, expires: Time, now: Time) returns (err: Option<Error>)
      requires Valid()
      modifies this`tokens, this`tokenSeq
      ensures Valid()
      ensures err.Some? <==> !KeyAbsent(old(tokens), TokenText, token) || !old(HasUser(userId))
      ensures err.Some? ==> err == Some(SaveFailed) && tokens == old(tokens) && tokenSeq == old(tokenSeq)
      ensures err.None? ==>
        && tokens == old(tokens) + [UserToken(old(tokenSeq), token, userId, expires, now)]
        && tokenSeq == old(tokenSeq) + 1
    {
      if !KeyAbsent(tokens, TokenText, token) || !HasUser(userId) {
        return Some(SaveFailed);
      }
      var row := UserToken(tokenSeq, token, userId, expires, now);
      UniqueAppend(tokens, row, TokenText);
      tokens, tokenSeq := tokens + [row], tokenSeq + 1;
      err := None;
    }

    /** `UserVerificationTokens.Add` and `SaveChanges`: the row gets the next id; the user must exist. */
    method AddLink(v: VerificationToken) returns (err: Option<Error>)
      requires Valid()
      modifies this`links, this`linkSeq
      ensures Valid()
      ensures err.Some? <==> !old(HasUser(v.userId))
      ensures err.Some? ==> err == Some(SaveFailed) && links == old(links) && linkSeq == old(linkSeq)
      ensures err.None? ==> links == old(links) + [v.(id := old(linkSeq))] && linkSeq == old(linkSeq) + 1
    {
      if !HasUser(v.userId) {
        return Some(SaveFailed);
      }
      links, linkSeq := links + [v.(id := linkSeq)], linkSeq + 1;
      err := None;
    }

    /** Setting `VerifiedAt` on the link at position `k` and saving it. */
    method StampLink(k: nat, at: Time)
      requires Valid() && k < |links|
      modifies this`links
      ensures Valid()
      ensures links == old(links)[k := old(links)[k].(verifiedAt := Some(at))]
    {
      links := links[k := links[k].(verifiedAt := Some(at))];
    }

    /** `UserTokens.Where(UserId == userId).ExecuteDelete()`, returning the number of rows it deleted. */
    method DeleteTokensOf(userId: nat) returns (count: nat)
      requires Valid()
      modifies this`tokens
      ensures Valid()
      ensures tokens == Without(old(tokens), TokenOwner, userId)
      ensures count == |old(tokens)| - |tokens|
      ensures count == 0 <==> KeyAbsent(old(tokens), TokenOwner, userId)
    {
      WithoutUnique(tokens, TokenOwner, userId, TokenText);
      WithoutBelow(tokens, TokenOwner, userId, TokenId, tokenSeq);
      WithoutBelow(tokens, TokenOwner, userId, TokenOwner, userSeq);
      count := |tokens| - |Without(tokens, TokenOwner, userId)|;
      tokens := Without(tokens, TokenOwner, userId);
    }

    predicate HasPost(id: nat)
      reads this`posts
    {
      !KeyAbsent(posts, PostId, id)
    }

    predicate HasGroup(id: nat)
      reads this`groups
    {
      !KeyAbsent(groups, GroupId, id)
    }

    predicate HasHashtag(id: nat)
      reads this`hashtags
    {
      !KeyAbsent(hashtags, HashtagId, id)
    }

    /** What `SaveChanges` demands of a new post: a free slug, a stored author, and a stored group when one is named. */
    predicate PostInsertable(p: Post)
      reads this`posts, this`users, this`groups
    {
      && KeyAbsent(posts, PostSlug, p.slug) && |p.slug| <= SlugMaxLength
      && HasUser(p.authorId) && (p.groupId.Some? ==> HasGroup(p.groupId.value))
    }

    /**
     * `UserPosts.Add(p)` and `SaveChanges`: slugs are unique and fit their
     * column, the author must exist, and so must the group when one is named.
     */
    method AddPost(p: Post) returns (err: Option<Error>, id: nat)
      requires Valid()
      modifies this`posts, this`postSeq
      ensures Valid()
      ensures err.Some? <==>
        || !KeyAbsent(old(posts), PostSlug, p.slug) || |p.slug| > SlugMaxLength
        || !HasUser(p.authorId) || (p.groupId.Some? && !HasGroup(p.groupId.value))
      ensures err.Some? ==> err == Some(SaveFailed) && posts == old(posts) && postSeq == old(postSeq)
      ensures err.None? ==> id == old(postSeq) && posts == old(posts) + [p.(id := id)] && postSeq == old(postSeq) + 1
    {
      if !KeyAbsent(posts, PostSlug, p.slug) || |p.slug| > SlugMaxLength || !HasUser(p.authorId) || (p.groupId.Some? && !HasGroup(p.groupId.value)) {
        return Some(SaveFailed), 0;
      }
      id := postSeq;
      var row := p.(id := id);
      UniqueAppend(posts, row, PostSlug);
      UniqueAppend(posts, row, PostId);
      posts, postSeq := posts + [row], postSeq + 1;
      err := None;
    }

    /**
     * `Hashtags.Add` and `SaveChanges`: the tag index refuses a tag already
     * stored, and the column a tag longer than 64 characters.
     */
    method AddHashtag(tag: string, now: Time) returns (err: Option<Error>, id: nat)
      requires Valid()
      modifies this`hashtags, this`hashtagSeq
      ensures Valid()
      ensures err.Some? <==> !KeyAbsent(old(hashtags), HashtagTag, tag) || |tag| > TagMaxLength
      ensures err.Some? ==> err == Some(SaveFailed) && hashtags == old(hashtags) && hashtagSeq == old(hashtagSeq)
      ensures err.None? ==>
        && id == old(hashtagSeq)
        && hashtags == old(hashtags) + [Hashtag(id, tag, now)]
        && hashtagSeq == old(hashtagSeq) + 1
    {
      if !KeyAbsent(hashtags, HashtagTag, tag) || |tag| > TagMaxLength {
        return Some(SaveFailed), 0;
      }
      id := hashtagSeq;
      var row := Hashtag(id, tag, now);
      UniqueAppend(hashtags, row, HashtagTag);
      UniqueAppend(hashtags, row, HashtagId);
      hashtags, hashtagSeq := hashtags + [row], hashtagSeq + 1;
      err := None;
    }

    predicate LinksInsertable(batch: seq<PostHashtag>)
      reads this`postHashtags, this`posts, this`hashtags
    {
      LinksInsertableInto(postHashtags, posts, hashtags, batch)
    }

    /** `PostHashtags.AddRange(batch)` (or `AddAsync` of one row) and `SaveChanges`, all or nothing. */
    method AddPostHashtags(batch: seq<PostHashtag>) returns (err: Option<Error>)
      requires Valid()
      modifies this`postHashtags
      ensures Valid()
      ensures err.Some? <==> !old(LinksInsertable(batch))
      ensures err.Some? ==> err == Some(SaveFailed) && postHashtags == old(postHashtags)
      ensures err.None? ==> postHashtags == old(postHashtags) + batch
    {
      if !LinksInsertable(batch) {
        return Some(SaveFailed);
      }
      var all := postHashtags + batch;
      forall i, j | 0 <= i < j < |all| ensures LinkKey(all[i]) != LinkKey(all[j])
      {
        if j >= |postHashtags| {
          assert all[j] == batch[j - |postHashtags|];
          if i >= |postHashtags| {
            assert all[i] == batch[i - |postHashtags|];
          }
        }
      }
      forall k | 0 <= k < |all| ensures LinkPost(all[k]) < postSeq
      {
        if k >= |postHashtags| {
          var b := all[k];
          assert b == batch[k - |postHashtags|];
          var i :| 0 <= i < |posts| && PostId(posts[i]) == b.postId;
        }
      }
      postHashtags := all;
      err := None;
    }

    /** `PostHashtags.Where(HashtagId == hashtagId && PostId == postId).ExecuteDelete()`. */
    method DeletePostHashtag(postId: nat, hashtagId: nat)
      requires Valid()
      modifies this`postHashtags
      ensures Valid()
      ensures postHashtags == Without(old(postHashtags), LinkKey, (postId, hashtagId))
    {
      WithoutUnique(postHashtags, LinkKey, (postId, hashtagId), LinkKey);
      WithoutBelow(postHashtags, LinkKey, (postId, hashtagId), LinkPost, postSeq);
      postHashtags := Without(postHashtags, LinkKey, (postId, hashtagId));
    }

    /**
     * `Entry(post).CurrentValues.SetValues(new { DeletedAt })` and
     * `SaveChanges`, returning the number of rows saved: none when the
     * post already carries that `DeletedAt`.
     */
    method SetPostDeletedAt(i: nat, t: Time) returns (saved: nat)
      requires Valid() && i < |posts|
      modifies this`posts
      ensures Valid()
      ensures old(posts[i].deletedAt) == Some(t) ==> saved == 0 && posts == old(posts)
      ensures old(posts[i].deletedAt) != Some(t) ==>
        saved == 1 && posts == old(posts)[i := old(posts[i]).(deletedAt := Some(t))]
    {
      if posts[i].deletedAt == Some(t) {
        return 0;
      }
      var row := posts[i].(deletedAt := Some(t));
      UniqueUpdate(posts, i, row, PostSlug);
      UniqueUpdate(posts, i, row, PostId);
      posts := posts[i := row];
      saved := 1;
    }

    /**
     * What `SaveChanges` demands of a new group saved together with its
     * creator's membership row: both slugs free, the creator stored, and
     * the name and both slugs within their columns.
     */
    predicate GroupInsertable(g: Group, memberSlug: string)
      reads this`groups, this`members, this`users
    {
      && KeyAbsent(groups, GroupSlug, g.slug) && KeyAbsent(members, MemberSlug, memberSlug) && HasUser(g.creatorId)
      && |g.name| <= GroupNameMaxLength && |g.slug| <= SlugMaxLength && |memberSlug| <= SlugMaxLength
    }

    /**
     * `Groups.Add(g)` with `g.Members` holding the creator's Approved
     * membership, and `SaveChanges`: both rows or neither.
     */
    method AddGroup(g: Group, memberSlug: string, now: Time) returns (err: Option<Error>, id: nat)
      requires Valid()
      modifies this`groups, this`groupSeq, this`members, this`memberSeq
      ensures Valid()
      ensures err.Some? <==> !old(GroupInsertable(g, memberSlug))
      ensures err.Some? ==>
        err == Some(SaveFailed) && groups == old(groups) && members == old(members)
        && groupSeq == old(groupSeq) && memberSeq == old(memberSeq)
      ensures err.None? ==>
        && id == old(groupSeq)
        && groups == old(groups) + [g.(id := id)] && groupSeq == old(groupSeq) + 1
        && members == old(members) + [GroupMember(old(memberSeq), memberSlug, Approved, id, g.creatorId, Some(now), now, now)]
        && memberSeq == old(memberSeq) + 1
    {
      if !GroupInsertable(g, memberSlug) {
        return Some(SaveFailed), 0;
      }
      id := groupSeq;
      assert forall k | 0 <= k < |members| :: MemberGroup(members[k]) < id;
      InsertGroup(g.(id := id));
      assert GroupId(groups[|groups| - 1]) == id;
      var e := AddMember(GroupMember(0, memberSlug, Approved, id, g.creatorId, Some(now), now, now));
      err := None;
    }

    /** The group row, with the next id, appended to `Groups`. */
    method InsertGroup(row: Group)
      requires Valid() && row.id == groupSeq && KeyAbsent(groups, GroupSlug, row.slug)
      modifies this`groups, this`groupSeq
      ensures Valid()
      ensures groups == old(groups) + [row] && groupSeq == old(groupSeq) + 1
    {
      UniqueAppend(groups, row, GroupSlug);
      UniqueAppend(groups, row, GroupId);
      groups, groupSeq := groups + [row], groupSeq + 1;
    }

    /**
     * `GroupMembers.Add(m)` and `SaveChanges`: the slug index refuses a
     * taken slug and the member must be a stored user. Callers look the
     * membership up first, so the pair (group, user) is new.
     */
    method AddMember(m: GroupMember) returns (err: Option<Error>)
      requires Valid() && HasGroup(m.groupId) && KeyAbsent(members, Membership, Membership(m))
      modifies this`members, this`memberSeq
      ensures Valid()
      ensures err.Some? <==> !KeyAbsent(old(members), MemberSlug, m.slug) || |m.slug| > SlugMaxLength || !old(HasUser(m.memberId))
      ensures err.Some? ==> err == Some(SaveFailed) && members == old(members) && memberSeq == old(memberSeq)
      ensures err.None? ==> members == old(members) + [m.(id := old(memberSeq))] && memberSeq == old(memberSeq) + 1
    {
      if !KeyAbsent(members, MemberSlug, m.slug) || |m.slug| > SlugMaxLength || !HasUser(m.memberId) {
        return Some(SaveFailed);
      }
      var row := m.(id := memberSeq);
      UniqueAppend(members, row, MemberSlug);
      UniqueAppend(members, row, Membership);
      members, memberSeq := members + [row], memberSeq + 1;
      err := None;
    }

    /** `Entry(member).CurrentValues.SetValues(...)` and `SaveChanges`, for values that keep the row's keys. */
    method SetMember(i: nat, row: GroupMember)
      requires Valid() && i < |members|
      requires row.id == members[i].id && row.slug == members[i].slug && Membership(row) == Membership(members[i])
      modifies this`members
      ensures Valid()
      ensures members == old(members)[i := row]
    {
      UniqueUpdate(members, i, row, MemberSlug);
      UniqueUpdate(members, i, row, Membership);
      members := members[i := row];
    }

    /** `Entry(group).CurrentValues.SetValues(new { DeletedAt })`. */
    method SetGroupDeletedAt(i: nat, t: Time)
      requires Valid() && i < |groups|
      modifies this`groups
      ensures Valid()
      ensures groups == old(groups)[i := old(groups[i]).(deletedAt := Some(t))]
    {
      var row := groups[i].(deletedAt := Some(t));
      UniqueUpdate(groups, i, row, GroupSlug);
      UniqueUpdate(groups, i, row, GroupId);
      groups := groups[i := row];
    }

    /** `PostMedia.Where(Id == id).ExecuteDelete()`. */
    method DeleteMediaRow(id: nat)
      requires Valid()
      modifies this`media
      ensures Valid()
      ensures media == Without(old(media), MediaId, id)
    {
      media := Without(media, MediaId, id);
    }

    /** `PostMedia.AddRange(batch)` and `SaveChanges`; every caller names a stored post. */
    method AddMedia(batch: seq<PostMedia>)
      requires Valid()
      modifies this`media, this`mediaSeq
      ensures Valid()
      ensures media == old(media) + Numbered(batch, old(mediaSeq)) && mediaSeq == old(mediaSeq) + |batch|
    {
      media, mediaSeq := media + Numbered(batch, mediaSeq), mediaSeq + |batch|;
    }
  }
}
