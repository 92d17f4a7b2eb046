/**
 * The post listing of `PostService.GetPostsAsync`: the filters on keyword,
 * author, group and hashtags, the order by `UpdatedAt` (newest first), and
 * the page window. Everything here is a function of the table values; the
 * relations a post's filter reads (its author, its group, its hashtags) are
 * found through the foreign keys of the post row.
 */
module PostQuery {
  import opened Wrappers
  import opened Text
  import opened Entities
  import opened Data
  import opened PostTags

  const DefaultLimit: nat := 16

  // ------------------------------------------------------------ relations

  /** The post's `Author` navigation: the user row its `AuthorId` names, if stored. */
  function AuthorOf(users: seq<User>, p: Post): (r: Option<User>)
    ensures r.None? <==> KeyAbsent(users, UserId, p.authorId)
    ensures r.Some? ==> r.value in users && r.value.id == p.authorId
  {
    match FindIndex(users, UserId, p.authorId)
    case None => None
    case Some(i) => Some(users[i])
  }

  /** The post's `Group` navigation: null without a `GroupId`, else the group row it names, if stored. */
  function GroupOf(groups: seq<Group>, p: Post): (r: Option<Group>)
    ensures r.None? <==> p.groupId.None? || KeyAbsent(groups, GroupId, p.groupId.value)
    ensures r.Some? ==> r.value in groups && Some(r.value.id) == p.groupId
  {
    if p.groupId.None? then None
    else match FindIndex(groups, GroupId, p.groupId.value)
      case None => None
      case Some(i) => Some(groups[i])
  }

  // ---------------------------------------------------------------- terms

  /** `s?.Trim().ToLower()`, kept only when it is not blank: a blank term does not filter. */
  function ActiveTerm(s: Option<string>): (r: Option<string>)
    ensures r.Some? ==> s.Some? && r.value != [] && NoUpper(r.value)
  {
    if s.None? || Trim(s.value) == [] then None
    else
      ToLowerIdempotent(Trim(s.value));
      Some(ToLower(Trim(s.value)))
  }

  /** The text left by `Trim` is empty exactly when the text is all white space. */
  lemma TrimEmpty(s: string)
    ensures Trim(s) == [] <==> forall i | 0 <= i < |s| :: IsWhite(s[i])
  {
    var r := TrimStart(s);
    if r != [] {
      assert !IsWhite(s[|s| - |r|]);
    }
  }

  /** A term filters exactly when it is given and holds something other than white space. */
  lemma ActiveTermMeaning(s: Option<string>)
    ensures ActiveTerm(s).None? <==> s.None? || forall i | 0 <= i < |s.value| :: IsWhite(s.value[i])
    ensures ActiveTerm(s).Some? ==> ActiveTerm(s).value == ToLower(Trim(s.value))
  {
    if s.Some? {
      TrimEmpty(s.value);
    }
  }

  // -------------------------------------------------------------- clauses

  /** `Content != null && Content.ToLower().Contains(term)`. */
  predicate KeywordHit(p: Post, term: string)
  {
    p.content.Some? && Contains(ToLower(p.content.value), term)
  }

  /** `Author != null && (Username.ToLower().Contains(term) || Fullname.ToLower().Contains(term))`. */
  predicate AuthorHit(author: Option<User>, term: string)
  {
    author.Some? && (Contains(ToLower(author.value.username), term) || Contains(ToLower(author.value.fullname), term))
  }

  /** `Group != null && (Slug.ToLower().Contains(term) || Name.ToLower().Contains(term))`. */
  predicate GroupHit(group: Option<Group>, term: string)
  {
    group.Some? && (Contains(ToLower(group.value.slug), term) || Contains(ToLower(group.value.name), term))
  }

  /** `Hashtags.Any(t => tags.Contains(t.Tag))`: some hashtag joined to the post has one of the texts. */
  predicate TagHit(t: TagTables, postId: nat, tags: seq<string>)
  {
    exists j, h | 0 <= j < |t.links| && 0 <= h < |t.hashtags| ::
      t.links[j].postId == postId && t.links[j].hashtagId == t.hashtags[h].id && t.hashtags[h].tag in tags
  }

  /** With the unique tag and id indexes, a tag hit is a link (as `CreatePostAsync` makes) to one of the texts. */
  lemma TagHitLinked(t: TagTables, postId: nat, tags: seq<string>)
    requires TablesValid(t)
    ensures TagHit(t, postId, tags) <==> exists k | 0 <= k < |tags| :: Linked(t, postId, tags[k])
  {
    if TagHit(t, postId, tags) {
      var j, h :| 0 <= j < |t.links| && 0 <= h < |t.hashtags| &&
        t.links[j].postId == postId && t.links[j].hashtagId == t.hashtags[h].id && t.hashtags[h].tag in tags;
      var tag := t.hashtags[h].tag;
      var k :| 0 <= k < |tags| && tags[k] == tag;
      var i := FindIndex(t.hashtags, HashtagTag, tag).value;
      assert HashtagTag(t.hashtags[i]) == HashtagTag(t.hashtags[h]);
      assert i == h;
      assert LinkKey(t.links[j]) == (postId, t.hashtags[h].id);
      assert Linked(t, postId, tags[k]);
    }
    if exists k | 0 <= k < |tags| :: Linked(t, postId, tags[k]) {
      var k :| 0 <= k < |tags| && Linked(t, postId, tags[k]);
      var h := FindIndex(t.hashtags, HashtagTag, tags[k]).value;
      var j :| 0 <= j < |t.links| && LinkKey(t.links[j]) == (postId, t.hashtags[h].id);
      assert t.links[j].postId == postId && t.links[j].hashtagId == t.hashtags[h].id;
    }
  }

  /** The optional filters of `GetPostsAsync`. */
  datatype Filters = Filters(keyword: Option<string>, author: Option<string>, group: Option<string>, tags: Option<seq<string>>)

  /** A post passes every filter that is given and not blank. */
  predicate Matches(users: seq<User>, groups: seq<Group>, t: TagTables, f: Filters, p: Post)
  {
    && (ActiveTerm(f.keyword).Some? ==> KeywordHit(p, ActiveTerm(f.keyword).value))
    && (ActiveTerm(f.author).Some? ==> AuthorHit(AuthorOf(users, p), ActiveTerm(f.author).value))
    && (ActiveTerm(f.group).Some? ==> GroupHit(GroupOf(groups, p), ActiveTerm(f.group).value))
    && (f.tags.Some? && |f.tags.value| > 0 ==> TagHit(t, p.id, f.tags.value))
  }

  /** Without any filter every post passes. */
  lemma NoFilterMatchesAll(users: seq<User>, groups: seq<Group>, t: TagTables, p: Post)
    ensures Matches(users, groups, t, Filters(None, None, None, None), p)
  {
  }

  /** The posts passing the filters, in table order. */
  function Matching(users: seq<User>, groups: seq<Group>, t: TagTables, f: Filters, posts: seq<Post>): (r: seq<Post>)
    ensures |r| <= |posts|
    ensures forall p :: p in r <==> p in posts && Matches(users, groups, t, f, p)
    ensures forall p | p in r :: multiset(r)[p] == multiset(posts)[p]
  {
    if posts == [] then []
    else
      var rest := Matching(users, groups, t, f, posts[1..]);
      assert posts == [posts[0]] + posts[1..];
      if Matches(users, groups, t, f, posts[0]) then [posts[0]] + rest else rest
  }

  // -------------------------------------------------------------- ordering

  /** `OrderByDescending(UpdatedAt)`: the most recently updated post first. */
  predicate NewestFirst(s: seq<Post>)
  {
    forall i, j | 0 <= i < j < |s| :: s[i].updatedAt >= s[j].updatedAt
  }

  function InsertByUpdated(p: Post, s: seq<Post>): (r: seq<Post>)
    requires NewestFirst(s)
    ensures NewestFirst(r)
    ensures multiset(r) == multiset(s) + multiset{p}
    ensures |r| == |s| + 1
    ensures forall i | 0 <= i < |r| :: r[i] == p || r[i] in s
  {
    if s == [] || s[0].updatedAt <= p.updatedAt then [p] + s
    else
      var rest := InsertByUpdated(p, s[1..]);
      assert s == [s[0]] + s[1..];
      NoNewerThanHead(p, s, rest);
      [s[0]] + rest
  }

  /** What is inserted into the tail of `s` is no newer than the head of `s`. */
  lemma NoNewerThanHead(p: Post, s: seq<Post>, rest: seq<Post>)
    requires NewestFirst(s) && s != [] && p.updatedAt < s[0].updatedAt
    requires forall i | 0 <= i < |rest| :: rest[i] == p || rest[i] in s[1..]
    ensures forall i | 0 <= i < |rest| :: rest[i].updatedAt <= s[0].updatedAt
  {
    forall i | 0 <= i < |rest| ensures rest[i].updatedAt <= s[0].updatedAt
    {
      if rest[i] != p {
        var k :| 0 <= k < |s[1..]| && s[1..][k] == rest[i];
        assert s[k + 1] == rest[i];
      }
    }
  }

  /** The posts sorted by `UpdatedAt`, newest first; the same posts, each as often. */
  function SortByUpdated(s: seq<Post>): (r: seq<Post>)
    ensures NewestFirst(r)
    ensures multiset(r) == multiset(s)
    ensures |r| == |s|
  {
    if s == [] then []
    else
      assert s == [s[0]] + s[1..];
      InsertByUpdated(s[0], SortByUpdated(s[1..]))
  }

  // ---------------------------------------------------------------- pages

  /** `((page > 0 ? page : 1) - 1) * limit`: the number of posts before the page. */
  function StartOf(page: int, limit: nat): (r: nat)
    ensures page <= 1 ==> r == 0
    ensures page >= 1 ==> r == (page - 1) * limit
  {
    ((if page > 0 then page else 1) - 1) * limit
  }

  /** `Skip(start).Take(limit)`. */
  function Window<T>(s: seq<T>, start: nat, limit: nat): (r: seq<T>)
    ensures |r| == if start >= |s| then 0 else if |s| - start < limit then |s| - start else limit
    ensures forall i | 0 <= i < |r| :: start + i < |s| && r[i] == s[start + i]
  {
    if start >= |s| then [] else if |s| - start < limit then s[start..] else s[start..start + limit]
  }

  /** A window of a newest-first sequence is newest first. */
  lemma WindowNewestFirst(s: seq<Post>, start: nat, limit: nat)
    requires NewestFirst(s)
    ensures NewestFirst(Window(s, start, limit))
  {
    var r := Window(s, start, limit);
    forall i, j | 0 <= i < j < |r| ensures r[i].updatedAt >= r[j].updatedAt
    {
      assert r[i] == s[start + i] && r[j] == s[start + j];
    }
  }

  /** Consecutive pages follow each other: page k + 1 starts where page k ends. */
  lemma PagesAdjacent(page: int, limit: nat)
    requires page >= 1
    ensures StartOf(page + 1, limit) == StartOf(page, limit) + limit
  {
  }

  /** The reply of `GetPostsAsync`: the posts of the page, the count of all matches, the page asked for and the limit used. */
  datatype PostPage = PostPage(posts: seq<Post>, total: nat, page: int, limit: nat)

  /**
   * `GetPostsAsync`: filter, sort by `UpdatedAt` newest first, then take the
   * window of the page.
   */
  function GetPostsAsync(users: seq<User>, groups: seq<Group>, t: TagTables, posts: seq<Post>,
                         f: Filters, page: int, limit: Option<nat>): (r: PostPage)
    ensures r.page == page && r.limit == limit.GetOr(DefaultLimit)
    ensures r.total == |Matching(users, groups, t, f, posts)|
    ensures |r.posts| <= r.limit
    ensures forall p | p in r.posts :: p in posts && Matches(users, groups, t, f, p)
  {
    var lim := limit.GetOr(DefaultLimit);
    var sorted := SortByUpdated(Matching(users, groups, t, f, posts));
    var window := Window(sorted, StartOf(page, lim), lim);
    assert forall p | p in window :: p in multiset(sorted);
    PostPage(window, |Matching(users, groups, t, f, posts)|, page, lim)
  }

  /**
   * The page is the window (`Skip`/`Take`, see `Window`) of the matching
   * posts, newest first, that starts after the posts of the earlier pages;
   * so it is itself newest first.
   */
  lemma GetPostsPage(users: seq<User>, groups: seq<Group>, t: TagTables, posts: seq<Post>,
                     f: Filters, page: int, limit: Option<nat>)
    ensures var r := GetPostsAsync(users, groups, t, posts, f, page, limit);
      var sorted := SortByUpdated(Matching(users, groups, t, f, posts));
      && r.posts == Window(sorted, StartOf(page, r.limit), r.limit)
      && NewestFirst(r.posts)
  {
    var lim := limit.GetOr(DefaultLimit);
    var sorted := SortByUpdated(Matching(users, groups, t, f, posts));
    WindowNewestFirst(sorted, StartOf(page, lim), lim);
  }

  /** A page number of zero or below reads page 1, but the reply echoes the number given. */
  lemma NonPositivePageIsFirst(users: seq<User>, groups: seq<Group>, t: TagTables, posts: seq<Post>,
                               f: Filters, page: int, limit: Option<nat>)
    requires page <= 0
    ensures GetPostsAsync(users, groups, t, posts, f, page, limit).posts == GetPostsAsync(users, groups, t, posts, f, 1, limit).posts
    ensures GetPostsAsync(users, groups, t, posts, f, page, limit).page == page
  {
  }

  /** The total does not depend on the page or the limit. */
  lemma TotalIndependentOfPage(users: seq<User>, groups: seq<Group>, t: TagTables, posts: seq<Post>,
                               f: Filters, page: int, limit: Option<nat>, page': int, limit': Option<nat>)
    ensures GetPostsAsync(users, groups, t, posts, f, page, limit).total == GetPostsAsync(users, groups, t, posts, f, page', limit').total
  {
  }
}
