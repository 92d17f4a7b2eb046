/**
 * `PostController`: creating a post (with its slug retries, its media rows
 * and its hashtags), deleting a post, and the paged listing. The current
 * user comes from `TokenService.GetUser`; the GUIDs the slug tries would draw
 * are the parameter `guids`, one per try, and the uploaded files of the form
 * are the parameter `files`.
 */
module PostController {
  import opened Wrappers
  import opened Text
  import opened Entities
  import opened Data
  import opened TokenService
  import opened UserPostMapping
  import opened PostTags
  import opened PostService
  import opened PostQuery
  import opened Validation

  /** The `while (tryCount < 16)` bound of the slug retries. */
  const MaxSlugTries: nat := 16

  /** The directory prefix of the media paths `Create` stores. */
  const MediaPath: string := "post/media"

  predicate AllGuids(guids: seq<string>)
  {
    forall i | 0 <= i < |guids| :: IsGuidText(guids[i])
  }

  /** Some stored post already has the slug of try `i`. */
  predicate SlugTaken(posts: seq<Post>, guids: seq<string>, i: nat)
    requires AllGuids(guids) && i < |guids|
  {
    !KeyAbsent(posts, PostSlug, SlugFromGuid(guids[i]))
  }

  /** The first try from `k` on whose slug no stored post uses. */
  function FirstFreeFrom(posts: seq<Post>, guids: seq<string>, k: nat): (r: Option<nat>)
    requires AllGuids(guids) && k <= |guids|
    ensures r.Some? ==> k <= r.value < |guids| && !SlugTaken(posts, guids, r.value)
    ensures r.Some? ==> forall j | k <= j < r.value :: SlugTaken(posts, guids, j)
    ensures r.None? <==> forall j | k <= j < |guids| :: SlugTaken(posts, guids, j)
    decreases |guids| - k
  {
    if k == |guids| then None
    else if !SlugTaken(posts, guids, k) then Some(k)
    else FirstFreeFrom(posts, guids, k + 1)
  }

  /** The first of the tries whose slug is free, or `None` when every try collides. */
  function FirstFreeTry(posts: seq<Post>, guids: seq<string>): (r: Option<nat>)
    requires AllGuids(guids)
    ensures r.Some? ==> r.value < |guids| && !SlugTaken(posts, guids, r.value)
    ensures r.Some? ==> forall j | 0 <= j < r.value :: SlugTaken(posts, guids, j)
    ensures r.None? <==> forall j | 0 <= j < |guids| :: SlugTaken(posts, guids, j)
  {
    FirstFreeFrom(posts, guids, 0)
  }

  /** A free try after only taken ones is the first free try. */
  lemma FirstFreeTryIs(posts: seq<Post>, guids: seq<string>, k: nat)
    requires AllGuids(guids) && k < |guids|
    requires forall j | 0 <= j < k :: SlugTaken(posts, guids, j)
    requires !SlugTaken(posts, guids, k)
    ensures FirstFreeTry(posts, guids) == Some(k)
  {
  }

  /**
   * The retry loop of `Create`: build the post from the form, and keep it
   * if no stored post has its slug; at most 16 tries.
   */
  method SlugTries(db: Database, dto: CreateUserPostDto, authorId: nat, guids: seq<string>, now: Time)
    returns (post: Option<Post>)
    requires |guids| == MaxSlugTries && AllGuids(guids)
    ensures post.Some? <==> FirstFreeTry(db.posts, guids).Some?
    ensures post.Some? ==> post.value == ToEntity(dto, authorId, guids[FirstFreeTry(db.posts, guids).value], now)
  {
    post := None;
    var tryCount := 0;
    while tryCount < MaxSlugTries
      invariant 0 <= tryCount <= MaxSlugTries
      invariant post.None?
      invariant forall j | 0 <= j < tryCount :: SlugTaken(db.posts, guids, j)
    {
      var candidate := ToEntity(dto, authorId, guids[tryCount], now);
      var same := Filter(db.posts, (e: Post) => e.slug == candidate.slug);
      tryCount := tryCount + 1;
      if |same| == 0 {
        assert !SlugTaken(db.posts, guids, tryCount - 1);
        FirstFreeTryIs(db.posts, guids, tryCount - 1);
        return Some(candidate);
      }
      assert PostSlug(same[0]) == candidate.slug;
    }
  }

  /** A kept slug is new: no stored post has it, so the slug index accepts the post. */
  lemma KeptSlugIsFree(posts: seq<Post>, dto: CreateUserPostDto, authorId: nat, guids: seq<string>, now: Time)
    requires AllGuids(guids) && FirstFreeTry(posts, guids).Some?
    ensures KeyAbsent(posts, PostSlug, ToEntity(dto, authorId, guids[FirstFreeTry(posts, guids).value], now).slug)
  {
  }

  /**
   * `Create`: for the current user, the first post with a free slug is
   * saved; then the rows of its media under `post/media`; then the links to
   * its hashtags. An error at any step is answered with its message, and
   * what the earlier steps saved stays saved.
   */
  method Create(db: Database, header: string, jwt: Jwt, dto: CreateUserPostDto, files: Option<seq<FormFile>>,
                guids: seq<string>, now: Time)
    returns (reply: Reply)
    requires db.Valid() && |guids| == MaxSlugTries && AllGuids(guids)
    modifies db`posts, db`postSeq, db`media, db`mediaSeq, db`hashtags, db`hashtagSeq, db`postHashtags
    ensures db.Valid()
    ensures var user := GetUser(old(db.users), old(db.tokens), header, jwt, now);
      user.None? ==>
        reply == Unauthorized && db.posts == old(db.posts) && db.media == old(db.media) && TablesOf(db) == old(TablesOf(db))
    ensures var user := GetUser(old(db.users), old(db.tokens), header, jwt, now);
      user.Some? && FirstFreeTry(old(db.posts), guids).None? ==>
        && reply == BadRequest(PostRetriesExhausted.Message())
        && db.posts == old(db.posts) && db.media == old(db.media) && TablesOf(db) == old(TablesOf(db))
    ensures var user := GetUser(old(db.users), old(db.tokens), header, jwt, now);
      var try := FirstFreeTry(old(db.posts), guids);
      user.Some? && try.Some? ==>
        var post := ToEntity(dto, user.value.id, guids[try.value], now);
        var id := old(db.postSeq);
        var rows := MediaRows(files.GetOr([]), MediaPath, id, now);
        && (!old(db.PostInsertable(post)) ==>
              && reply == BadRequest(SaveFailed.Message())
              && db.posts == old(db.posts) && db.media == old(db.media) && TablesOf(db) == old(TablesOf(db)))
        && (old(db.PostInsertable(post)) ==>
              && db.posts == old(db.posts) + [post.(id := id)]
              && (rows.None? ==>
                    reply == BadRequest(NotAllowedFile.Message()) && db.media == old(db.media) && TablesOf(db) == old(TablesOf(db)))
              && (rows.Some? ==>
                    var linked := LinkAll(old(TablesOf(db)), id, ContentTags(dto.content), now);
                    && db.media == old(db.media) + Numbered(rows.value, old(db.mediaSeq))
                    && TablesOf(db) == linked.0
                    && reply == (if linked.1.None? then Ok("Post Created Successfully", None) else BadRequest(linked.1.value.Message()))))
  {
    var user := GetUser(db.users, db.tokens, header, jwt, now);
    if user.None? {
      return Unauthorized;
    }
    var post := SlugTries(db, dto, user.value.id, guids, now);
    if post.None? {
      return BadRequest(PostRetriesExhausted.Message());
    }
    reply := SavePost(db, post.value, files, now);
  }

  /** The kept post is saved, then its media rows and its hashtag links. */
  method SavePost(db: Database, post: Post, files: Option<seq<FormFile>>, now: Time) returns (reply: Reply)
    requires db.Valid()
    modifies db`posts, db`postSeq, db`media, db`mediaSeq, db`hashtags, db`hashtagSeq, db`postHashtags
    ensures db.Valid()
    ensures var id := old(db.postSeq);
      var rows := MediaRows(files.GetOr([]), MediaPath, id, now);
      && (!old(db.PostInsertable(post)) ==>
            && reply == BadRequest(SaveFailed.Message())
            && db.posts == old(db.posts) && db.media == old(db.media) && TablesOf(db) == old(TablesOf(db)))
      && (old(db.PostInsertable(post)) ==>
            && db.posts == old(db.posts) + [post.(id := id)]
            && (rows.None? ==>
                  reply == BadRequest(NotAllowedFile.Message()) && db.media == old(db.media) && TablesOf(db) == old(TablesOf(db)))
            && (rows.Some? ==>
                  var linked := LinkAll(old(TablesOf(db)), id, ContentTags(post.content), now);
                  && db.media == old(db.media) + Numbered(rows.value, old(db.mediaSeq))
                  && TablesOf(db) == linked.0
                  && reply == (if linked.1.None? then Ok("Post Created Successfully", None) else BadRequest(linked.1.value.Message()))))
  {
    ghost var t0, media0, mediaSeq0 := TablesOf(db), db.media, db.mediaSeq;
    var e, id := db.AddPost(post);
    if e.Some? {
      assert !old(db.PostInsertable(post));
      return BadRequest(e.value.Message());
    }
    assert old(db.PostInsertable(post)) && id == old(db.postSeq);
    assert TablesOf(db) == t0 && db.media == media0 && db.mediaSeq == mediaSeq0;
    assert db.HasPost(id) by {
      assert PostId(db.posts[|db.posts| - 1]) == id;
    }
    ghost var posts1 := db.posts;
    reply := SaveMediaAndTags(db, id, post.content, files, now);
    assert db.posts == posts1;
  }

  /** The media rows, then the hashtag links, of the post `Create` has just saved. */
  method SaveMediaAndTags(db: Database, id: nat, content: Option<string>, files: Option<seq<FormFile>>, now: Time)
    returns (reply: Reply)
    requires db.Valid() && db.HasPost(id)
    modifies db`media, db`mediaSeq, db`hashtags, db`hashtagSeq, db`postHashtags
    ensures db.Valid()
    ensures var rows := MediaRows(files.GetOr([]), MediaPath, id, now);
      && (rows.None? ==>
            reply == BadRequest(NotAllowedFile.Message()) && db.media == old(db.media) && TablesOf(db) == old(TablesOf(db)))
      && (rows.Some? ==>
            var linked := LinkAll(old(TablesOf(db)), id, ContentTags(content), now);
            && db.media == old(db.media) + Numbered(rows.value, old(db.mediaSeq))
            && TablesOf(db) == linked.0
            && reply == (if linked.1.None? then Ok("Post Created Successfully", None) else BadRequest(linked.1.value.Message())))
  {
    if files.Some? && |files.value| > 0 {
      var e := SaveMedia(db, id, MediaPath, files.value, now);
      if e.Some? {
        return BadRequest(e.value.Message());
      }
    } else {
      assert Numbered([], db.mediaSeq) == [];
    }
    assert TablesOf(db) == old(TablesOf(db));
    var e := LinkTags(db, id, content, now);
    if e.Some? {
      return BadRequest(e.value.Message());
    }
    reply := Ok("Post Created Successfully", None);
  }

  /** The current user is stored, so the only key a kept post can break is a missing group. */
  lemma CreateFailsOnlyOnGroup(db: Database, header: string, jwt: Jwt, dto: CreateUserPostDto, guids: seq<string>, now: Time)
    requires AllGuids(guids)
    requires GetUser(db.users, db.tokens, header, jwt, now).Some? && FirstFreeTry(db.posts, guids).Some?
    ensures var post := ToEntity(dto, GetUser(db.users, db.tokens, header, jwt, now).value.id, guids[FirstFreeTry(db.posts, guids).value], now);
      !db.PostInsertable(post) <==> dto.groupId.Some? && !db.HasGroup(dto.groupId.value)
  {
    var u := GetUser(db.users, db.tokens, header, jwt, now).value;
    var i :| 0 <= i < |db.users| && db.users[i] == u;
    assert UserId(db.users[i]) == u.id;
    SlugFromGuidShape(guids[FirstFreeTry(db.posts, guids).value]);
  }

  /**
   * `Delete`: the current user may soft-delete the post with the slug when
   * they are its author or created its group. The save's count is not
   * checked, so deleting twice at the same instant succeeds both times.
   */
  method Delete(db: Database, header: string, jwt: Jwt, slug: string, now: Time) returns (reply: Reply)
    requires db.Valid()
    modifies db`posts
    ensures db.Valid()
    ensures var user := GetUser(db.users, db.tokens, header, jwt, now);
      user.None? ==> reply == Unauthorized && db.posts == old(db.posts)
    ensures var user := GetUser(db.users, db.tokens, header, jwt, now);
      var found := FindIndex(old(db.posts), PostSlug, slug);
      user.Some? ==>
        && (found.None? ==> reply == BadRequest(DeletionFailed.Message()) && db.posts == old(db.posts))
        && (found.Some? && DeleteCheck(db.groups, old(db.posts)[found.value], Some(user.value.id)).Some? ==>
              && reply == BadRequest(DeleteCheck(db.groups, old(db.posts)[found.value], Some(user.value.id)).value.Message())
              && db.posts == old(db.posts))
        && (found.Some? && DeleteCheck(db.groups, old(db.posts)[found.value], Some(user.value.id)).None? ==>
              reply == Ok("Post Deleted Successfully", None) && db.posts == SoftDeleted(old(db.posts), found.value, now))
  {
    var user := GetUser(db.users, db.tokens, header, jwt, now);
    if user.None? {
      return Unauthorized;
    }
    var found := FindIndex(db.posts, PostSlug, slug);
    if found.None? {
      return BadRequest(DeletionFailed.Message());
    }
    var i := found.value;
    var check := DeleteCheck(db.groups, db.posts[i], Some(user.value.id));
    if check.Some? {
      return BadRequest(check.value.Message());
    }
    var _ := db.SetPostDeletedAt(i, now);
    assert old(db.posts)[i].deletedAt == Some(now) ==> old(db.posts)[i].(deletedAt := Some(now)) == old(db.posts)[i];
    reply := Ok("Post Deleted Successfully", None);
  }

  // -------------------------------------------------------------- listing

  /** The query parameters of `GetPerPage` (`FilterPostDto`). */
  datatype PostFilter = PostFilter(
    page: int, limit: Option<nat>, author: Option<string>, group: Option<string>, keyword: Option<string>, tags: Option<string>)

  /**
   * The attributes of `FilterPostDto`: `[Range(0, int.MaxValue)]` page,
   * `[Range(1, 64)]` limit, `[StringLength(255)]` author and group.
   */
  predicate FilterPostDtoValid(f: PostFilter)
  {
    && 0 <= f.page
    && (f.limit.None? || 1 <= f.limit.value <= 64)
    && OptionalAtMost(f.author, 255) && OptionalAtMost(f.group, 255)
  }

  /** `string.IsNullOrEmpty`. */
  predicate IsNullOrEmpty(s: Option<string>)
  {
    s.None? || s.value == []
  }

  /** `("" + tags).ToLower().Replace("#", "").Split(",")`. */
  function TagList(tags: Option<string>): (r: seq<string>)
    ensures |r| >= 1 && forall k | 0 <= k < |r| :: ',' !in r[k]
  {
    Split(RemoveChar(ToLower(tags.GetOr("")), '#'), ',')
  }

  /** Joined back with ',', the pieces give the lower-cased text without its '#'s. */
  lemma TagListMeaning(tags: Option<string>)
    ensures Join(TagList(tags), ',') == RemoveChar(ToLower(tags.GetOr("")), '#')
    ensures NoUpper(RemoveChar(ToLower(tags.GetOr("")), '#')) && '#' !in RemoveChar(ToLower(tags.GetOr("")), '#')
  {
    var lower := ToLower(tags.GetOr(""));
    var r := RemoveChar(lower, '#');
    SplitJoin(r, ',');
    ToLowerIdempotent(tags.GetOr(""));
    forall i | 0 <= i < |r| ensures !IsUpper(r[i])
    {
      assert r[i] in lower;
    }
  }

  /**
   * The `Where` of `GetPerPage`. Each term is lower-cased but not trimmed,
   * and an empty one disables its clause. The keyword clause also holds for
   * every post without an author row or without a group.
   */
  predicate PerPageMatches(users: seq<User>, groups: seq<Group>, t: TagTables, f: PostFilter, p: Post)
  {
    var author := AuthorOf(users, p);
    var group := GroupOf(groups, p);
    && (IsNullOrEmpty(f.tags) || TagHit(t, p.id, TagList(f.tags)))
    && (IsNullOrEmpty(f.author) || AuthorHit(author, ToLower(f.author.value)))
    && (IsNullOrEmpty(f.group) || GroupHit(group, ToLower(f.group.value)))
    && (|| IsNullOrEmpty(f.keyword)
        || Contains(ToLower(p.content.GetOr("")), ToLower(f.keyword.value))
        || author.None? || AuthorHit(author, ToLower(f.keyword.value))
        || group.None? || GroupHit(group, ToLower(f.keyword.value)))
  }

  /** The posts passing the `Where` of `GetPerPage`, in table order. */
  function PerPageMatching(users: seq<User>, groups: seq<Group>, t: TagTables, f: PostFilter, posts: seq<Post>): (r: seq<Post>)
    ensures |r| <= |posts|
    ensures forall p :: p in r <==> p in posts && PerPageMatches(users, groups, t, f, p)
  {
    if posts == [] then []
    else
      var rest := PerPageMatching(users, groups, t, f, posts[1..]);
      assert posts == [posts[0]] + posts[1..];
      if PerPageMatches(users, groups, t, f, posts[0]) then [posts[0]] + rest else rest
  }

  /**
   * `GetPerPage`: no page (the validation problem) for query parameters
   * that fail validation. Otherwise the window of the page is taken from
   * the matches in table order and only then sorted newest first; the reply
   * reports page 1 for a page number of zero, and a page holds at most 64
   * posts.
   */
  function GetPerPage(users: seq<User>, groups: seq<Group>, t: TagTables, posts: seq<Post>, f: PostFilter): (r: Option<PostPage>)
    ensures r.None? <==> !FilterPostDtoValid(f)
    ensures r.Some? ==>
      && r.value.page == (if f.page > 0 then f.page else 1) && r.value.limit == f.limit.GetOr(DefaultLimit)
      && 1 <= r.value.limit <= 64
      && r.value.total == |PerPageMatching(users, groups, t, f, posts)|
      && |r.value.posts| <= r.value.limit && NewestFirst(r.value.posts)
      && multiset(r.value.posts)
         == multiset(Window(PerPageMatching(users, groups, t, f, posts), StartOf(f.page, r.value.limit), r.value.limit))
  {
    if !FilterPostDtoValid(f) then None
    else
      var lim := f.limit.GetOr(DefaultLimit);
      var matching := PerPageMatching(users, groups, t, f, posts);
      Some(PostPage(SortByUpdated(Window(matching, StartOf(f.page, lim), lim)), |matching|,
                    if f.page > 0 then f.page else 1, lim))
  }

  /** With no author, group or tag filter, a post without a group is listed whatever the keyword. */
  lemma KeywordIgnoredWithoutGroup(users: seq<User>, groups: seq<Group>, t: TagTables, f: PostFilter, p: Post)
    requires IsNullOrEmpty(f.author) && IsNullOrEmpty(f.group) && IsNullOrEmpty(f.tags)
    requires p.groupId.None?
    ensures PerPageMatches(users, groups, t, f, p)
  {
  }

  /**
   * Because the sort comes after the window, the first page of one post can
   * differ from the service's: of an older post stored before a newer one,
   * `GetPerPage` lists the older, `GetPostsAsync` the newer.
   */
  lemma SortAfterWindowDiffers(users: seq<User>, groups: seq<Group>, t: TagTables, older: Post, newer: Post)
    requires older.updatedAt < newer.updatedAt
    ensures GetPerPage(users, groups, t, [older, newer], PostFilter(1, Some(1), None, None, None, None)) == Some(PostPage([older], 2, 1, 1))
    ensures GetPostsAsync(users, groups, t, [older, newer], Filters(None, None, None, None), 1, Some(1)).posts == [newer]
  {
    var f := PostFilter(1, Some(1), None, None, None, None);
    var both := [older, newer];
    assert PerPageMatching(users, groups, t, f, [newer]) == [newer];
    assert PerPageMatching(users, groups, t, f, both) == both;
    assert Window(both, 0, 1) == [older];
    assert SortByUpdated([older]) == [older];
    var g := Filters(None, None, None, None);
    assert Matching(users, groups, t, g, [newer]) == [newer];
    assert Matching(users, groups, t, g, both) == both;
    assert SortByUpdated([newer]) == [newer];
    assert SortByUpdated(both) == [newer, older];
  }
}
