/**
 * `PostService`: post lookups, the hashtag links of a created or updated
 * post, the media rows of a post and the soft deletion of a post. A failed
 * operation returns its exception message instead of throwing; the
 * `Option<Error>` results here are those messages (`None` for success).
 *
 * The hashtag loops run on a `Data.Database` and are proved to end in the
 * state the functions of `PostTags` compute; what those functions achieve
 * is proved there.
 */
module PostService {
  import opened Wrappers
  import opened Text
  import opened Entities
  import opened Data
  import opened HashtagHelper
  import opened PostTags

  /** `MEDIA_ROOT`, the directory the media of a post are stored under. */
  const MediaRoot: string := "post/media"

  /** The hashtag tables of the database, as the functions of `PostTags` see them. */
  function TablesOf(db: Database): TagTables
    reads db`hashtags, db`hashtagSeq, db`postHashtags
  {
    TagTables(db.hashtags, db.hashtagSeq, db.postHashtags)
  }

  // ---------------------------------------------------------------- lookups

  /** `GetPostByIdAsync`: the first post with the id. */
  function GetPostById(posts: seq<Post>, id: nat): (r: Option<Post>)
    ensures r.Some? ==> r.value in posts && r.value.id == id
    ensures r.None? <==> KeyAbsent(posts, PostId, id)
  {
    match FindIndex(posts, PostId, id)
    case None => None
    case Some(i) => Some(posts[i])
  }

  /** `GetPostBySlugAsync`: the first post with the slug. */
  function GetPostBySlug(posts: seq<Post>, slug: string): (r: Option<Post>)
    ensures r.Some? ==> r.value in posts && r.value.slug == slug
    ensures r.None? <==> KeyAbsent(posts, PostSlug, slug)
  {
    match FindIndex(posts, PostSlug, slug)
    case None => None
    case Some(i) => Some(posts[i])
  }

  /** With unique slugs, the post a slug finds is the only one with that slug. */
  lemma GetPostBySlugUnique(posts: seq<Post>, slug: string, p: Post)
    requires UniqueBy(posts, PostSlug) && p in posts && p.slug == slug
    ensures GetPostBySlug(posts, slug) == Some(p)
  {
    var i := FindIndex(posts, PostSlug, slug).value;
    var j :| 0 <= j < |posts| && posts[j] == p;
    if i != j {
      assert PostSlug(posts[i]) == PostSlug(posts[j]);
    }
  }

  predicate InGroupBy(p: Post, groupId: nat, memberId: Option<nat>)
  {
    p.groupId == Some(groupId) && (memberId.None? || p.authorId == memberId.value)
  }

  /** `GetPostsByGroupIdAsync`: the posts of the group, only those of `memberId` when one is given. */
  function GetPostsByGroupId(posts: seq<Post>, groupId: nat, memberId: Option<nat>): (r: seq<Post>)
    ensures forall p :: p in r <==> p in posts && InGroupBy(p, groupId, memberId)
  {
    Filter(posts, (p: Post) => InGroupBy(p, groupId, memberId))
  }

  /** `GetPostsByAuthorIdAsync`: the posts of the author. */
  function GetPostsByAuthorId(posts: seq<Post>, authorId: nat): (r: seq<Post>)
    ensures forall p :: p in r <==> p in posts && p.authorId == authorId
  {
    Filter(posts, (p: Post) => p.authorId == authorId)
  }

  // ------------------------------------------------------------ hashtags

  /** `("" + content).ExtractHashtags()`: a null content has no hashtags. */
  function ContentTags(content: Option<string>): (tags: seq<string>)
    ensures NoHash(tags)
    ensures content.None? ==> tags == []
  {
    HashtagShape(content.GetOr(""));
    HashtagCount("");
    Hashtags(content.GetOr(""))
  }

  /**
   * `Hashtags.Where(Tag == tag).AsTracking().FirstOrDefault()`, and when
   * there is none, `Hashtags.AddAsync(new Hashtag { Tag = tag.Replace("#", "") })`
   * and `SaveChanges`: the id of the tag's row. Saving a new row for a tag
   * longer than the column fails, and no row is added.
   */
  method FindOrCreateHashtag(db: Database, tag: string, now: Time) returns (err: Option<Error>, id: nat)
    requires db.Valid() && '#' !in tag
    modifies db`hashtags, db`hashtagSeq
    ensures db.Valid()
    ensures err.Some? <==> !Fits(old(db.hashtags), tag)
    ensures err.Some? ==> err == Some(SaveFailed) && TablesOf(db) == old(TablesOf(db))
    ensures err.None? ==> (TablesOf(db), id) == EnsureHashtag(old(TablesOf(db)), tag, now)
  {
    match FindIndex(db.hashtags, HashtagTag, tag)
    case Some(i) =>
      id := db.hashtags[i].id;
      err := None;
      assert IdOf(db.hashtags, tag) == Some(id);
    case None =>
      assert IdOf(db.hashtags, tag).None?;
      RemoveCharAbsent(tag, '#');
      ghost var t := TablesOf(db);
      err, id := db.AddHashtag(RemoveChar(tag, '#'), now);
      if err.None? {
        assert TablesOf(db) == EnsureHashtag(t, tag, now).0;
      }
  }

  /** One pass of the tag loop: find or create the tag's row, then add and save the post's link to it. */
  method LinkTag(db: Database, postId: nat, tag: string, now: Time) returns (err: Option<Error>)
    requires db.Valid() && db.HasPost(postId) && '#' !in tag
    modifies db`hashtags, db`hashtagSeq, db`postHashtags
    ensures db.Valid() && db.HasPost(postId)
    ensures !Fits(old(db.hashtags), tag) ==> err == Some(SaveFailed) && TablesOf(db) == old(TablesOf(db))
    ensures Fits(old(db.hashtags), tag) ==>
      var t1 := EnsureHashtag(old(TablesOf(db)), tag, now).0;
      var id := EnsureHashtag(old(TablesOf(db)), tag, now).1;
      if HasLink(t1.links, postId, id) then err == Some(SaveFailed) && TablesOf(db) == t1
      else err.None? && TablesOf(db) == t1.(links := t1.links + [PostHashtag(postId, id, now)])
  {
    ghost var t0 := TablesOf(db);
    var e, id := FindOrCreateHashtag(db, tag, now);
    if e.Some? {
      return e;
    }
    ghost var t1 := TablesOf(db);
    assert (t1, id) == EnsureHashtag(t0, tag, now);
    var link := PostHashtag(postId, id, now);
    assert db.HasHashtag(id) by {
      var j :| 0 <= j < |db.hashtags| && db.hashtags[j].tag == tag && db.hashtags[j].id == id;
      assert HashtagId(db.hashtags[j]) == id;
    }
    assert db.HasPost(postId);
    assert LinkKey([link][0]) == (postId, id) && [link][0].postId == postId && [link][0].hashtagId == id;
    assert db.LinksInsertable([link]) <==> !HasLink(t1.links, postId, id);
    err := db.AddPostHashtags([link]);
    assert err.Some? ==> TablesOf(db) == t1;
    assert err.None? ==> TablesOf(db) == t1.(links := t1.links + [link]);
  }

  /**
   * The tag loop of `CreatePostAsync` (and of `PostController.Create`): for
   * each hashtag of `content`, find or create its row, then add and save a
   * link of the post to it, stopping at the first save that fails.
   */
  method LinkTags(db: Database, postId: nat, content: Option<string>, now: Time) returns (err: Option<Error>)
    requires db.Valid() && db.HasPost(postId)
    modifies db`hashtags, db`hashtagSeq, db`postHashtags
    ensures db.Valid()
    ensures (TablesOf(db), err) == LinkAll(old(TablesOf(db)), postId, ContentTags(content), now)
  {
    var tags := ExtractHashtags(content.GetOr(""));
    assert tags == ContentTags(content);
    err := LinkEach(db, postId, tags, now);
  }

  /** The loop of `LinkTags` over tags already drawn from the content. */
  method LinkEach(db: Database, postId: nat, tags: seq<string>, now: Time) returns (err: Option<Error>)
    requires db.Valid() && db.HasPost(postId) && NoHash(tags)
    modifies db`hashtags, db`hashtagSeq, db`postHashtags
    ensures db.Valid()
    ensures (TablesOf(db), err) == LinkAll(old(TablesOf(db)), postId, tags, now)
  {
    ghost var start := TablesOf(db);
    assert tags[0..] == tags;
    err := None;
    var k := 0;
    while k < |tags|
      invariant 0 <= k <= |tags|
      invariant db.Valid() && db.HasPost(postId) && err.None?
      invariant LinkAll(TablesOf(db), postId, tags[k..], now) == LinkAll(start, postId, tags, now)
    {
      ghost var before := TablesOf(db);
      err := LinkTag(db, postId, tags[k], now);
      LinkAllNext(before, TablesOf(db), err, postId, tags, k, now);
      if err.Some? {
        return;
      }
      k := k + 1;
    }
    assert tags[k..] == [];
  }

  /**
   * `CreatePostAsync`: saves the post, then links it to the hashtags of its
   * content. A post the save refuses links nothing. A content naming the
   * same hashtag twice makes the second link fail after the post and the
   * earlier links are saved.
   */
  method CreatePostAsync(db: Database, post: Post, now: Time) returns (err: Option<Error>)
    requires db.Valid()
    modifies db`posts, db`postSeq, db`hashtags, db`hashtagSeq, db`postHashtags
    ensures db.Valid()
    ensures !old(db.PostInsertable(post)) ==>
      err == Some(SaveFailed) && db.posts == old(db.posts) && TablesOf(db) == old(TablesOf(db))
    ensures old(db.PostInsertable(post)) ==>
      var id := old(db.postSeq);
      var tags := ContentTags(post.content);
      && db.posts == old(db.posts) + [post.(id := id)]
      && (TablesOf(db), err) == LinkAll(old(TablesOf(db)), id, tags, now)
      && (err.None? <==> Distinct(tags) && AllFit(old(db.hashtags), tags))
      && (err.None? ==> forall x :: Linked(TablesOf(db), id, x) <==> x in tags)
  {
    var e, id := db.AddPost(post);
    if e.Some? {
      assert !old(db.PostInsertable(post));
      return e;
    }
    assert old(db.PostInsertable(post)) && id == old(db.postSeq) && TablesOf(db) == old(TablesOf(db));
    assert db.HasPost(id) by {
      assert PostId(db.posts[|db.posts| - 1]) == id;
    }
    assert KeyAbsent(db.postHashtags, LinkPost, id);
    FreshPostLinks(TablesOf(db), id, ContentTags(post.content), now);
    err := LinkTags(db, id, post.content, now);
  }

  /** The first loop of `UpdatePostAsync`: find or create each tag's row and collect a link of the post to it. */
  method CollectTagLinks(db: Database, postId: nat, tags: seq<string>, now: Time)
    returns (batch: seq<PostHashtag>, err: Option<Error>)
    requires db.Valid() && NoHash(tags)
    modifies db`hashtags, db`hashtagSeq
    ensures db.Valid()
    ensures (TablesOf(db), batch, err) == CollectLinks(old(TablesOf(db)), postId, tags, now)
  {
    ghost var start := TablesOf(db);
    batch := [];
    assert tags[0..] == tags;
    ghost var r := CollectLinks(start, postId, tags, now);
    assert batch + r.1 == r.1;
    assert r == (r.0, r.1, r.2);
    for k := 0 to |tags|
      invariant db.Valid()
      invariant var c := CollectLinks(TablesOf(db), postId, tags[k..], now);
        CollectLinks(start, postId, tags, now) == (c.0, batch + c.1, c.2)
    {
      ghost var t := TablesOf(db);
      var e, id := FindOrCreateHashtag(db, tags[k], now);
      if e.Some? {
        CollectLinksStop(start, t, postId, tags, k, batch, now);
        return batch, e;
      }
      CollectLinksStep(start, t, postId, tags, k, batch, now);
      batch := batch + [PostHashtag(postId, id, now)];
    }
    assert tags[|tags|..] == [];
    assert CollectLinks(TablesOf(db), postId, [], now) == (TablesOf(db), [], None);
    assert batch + [] == batch;
    err := None;
  }

  /** The second loop of `UpdatePostAsync`: for each tag with a row, delete the post's link to it. */
  method RemoveTagLinks(db: Database, postId: nat, tags: seq<string>)
    requires db.Valid()
    modifies db`postHashtags
    ensures db.Valid()
    ensures db.postHashtags == Unlink(old(db.postHashtags), db.hashtags, postId, tags)
  {
    for k := 0 to |tags|
      invariant db.Valid()
      invariant Unlink(db.postHashtags, db.hashtags, postId, tags[k..]) == Unlink(old(db.postHashtags), db.hashtags, postId, tags)
    {
      assert tags[k..][0] == tags[k] && tags[k..][1..] == tags[k + 1..];
      var i := FindIndex(db.hashtags, HashtagTag, tags[k]);
      if i.Some? {
        db.DeletePostHashtag(postId, db.hashtags[i.value].id);
      }
    }
    assert tags[|tags|..] == [];
  }

  /**
   * `UpdatePostAsync`: a missing slug gives "Invalid Post"; otherwise the
   * post row is written back as it was, and when the hashtags of the old
   * and the new content differ, the added tags are linked (to the id of
   * `newPost`) and then the removed ones unlinked. `UpdateTagsDiff` states
   * what this does to the links.
   */
  method UpdatePostAsync(db: Database, slug: string, newPostId: nat, newContent: Option<string>, now: Time)
    returns (err: Option<Error>)
    requires db.Valid()
    modifies db`hashtags, db`hashtagSeq, db`postHashtags
    ensures db.Valid()
    ensures GetPostBySlug(db.posts, slug).None? ==> err == Some(InvalidPost) && TablesOf(db) == old(TablesOf(db))
    ensures GetPostBySlug(db.posts, slug).Some? ==>
      (TablesOf(db), err) == UpdateTags(old(TablesOf(db)), db.posts, newPostId,
        ContentTags(GetPostBySlug(db.posts, slug).value.content), ContentTags(newContent), now)
  {
    var i := FindIndex(db.posts, PostSlug, slug);
    if i.None? {
      return Some(InvalidPost);
    }
    var oldPost := db.posts[i.value];
    var oldTags := ExtractHashtags(oldPost.content.GetOr(""));
    var newTags := ExtractHashtags(newContent.GetOr(""));
    assert oldTags == ContentTags(oldPost.content) && newTags == ContentTags(newContent);
    err := RelinkTags(db, newPostId, oldTags, newTags, now);
  }

  /** The tag diff of `UpdatePostAsync`, once the old and the new tags are drawn. */
  method RelinkTags(db: Database, postId: nat, oldTags: seq<string>, newTags: seq<string>, now: Time)
    returns (err: Option<Error>)
    requires db.Valid() && NoHash(oldTags) && NoHash(newTags)
    modifies db`hashtags, db`hashtagSeq, db`postHashtags
    ensures db.Valid()
    ensures (TablesOf(db), err) == UpdateTags(old(TablesOf(db)), db.posts, postId, oldTags, newTags, now)
  {
    var common := Intersect(oldTags, newTags);
    if |common| == |newTags| && |common| == |oldTags| {
      return None;
    }
    var added := Except(newTags, common);
    NoHashAdded(oldTags, newTags);
    ghost var c := CollectLinks(old(TablesOf(db)), postId, added, now);
    var batch, e := CollectTagLinks(db, postId, added, now);
    if e.Some? {
      return e;
    }
    assert TablesOf(db) == c.0 && batch == c.1;
    assert db.LinksInsertable(batch) <==> LinksInsertableInto(c.0.links, db.posts, c.0.hashtags, batch);
    err := db.AddPostHashtags(batch);
    if err.Some? {
      assert TablesOf(db) == c.0;
      return;
    }
    assert db.postHashtags == c.0.links + batch;
    RemoveTagLinks(db, postId, Except(oldTags, common));
  }

  // ---------------------------------------------------------------- media

  /** An uploaded form file: its name and its length in bytes. */
  datatype FormFile = FormFile(fileName: string, length: nat)

  /** `("" + fileName).ToLower().Split('.')[^1]`: the lower-cased text after the last '.'. */
  function Extension(fileName: string): (ext: string)
    ensures '.' !in ext
  {
    var parts := Split(ToLower(fileName), '.');
    parts[|parts| - 1]
  }

  /** A join of two or more pieces ends with the separator and the last piece. */
  lemma {:induction false} JoinEndsWithLast(parts: seq<string>, c: char)
    requires |parts| >= 2
    ensures exists p: string :: Join(parts, c) == p + [c] + parts[|parts| - 1]
    decreases |parts|
  {
    var last := parts[|parts| - 1];
    if |parts| == 2 {
      assert Join(parts[1..], c) == last;
      assert Join(parts, c) == parts[0] + [c] + last;
    } else {
      JoinEndsWithLast(parts[1..], c);
      var p: string :| Join(parts[1..], c) == p + [c] + last;
      assert Join(parts, c) == (parts[0] + [c] + p) + [c] + last;
    }
  }

  /** Splitting a text that holds the separator gives at least two pieces. */
  lemma SplitAtSeparator(s: string, c: char)
    requires c in s
    ensures |Split(s, c)| >= 2
  {
  }

  /**
   * The extension is the whole lower-cased name when the name has no '.',
   * and otherwise what follows the last '.' of the lower-cased name.
   */
  lemma ExtensionMeaning(fileName: string)
    ensures '.' !in ToLower(fileName) ==> Extension(fileName) == ToLower(fileName)
    ensures '.' in ToLower(fileName) ==>
      exists p: string :: ToLower(fileName) == p + "." + Extension(fileName)
  {
    var s := ToLower(fileName);
    if '.' in s {
      var parts := Split(s, '.');
      SplitAtSeparator(s, '.');
      SplitJoin(s, '.');
      JoinEndsWithLast(parts, '.');
      var p: string :| Join(parts, '.') == p + ['.'] + parts[|parts| - 1];
      assert Extension(fileName) == parts[|parts| - 1];
      assert s == p + "." + Extension(fileName);
    } else {
      SplitWithoutSeparator(s, '.');
    }
  }

  /** The media type of an allowed extension; `None` is "Not allowed file". */
  function MediaKind(ext: string): (r: Option<MediaType>)
    ensures r.Some? <==> ext in {"jpg", "png", "jpeg", "mp3", "wav", "ogg", "mp4", "m4a", "mkv"}
    ensures r == Some(Image) <==> ext in {"jpg", "png", "jpeg"}
    ensures r == Some(Video) <==> ext in {"mp4", "m4a", "mkv"}
  {
    if ext == "jpg" || ext == "png" || ext == "jpeg" then Some(Image)
    else if ext == "mp3" || ext == "wav" || ext == "ogg" then Some(Audio)
    else if ext == "mp4" || ext == "m4a" || ext == "mkv" then Some(Video)
    else None
  }

  /** The extension of `name.ext`, where `ext` holds no '.', is `ext` in lower case. */
  lemma ExtensionAfterLastDot(name: string, ext: string)
    requires '.' !in ext
    ensures Extension(name + "." + ext) == ToLower(ext)
  {
    ToLowerAppend(name + ".", ext);
    ToLowerAppend(name, ".");
    assert ToLower(".") == ['.'];
    assert '.' !in ToLower(ext);
    SplitLastPiece(ToLower(name), ToLower(ext), '.');
  }

  /** The case of the name does not matter. */
  lemma UpperCaseImage()
    ensures MediaKind(Extension("Holiday.JPG")) == Some(Image)
  {
    assert "Holiday.JPG" == "Holiday" + "." + "JPG";
    ExtensionAfterLastDot("Holiday", "JPG");
    assert ToLower("JPG") == "jpg";
  }

  /** Only the last extension counts. */
  lemma LastExtensionCounts()
    ensures MediaKind(Extension("clip.final.mkv")) == Some(Video)
  {
    assert "clip.final.mkv" == "clip.final" + "." + "mkv";
    ExtensionAfterLastDot("clip.final", "mkv");
    assert ToLower("mkv") == "mkv";
  }

  /** An allowed extension followed by another one is not allowed. */
  lemma InnerExtensionIgnored()
    ensures MediaKind(Extension("song.mp3.txt")) == None
  {
    assert "song.mp3.txt" == "song.mp3" + "." + "txt";
    ExtensionAfterLastDot("song.mp3", "txt");
    assert ToLower("txt") == "txt";
  }

  /** A name without a '.' is its own extension: a file named "jpg" passes as an image. */
  lemma BareNameImage()
    ensures MediaKind(Extension("jpg")) == Some(Image)
  {
    assert ToLower("jpg") == "jpg";
    SplitWithoutSeparator("jpg", '.');
  }

  /** A trailing '.' leaves an empty extension, which is not allowed. */
  lemma TrailingDotRefused()
    ensures MediaKind(Extension("photo.png.")) == None
  {
    assert "photo.png." == "photo.png" + "." + "";
    ExtensionAfterLastDot("photo.png", "");
  }

  /** The files the media loop keeps: those with content, in order. */
  function NonEmptyFiles(files: seq<FormFile>): (r: seq<FormFile>)
    ensures forall f :: f in r <==> f in files && f.length > 0
  {
    if files == [] then [] else (if files[0].length > 0 then [files[0]] else []) + NonEmptyFiles(files[1..])
  }

  /** The row the media loop builds for a kept file: its path is `dir/fileName`; the id comes on insertion. */
  function MediaRow(f: FormFile, kind: MediaType, dir: string, postId: nat, now: Time): PostMedia
  {
    PostMedia(0, dir + "/" + f.fileName, kind, postId, now)
  }

  /**
   * The media loop of `CreateMediaPostAsync` (and of `PostController.Create`):
   * files without content are skipped, a file with content and a disallowed
   * extension ends it with "Not allowed file" (`None` here), and every other
   * file gives one row.
   */
  function MediaRows(files: seq<FormFile>, dir: string, postId: nat, now: Time): (r: Option<seq<PostMedia>>)
    decreases |files|
  {
    if files == [] then Some([])
    else
      var rest := MediaRows(files[1..], dir, postId, now);
      var f := files[0];
      if f.length == 0 then rest
      else match MediaKind(Extension(f.fileName))
        case None => None
        case Some(kind) => if rest.None? then None else Some([MediaRow(f, kind, dir, postId, now)] + rest.value)
  }

  /** A file with content and a disallowed extension. */
  predicate Refused(f: FormFile)
  {
    f.length > 0 && MediaKind(Extension(f.fileName)).None?
  }

  /**
   * The media loop fails exactly when some file with content has a
   * disallowed extension; otherwise it gives one row per file with content,
   * in order, at `dir/fileName`, with that file's media type, for the post.
   */
  lemma {:induction false} MediaRowsMeaning(files: seq<FormFile>, dir: string, postId: nat, now: Time)
    ensures MediaRows(files, dir, postId, now).None? <==> exists k | 0 <= k < |files| :: Refused(files[k])
    ensures MediaRows(files, dir, postId, now).Some? ==>
      var rows := MediaRows(files, dir, postId, now).value;
      var kept := NonEmptyFiles(files);
      && |rows| == |kept|
      && forall k | 0 <= k < |kept| ::
           && rows[k].path == dir + "/" + kept[k].fileName
           && Some(rows[k].mediaType) == MediaKind(Extension(kept[k].fileName))
           && rows[k].postId == postId && rows[k].createdAt == now
  {
    MediaRowsRefused(files, dir, postId, now);
    if MediaRows(files, dir, postId, now).Some? {
      MediaRowsShape(files, dir, postId, now);
    }
  }

  /** The media loop fails exactly when some file with content has a disallowed extension. */
  lemma {:induction false} MediaRowsRefused(files: seq<FormFile>, dir: string, postId: nat, now: Time)
    ensures MediaRows(files, dir, postId, now).None? <==> exists k | 0 <= k < |files| :: Refused(files[k])
    decreases |files|
  {
    if files != [] {
      MediaRowsRefused(files[1..], dir, postId, now);
      assert forall k | 1 <= k < |files| :: files[k] == files[1..][k - 1];
      if exists k | 0 <= k < |files[1..]| :: Refused(files[1..][k]) {
        var k :| 0 <= k < |files[1..]| && Refused(files[1..][k]);
        assert Refused(files[k + 1]);
      }
    }
  }

  /** `rows` are the media rows of the files `kept`, one per file, in order. */
  predicate RowsFor(rows: seq<PostMedia>, kept: seq<FormFile>, dir: string, postId: nat, now: Time)
  {
    && |rows| == |kept|
    && forall k | 0 <= k < |kept| ::
         && rows[k].path == dir + "/" + kept[k].fileName
         && Some(rows[k].mediaType) == MediaKind(Extension(kept[k].fileName))
         && rows[k].postId == postId && rows[k].createdAt == now
  }

  /** The row of an allowed file, put before the rows of the files after it, gives the rows of them all. */
  lemma RowsForCons(f: FormFile, kind: MediaType, rest: seq<PostMedia>, kept: seq<FormFile>, dir: string, postId: nat,
                    now: Time)
    requires MediaKind(Extension(f.fileName)) == Some(kind) && RowsFor(rest, kept, dir, postId, now)
    ensures RowsFor([MediaRow(f, kind, dir, postId, now)] + rest, [f] + kept, dir, postId, now)
  {
    var rows := [MediaRow(f, kind, dir, postId, now)] + rest;
    forall k | 1 <= k < |rows| ensures rows[k] == rest[k - 1] && ([f] + kept)[k] == kept[k - 1] {}
  }

  /** A successful media loop gives one row per file with content, in order. */
  lemma {:induction false} MediaRowsShape(files: seq<FormFile>, dir: string, postId: nat, now: Time)
    requires MediaRows(files, dir, postId, now).Some?
    ensures RowsFor(MediaRows(files, dir, postId, now).value, NonEmptyFiles(files), dir, postId, now)
    decreases |files|
  {
    if files != [] {
      var f := files[0];
      MediaRowsShape(files[1..], dir, postId, now);
      var rest := MediaRows(files[1..], dir, postId, now).value;
      if f.length > 0 {
        var kind := MediaKind(Extension(f.fileName)).value;
        assert MediaRows(files, dir, postId, now).value == [MediaRow(f, kind, dir, postId, now)] + rest;
        assert NonEmptyFiles(files) == [f] + NonEmptyFiles(files[1..]);
        RowsForCons(f, kind, rest, NonEmptyFiles(files[1..]), dir, postId, now);
      } else {
        assert MediaRows(files, dir, postId, now).value == rest;
        assert NonEmptyFiles(files) == [] + NonEmptyFiles(files[1..]) == NonEmptyFiles(files[1..]);
      }
    }
  }

  function Prepend(rows: seq<PostMedia>, r: Option<seq<PostMedia>>): Option<seq<PostMedia>>
  {
    if r.None? then None else Some(rows + r.value)
  }

  /**
   * Runs the media loop, then `PostMedia.AddRange` and `SaveChanges` of the
   * rows: nothing is inserted when a file is refused.
   */
  method SaveMedia(db: Database, postId: nat, dir: string, files: seq<FormFile>, now: Time) returns (err: Option<Error>)
    requires db.Valid()
    modifies db`media, db`mediaSeq
    ensures db.Valid()
    ensures MediaRows(files, dir, postId, now).None? ==>
      err == Some(NotAllowedFile) && db.media == old(db.media) && db.mediaSeq == old(db.mediaSeq)
    ensures MediaRows(files, dir, postId, now).Some? ==>
      var rows := MediaRows(files, dir, postId, now).value;
      err.None? && db.media == old(db.media) + Numbered(rows, old(db.mediaSeq)) && db.mediaSeq == old(db.mediaSeq) + |rows|
  {
    var rows := [];
    assert files[0..] == files;
    ghost var all := MediaRows(files, dir, postId, now);
    assert all.Some? ==> rows + all.value == all.value;
    for k := 0 to |files|
      invariant MediaRows(files, dir, postId, now) == Prepend(rows, MediaRows(files[k..], dir, postId, now))
    {
      var f := files[k];
      assert files[k..][0] == f && files[k..][1..] == files[k + 1..];
      if f.length > 0 {
        var kind := MediaKind(Extension(f.fileName));
        if kind.None? {
          return Some(NotAllowedFile);
        }
        var row := MediaRow(f, kind.value, dir, postId, now);
        ghost var rest := MediaRows(files[k + 1..], dir, postId, now);
        assert rest.Some? ==> rows + ([row] + rest.value) == (rows + [row]) + rest.value;
        rows := rows + [row];
      }
    }
    assert files[|files|..] == [];
    assert rows + [] == rows;
    db.AddMedia(rows);
    err := None;
  }

  /** `GetPath(userId, post)`: `post/media/<userId>/<slug>`. */
  function MediaDir(userId: nat, slug: string): string
  {
    MediaRoot + "/" + Decimal(userId) + "/" + slug
  }

  /** What a media upload to the post with the slug comes to: an error, or the rows to insert. */
  datatype MediaPlan = Refusal(error: Error) | Upload(rows: seq<PostMedia>)

  function PlanMedia(posts: seq<Post>, slug: string, files: Option<seq<FormFile>>, now: Time): MediaPlan
  {
    match GetPostBySlug(posts, slug)
    case None => Refusal(InvalidPostLowerCase)
    case Some(post) =>
      match MediaRows(files.GetOr([]), MediaDir(post.authorId, post.slug), post.id, now)
      case None => Refusal(NotAllowedFile)
      case Some(rows) => Upload(rows)
  }

  /**
   * An upload is rejected with "Invalid post" exactly when no post has the
   * slug, and with "Not allowed file" exactly when some file with content
   * has a disallowed extension; every accepted row belongs to the post and
   * lies in its media directory.
   */
  lemma PlanMediaMeaning(posts: seq<Post>, slug: string, files: Option<seq<FormFile>>, now: Time)
    ensures PlanMedia(posts, slug, files, now) == Refusal(InvalidPostLowerCase) <==> KeyAbsent(posts, PostSlug, slug)
    ensures PlanMedia(posts, slug, files, now) == Refusal(NotAllowedFile) <==>
      !KeyAbsent(posts, PostSlug, slug) && files.Some? && exists k | 0 <= k < |files.value| :: Refused(files.value[k])
    ensures PlanMedia(posts, slug, files, now).Upload? ==>
      var post := GetPostBySlug(posts, slug).value;
      var rows := PlanMedia(posts, slug, files, now).rows;
      forall k | 0 <= k < |rows| ::
        rows[k].postId == post.id && IsPrefix(MediaDir(post.authorId, slug) + "/", rows[k].path)
  {
    var fs := files.GetOr([]);
    match GetPostBySlug(posts, slug)
    case None =>
    case Some(post) =>
      var dir := MediaDir(post.authorId, post.slug);
      MediaRowsMeaning(fs, dir, post.id, now);
      match MediaRows(fs, dir, post.id, now)
      case None =>
      case Some(rows) =>
        forall k | 0 <= k < |rows| ensures IsPrefix(dir + "/", rows[k].path)
        {
          var f := NonEmptyFiles(fs)[k];
          assert rows[k].path == (dir + "/") + f.fileName;
        }
  }

  /**
   * `CreateMediaPostAsync`: finds the post by its slug and saves the rows of
   * its uploaded files under `post/media/<author id>/<slug>`. Writing the
   * files themselves to disk is not part of this model.
   */
  method CreateMediaPostAsync(db: Database, slug: string, files: Option<seq<FormFile>>, now: Time) returns (err: Option<Error>)
    requires db.Valid()
    modifies db`media, db`mediaSeq
    ensures db.Valid()
    ensures PlanMedia(db.posts, slug, files, now).Refusal? ==>
      err == Some(PlanMedia(db.posts, slug, files, now).error) && db.media == old(db.media) && db.mediaSeq == old(db.mediaSeq)
    ensures PlanMedia(db.posts, slug, files, now).Upload? ==>
      var rows := PlanMedia(db.posts, slug, files, now).rows;
      err.None? && db.media == old(db.media) + Numbered(rows, old(db.mediaSeq)) && db.mediaSeq == old(db.mediaSeq) + |rows|
  {
    var i := FindIndex(db.posts, PostSlug, slug);
    if i.None? {
      return Some(InvalidPostLowerCase);
    }
    var post := db.posts[i.value];
    if files.Some? && |files.value| > 0 {
      err := SaveMedia(db, post.id, MediaDir(post.authorId, post.slug), files.value, now);
    } else {
      assert Numbered([], db.mediaSeq) == [];
      err := None;
    }
  }

  /** The media rows whose id is not listed in `ids`, in order. */
  function DropIds(media: seq<PostMedia>, ids: seq<nat>): (r: seq<PostMedia>)
    ensures forall m :: m in r <==> m in media && m.id !in ids
  {
    if media == [] then [] else (if media[0].id in ids then [] else [media[0]]) + DropIds(media[1..], ids)
  }

  lemma {:induction false} DropNoIds(media: seq<PostMedia>)
    ensures DropIds(media, []) == media
  {
    if media != [] {
      DropNoIds(media[1..]);
    }
  }

  /** Deleting the rows with one more id is dropping that id too. */
  lemma {:induction false} WithoutDropIds(media: seq<PostMedia>, ids: seq<nat>, x: nat)
    ensures Without(DropIds(media, ids), MediaId, x) == DropIds(media, ids + [x])
  {
    if media != [] {
      WithoutDropIds(media[1..], ids, x);
      var d := DropIds(media, ids);
      if media[0].id in ids {
        assert d == DropIds(media[1..], ids);
      } else {
        assert d[0] == media[0] && d[1..] == DropIds(media[1..], ids);
      }
    }
  }

  /** Only the ids the rows actually have matter. */
  lemma {:induction false} DropIdsSame(media: seq<PostMedia>, a: seq<nat>, b: seq<nat>)
    requires forall i | 0 <= i < |media| :: media[i].id in a <==> media[i].id in b
    ensures DropIds(media, a) == DropIds(media, b)
  {
    if media != [] {
      assert forall i | 0 <= i < |media[1..]| :: media[1..][i] == media[i + 1];
      DropIdsSame(media[1..], a, b);
    }
  }

  /** The ids of media rows, in order. */
  function IdsOf(media: seq<PostMedia>): (r: seq<nat>)
    ensures |r| == |media| && forall i | 0 <= i < |media| :: r[i] == media[i].id
  {
    if media == [] then [] else IdsOf(media[..|media| - 1]) + [media[|media| - 1].id]
  }

  /**
   * The deletion part of `UpdateMediaPostAsync`: fetch the media rows whose
   * id is listed, whatever post they belong to, and delete each of them.
   */
  method RemoveMedia(db: Database, ids: seq<nat>)
    requires db.Valid()
    modifies db`media
    ensures db.Valid()
    ensures db.media == DropIds(old(db.media), ids)
  {
    var found := Filter(db.media, (m: PostMedia) => m.id in ids);
    DropFoundIds(db.media, found, ids);
    DeleteMediaRows(db, found);
  }

  /** Deletes the media rows with the ids of `found`, one `ExecuteDelete` each. */
  method DeleteMediaRows(db: Database, found: seq<PostMedia>)
    requires db.Valid()
    modifies db`media
    ensures db.Valid()
    ensures db.media == DropIds(old(db.media), IdsOf(found))
  {
    ghost var start := db.media;
    DropNoIds(start);
    assert IdsOf(found[..0]) == [];
    for k := 0 to |found|
      invariant db.Valid()
      invariant db.media == DropIds(start, IdsOf(found[..k]))
    {
      WithoutDropIds(start, IdsOf(found[..k]), found[k].id);
      assert found[..k + 1][..k] == found[..k];
      db.DeleteMediaRow(found[k].id);
    }
    assert found[..|found|] == found;
  }

  /** Dropping the ids of the rows found by id is dropping the ids looked for. */
  lemma DropFoundIds(media: seq<PostMedia>, found: seq<PostMedia>, ids: seq<nat>)
    requires forall i | 0 <= i < |found| :: found[i].id in ids
    requires forall i | 0 <= i < |media| :: media[i].id in ids ==> media[i] in found
    ensures DropIds(media, IdsOf(found)) == DropIds(media, ids)
  {
    forall i | 0 <= i < |media| ensures media[i].id in IdsOf(found) <==> media[i].id in ids
    {
      if media[i].id in ids {
        var j :| 0 <= j < |found| && found[j] == media[i];
        assert IdsOf(found)[j] == media[i].id;
      }
    }
    DropIdsSame(media, IdsOf(found), ids);
  }

  /**
   * `UpdateMediaPostAsync`: first the upload of `CreateMediaPostAsync`,
   * whose error is returned as it is; then the media rows with the listed
   * ids are deleted.
   */
  method UpdateMediaPostAsync(db: Database, slug: string, newFiles: Option<seq<FormFile>>, deletedIds: Option<seq<nat>>, now: Time)
    returns (err: Option<Error>)
    requires db.Valid()
    modifies db`media, db`mediaSeq
    ensures db.Valid()
    ensures PlanMedia(db.posts, slug, newFiles, now).Refusal? ==>
      err == Some(PlanMedia(db.posts, slug, newFiles, now).error) && db.media == old(db.media)
    ensures PlanMedia(db.posts, slug, newFiles, now).Upload? ==>
      var rows := PlanMedia(db.posts, slug, newFiles, now).rows;
      && err.None?
      && db.media == DropIds(old(db.media) + Numbered(rows, old(db.mediaSeq)), deletedIds.GetOr([]))
  {
    err := CreateMediaPostAsync(db, slug, newFiles, now);
    if err.Some? {
      return;
    }
    if deletedIds.Some? && |deletedIds.value| > 0 {
      RemoveMedia(db, deletedIds.value);
    } else {
      DropNoIds(db.media);
    }
  }

  // ------------------------------------------------------------- deletion

  /**
   * The authorisation of `DeletePostAsync` and `DeletePostBySlugAsync`: the
   * author may delete the post; anybody else only when the post is in a
   * group and they created it. A post naming a group that has no row fails
   * on the null `Group` navigation.
   */
  function DeleteCheck(groups: seq<Group>, post: Post, userId: Option<nat>): (r: Option<Error>)
    ensures r.Some? ==> r == Some(NotAllowedToDeletePost) || r == Some(NullReference)
  {
    if userId == Some(post.authorId) then None
    else if post.groupId.None? then Some(NotAllowedToDeletePost)
    else match FindIndex(groups, GroupId, post.groupId.value)
      case None => Some(NullReference)
      case Some(g) => if userId != Some(groups[g].creatorId) then Some(NotAllowedToDeletePost) else None
  }

  /** Deletion is allowed exactly for the author and for the creator of the post's group. */
  lemma DeleteAllowed(groups: seq<Group>, post: Post, userId: Option<nat>)
    requires UniqueBy(groups, GroupId)
    ensures DeleteCheck(groups, post, userId).None? <==>
      || userId == Some(post.authorId)
      || (post.groupId.Some? && exists i | 0 <= i < |groups| ::
            groups[i].id == post.groupId.value && userId == Some(groups[i].creatorId))
    ensures DeleteCheck(groups, post, userId) == Some(NullReference) <==>
      userId != Some(post.authorId) && post.groupId.Some? && KeyAbsent(groups, GroupId, post.groupId.value)
  {
    if userId != Some(post.authorId) && post.groupId.Some? {
      match FindIndex(groups, GroupId, post.groupId.value)
      case None =>
      case Some(g) =>
        assert forall i | 0 <= i < |groups| && groups[i].id == post.groupId.value :: i == g;
    }
  }

  /** The posts with row `i` soft-deleted at `t`: only that row's `DeletedAt` changes. */
  function SoftDeleted(posts: seq<Post>, i: nat, t: Time): (r: seq<Post>)
    requires i < |posts|
    ensures |r| == |posts| && forall j | 0 <= j < |posts| && j != i :: r[j] == posts[j]
    ensures r[i].deletedAt == Some(t) && r[i].(deletedAt := posts[i].deletedAt) == posts[i]
  {
    posts[i := posts[i].(deletedAt := Some(t))]
  }

  /**
   * The outcome of deleting the post found at `found`: "Deletion Failed"
   * when there is none, the authorisation error, "Failed to delete post"
   * when the save writes nothing because `DeletedAt` already holds `t`, and
   * success otherwise.
   */
  function DeleteOutcome(groups: seq<Group>, posts: seq<Post>, found: Option<nat>, t: Time, userId: Option<nat>)
    : (r: Option<Error>)
    requires found.Some? ==> found.value < |posts|
    ensures r.None? ==> found.Some? && DeleteCheck(groups, posts[found.value], userId).None?
    ensures found.None? ==> r == Some(DeletionFailed)
    ensures found.Some? && DeleteCheck(groups, posts[found.value], userId).Some? ==>
      r == DeleteCheck(groups, posts[found.value], userId)
    ensures found.Some? && DeleteCheck(groups, posts[found.value], userId).None? ==>
      (r.None? <==> posts[found.value].deletedAt != Some(t)) && (r.Some? ==> r == Some(FailedToDeletePost))
  {
    if found.None? then Some(DeletionFailed)
    else
      var check := DeleteCheck(groups, posts[found.value], userId);
      if check.Some? then check
      else if posts[found.value].deletedAt == Some(t) then Some(FailedToDeletePost)
      else None
  }

  /** The shared body of the two deletions once the post is looked up. */
  method DeleteFound(db: Database, found: Option<nat>, deletedAt: Time, userId: Option<nat>) returns (err: Option<Error>)
    requires db.Valid() && (found.Some? ==> found.value < |db.posts|)
    modifies db`posts
    ensures db.Valid()
    ensures err == DeleteOutcome(db.groups, old(db.posts), found, deletedAt, userId)
    ensures err.Some? ==> db.posts == old(db.posts)
    ensures err.None? ==> db.posts == SoftDeleted(old(db.posts), found.value, deletedAt)
  {
    if found.None? {
      return Some(DeletionFailed);
    }
    var i := found.value;
    err := DeleteCheck(db.groups, db.posts[i], userId);
    if err.Some? {
      return;
    }
    var saved := db.SetPostDeletedAt(i, deletedAt);
    if saved == 0 {
      return Some(FailedToDeletePost);
    }
  }

  /** `DeletePostAsync`: soft-deletes the post with the id, for its author or its group's creator. */
  method DeletePostAsync(db: Database, postId: nat, deletedAt: Time, userId: Option<nat>) returns (err: Option<Error>)
    requires db.Valid()
    modifies db`posts
    ensures db.Valid()
    ensures var found := FindIndex(old(db.posts), PostId, postId);
      && err == DeleteOutcome(db.groups, old(db.posts), found, deletedAt, userId)
      && (err.Some? ==> db.posts == old(db.posts))
      && (err.None? ==> db.posts == SoftDeleted(old(db.posts), found.value, deletedAt))
  {
    err := DeleteFound(db, FindIndex(db.posts, PostId, postId), deletedAt, userId);
  }

  /** `DeletePostBySlugAsync`: the same deletion, the post found by its slug. */
  method DeletePostBySlugAsync(db: Database, slug: string, deletedAt: Time, userId: Option<nat>) returns (err: Option<Error>)
    requires db.Valid()
    modifies db`posts
    ensures db.Valid()
    ensures var found := FindIndex(old(db.posts), PostSlug, slug);
      && err == DeleteOutcome(db.groups, old(db.posts), found, deletedAt, userId)
      && (err.Some? ==> db.posts == old(db.posts))
      && (err.None? ==> db.posts == SoftDeleted(old(db.posts), found.value, deletedAt))
  {
    err := DeleteFound(db, FindIndex(db.posts, PostSlug, slug), deletedAt, userId);
  }
}
