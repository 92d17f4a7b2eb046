/**
 * `ReactionController`: reacting to a post or a comment, and deleting a
 * reaction. A reaction is an upsert keyed on (user, post) or (user,
 * comment): a user's second reaction rewrites the first instead of adding
 * a row. Deletion removes the row with the id, whoever owns it. The current
 * user comes from `TokenService.GetUser`; an unknown post or comment is a
 * 404 without a body, written `NotFound("")`.
 * The methods write only tables that `Data.Database.Valid` does not read,
 * so a caller's `Valid()` is kept by their `modifies` frames alone.
 */
module ReactionController {
  import opened Wrappers
  import opened Entities
  import opened Data
  import opened TokenService

  /** The pair a post reaction is looked up by. */
  function PostPair(r: PostReaction): (nat, nat) { (r.userId, r.postId) }

  /** The pair a comment reaction is looked up by. */
  function CommentPair(r: CommentReaction): (nat, nat) { (r.userId, r.commentId) }

  /** The first row with key `k` rewritten by `update`, or `added` appended when there is none. */
  function Upsert<T, K(==)>(rows: seq<T>, key: T -> K, k: K, added: T, update: T -> T): seq<T>
  {
    match FindIndex(rows, key, k)
    case None => rows + [added]
    case Some(i) => rows[i := update(rows[i])]
  }

  /**
   * When `added` has the key and `update` keeps keys, the upsert adds a row
   * only when the key is new, leaves every row with another key alone,
   * leaves a row with the key in place (`added` or an updated row), and
   * keeps the keys unique.
   */
  lemma UpsertMeaning<T, K>(rows: seq<T>, key: T -> K, k: K, added: T, update: T -> T)
    requires key(added) == k
    requires forall x :: key(update(x)) == key(x)
    ensures var r := Upsert(rows, key, k, added, update);
      && |r| == |rows| + (if KeyAbsent(rows, key, k) then 1 else 0)
      && (forall i | 0 <= i < |rows| && key(rows[i]) != k :: r[i] == rows[i])
      && (KeyAbsent(rows, key, k) ==> r[|rows|] == added)
      && (!KeyAbsent(rows, key, k) ==> exists i | 0 <= i < |rows| :: key(rows[i]) == k && r[i] == update(rows[i]))
      && (UniqueBy(rows, key) ==> UniqueBy(r, key))
  {
    match FindIndex(rows, key, k)
    case None =>
      if UniqueBy(rows, key) {
        UniqueAppend(rows, added, key);
      }
    case Some(i) =>
      if UniqueBy(rows, key) {
        UniqueUpdate(rows, i, update(rows[i]), key);
      }
  }

  /** The post reactions after user `userId` reacts with `kind` to post `postId`. */
  function ReactedPost(rows: seq<PostReaction>, userId: nat, postId: nat, kind: ReactionType, nextId: nat, now: Time)
    : seq<PostReaction>
  {
    Upsert(rows, PostPair, (userId, postId), PostReaction(nextId, kind, userId, postId, now, now),
           (x: PostReaction) => x.(kind := kind, updatedAt := now))
  }

  /** The comment reactions after user `userId` reacts with `kind` to comment `commentId`. */
  function ReactedComment(rows: seq<CommentReaction>, userId: nat, commentId: nat, kind: ReactionType, nextId: nat,
                          now: Time): seq<CommentReaction>
  {
    Upsert(rows, CommentPair, (userId, commentId), CommentReaction(nextId, kind, userId, commentId, now, now),
           (x: CommentReaction) => x.(kind := kind, updatedAt := now))
  }

  /**
   * Reacting to a post keeps at most one reaction per (user, post): a first
   * reaction adds one row of the kind, a later one adds none and gives the
   * existing row the kind; other users' and other posts' rows stay.
   */
  lemma ReactPostOnePerPair(rows: seq<PostReaction>, userId: nat, postId: nat, kind: ReactionType, nextId: nat, now: Time)
    ensures var r := ReactedPost(rows, userId, postId, kind, nextId, now);
      && |r| == |rows| + (if KeyAbsent(rows, PostPair, (userId, postId)) then 1 else 0)
      && (forall i | 0 <= i < |rows| && PostPair(rows[i]) != (userId, postId) :: r[i] == rows[i])
      && (exists i | 0 <= i < |r| :: PostPair(r[i]) == (userId, postId) && r[i].kind == kind && r[i].updatedAt == now)
      && (UniqueBy(rows, PostPair) ==> UniqueBy(r, PostPair))
  {
    var update := (x: PostReaction) => x.(kind := kind, updatedAt := now);
    var added := PostReaction(nextId, kind, userId, postId, now, now);
    UpsertMeaning(rows, PostPair, (userId, postId), added, update);
    var r := ReactedPost(rows, userId, postId, kind, nextId, now);
    if KeyAbsent(rows, PostPair, (userId, postId)) {
      assert PostPair(r[|rows|]) == (userId, postId);
    }
  }

  /** The same upsert, keyed on (user, comment). */
  lemma ReactCommentOnePerPair(rows: seq<CommentReaction>, userId: nat, commentId: nat, kind: ReactionType, nextId: nat,
                               now: Time)
    ensures var r := ReactedComment(rows, userId, commentId, kind, nextId, now);
      && |r| == |rows| + (if KeyAbsent(rows, CommentPair, (userId, commentId)) then 1 else 0)
      && (forall i | 0 <= i < |rows| && CommentPair(rows[i]) != (userId, commentId) :: r[i] == rows[i])
      && (exists i | 0 <= i < |r| :: CommentPair(r[i]) == (userId, commentId) && r[i].kind == kind && r[i].updatedAt == now)
      && (UniqueBy(rows, CommentPair) ==> UniqueBy(r, CommentPair))
  {
    var update := (x: CommentReaction) => x.(kind := kind, updatedAt := now);
    var added := CommentReaction(nextId, kind, userId, commentId, now, now);
    UpsertMeaning(rows, CommentPair, (userId, commentId), added, update);
    var r := ReactedComment(rows, userId, commentId, kind, nextId, now);
    if KeyAbsent(rows, CommentPair, (userId, commentId)) {
      assert CommentPair(r[|rows|]) == (userId, commentId);
    }
  }

  /** Reacting twice with the same kind at the same time is reacting once. */
  lemma ReactPostIdempotent(rows: seq<PostReaction>, userId: nat, postId: nat, kind: ReactionType, nextId: nat, now: Time)
    ensures var once := ReactedPost(rows, userId, postId, kind, nextId, now);
      ReactedPost(once, userId, postId, kind, nextId + 1, now) == once
  {
    var once := ReactedPost(rows, userId, postId, kind, nextId, now);
    var k := (userId, postId);
    match FindIndex(rows, PostPair, k)
    case None =>
      FindIndexAppendNew(rows, PostReaction(nextId, kind, userId, postId, now, now), PostPair);
    case Some(i) =>
      var f := FindIndex(once, PostPair, k);
      assert once == rows[i := rows[i].(kind := kind, updatedAt := now)];
      assert PostPair(once[i]) == k;
      assert once[..i] == rows[..i];
      assert f == Some(i);
  }

  /** What a reaction request answers, the reaction rows after it, and the next identity value. */
  datatype Reacted<R> = Reacted(reply: Reply, rows: seq<R>, nextId: nat)

  /**
   * The decision of `ReactPost` over the table values: no session is
   * Unauthorized, an unknown slug a bare 404, and otherwise the upsert on
   * (current user, post), which keeps one reaction per pair.
   */
  function ReactPostOutcome(users: seq<User>, tokens: seq<UserToken>, posts: seq<Post>, rows: seq<PostReaction>,
                            nextId: nat, header: string, jwt: Jwt, slug: string, kind: ReactionType, now: Time)
    : (r: Reacted<PostReaction>)
    ensures var user := GetUser(users, tokens, header, jwt, now);
      var post := FindIndex(posts, PostSlug, slug);
      && (user.None? ==> r == Reacted(Unauthorized, rows, nextId))
      && (user.Some? && post.None? ==> r == Reacted(NotFound(""), rows, nextId))
      && (user.Some? && post.Some? ==>
            var pair := (user.value.id, posts[post.value].id);
            && r.reply == Ok("Successfully Reacted", None)
            && r.rows == ReactedPost(rows, pair.0, pair.1, kind, nextId, now)
            && r.nextId == nextId + (if KeyAbsent(rows, PostPair, pair) then 1 else 0)
            && |r.rows| == |rows| + (r.nextId - nextId)
            && (exists i | 0 <= i < |r.rows| :: PostPair(r.rows[i]) == pair && r.rows[i].kind == kind))
    ensures UniqueBy(rows, PostPair) ==> UniqueBy(r.rows, PostPair)
  {
    var user := GetUser(users, tokens, header, jwt, now);
    if user.None? then Reacted(Unauthorized, rows, nextId)
    else
      var post := FindIndex(posts, PostSlug, slug);
      if post.None? then Reacted(NotFound(""), rows, nextId)
      else
        var pair := (user.value.id, posts[post.value].id);
        ReactPostOnePerPair(rows, pair.0, pair.1, kind, nextId, now);
        Reacted(Ok("Successfully Reacted", None), ReactedPost(rows, pair.0, pair.1, kind, nextId, now),
                nextId + (if KeyAbsent(rows, PostPair, pair) then 1 else 0))
  }

  /** `ReactPost`: the upsert on (current user, post with the slug), saved. */
  method ReactPost(db: Database, header: string, jwt: Jwt, slug: string, kind: ReactionType, now: Time)
    returns (reply: Reply)
    modifies db`postReactions, db`postReactionSeq
    ensures Reacted(reply, db.postReactions, db.postReactionSeq)
            == ReactPostOutcome(db.users, db.tokens, db.posts, old(db.postReactions), old(db.postReactionSeq),
                                header, jwt, slug, kind, now)
  {
    var out := ReactPostOutcome(db.users, db.tokens, db.posts, db.postReactions, db.postReactionSeq,
                                header, jwt, slug, kind, now);
    reply := out.reply;
    db.postReactions, db.postReactionSeq := out.rows, out.nextId;
  }

  /**
   * The decision of `ReactComment` over the table values: no session is
   * Unauthorized, an unknown comment a bare 404, and otherwise the upsert on
   * (current user, comment), which keeps one reaction per pair.
   */
  function ReactCommentOutcome(users: seq<User>, tokens: seq<UserToken>, comments: seq<Comment>,
                               rows: seq<CommentReaction>, nextId: nat, header: string, jwt: Jwt, commentId: nat,
                               kind: ReactionType, now: Time)
    : (r: Reacted<CommentReaction>)
    ensures var user := GetUser(users, tokens, header, jwt, now);
      var comment := FindIndex(comments, CommentId, commentId);
      && (user.None? ==> r == Reacted(Unauthorized, rows, nextId))
      && (user.Some? && comment.None? ==> r == Reacted(NotFound(""), rows, nextId))
      && (user.Some? && comment.Some? ==>
            var pair := (user.value.id, commentId);
            && r.reply == Ok("Successfully Reacted", None)
            && r.rows == ReactedComment(rows, pair.0, pair.1, kind, nextId, now)
            && r.nextId == nextId + (if KeyAbsent(rows, CommentPair, pair) then 1 else 0)
            && |r.rows| == |rows| + (r.nextId - nextId)
            && (exists i | 0 <= i < |r.rows| :: CommentPair(r.rows[i]) == pair && r.rows[i].kind == kind))
    ensures UniqueBy(rows, CommentPair) ==> UniqueBy(r.rows, CommentPair)
  {
    var user := GetUser(users, tokens, header, jwt, now);
    if user.None? then Reacted(Unauthorized, rows, nextId)
    else
      var comment := FindIndex(comments, CommentId, commentId);
      if comment.None? then Reacted(NotFound(""), rows, nextId)
      else
        var pair := (user.value.id, commentId);
        ReactCommentOnePerPair(rows, pair.0, pair.1, kind, nextId, now);
        Reacted(Ok("Successfully Reacted", None), ReactedComment(rows, pair.0, pair.1, kind, nextId, now),
                nextId + (if KeyAbsent(rows, CommentPair, pair) then 1 else 0))
  }

  /** `ReactComment`: the upsert on (current user, comment with the id), saved. */
  method ReactComment(db: Database, header: string, jwt: Jwt, commentId: nat, kind: ReactionType, now: Time)
    returns (reply: Reply)
    modifies db`commentReactions, db`commentReactionSeq
    ensures Reacted(reply, db.commentReactions, db.commentReactionSeq)
            == ReactCommentOutcome(db.users, db.tokens, db.comments, old(db.commentReactions),
                                   old(db.commentReactionSeq), header, jwt, commentId, kind, now)
  {
    var out := ReactCommentOutcome(db.users, db.tokens, db.comments, db.commentReactions, db.commentReactionSeq,
                                   header, jwt, commentId, kind, now);
    reply := out.reply;
    db.commentReactions, db.commentReactionSeq := out.rows, out.nextId;
  }

  /**
   * Deleting by id removes exactly the rows with that id, and keeps at most
   * one reaction per (user, post).
   */
  lemma DeleteReactionMeaning(rows: seq<PostReaction>, id: nat)
    ensures var r := Without(rows, PostReactionId, id);
      && KeyAbsent(r, PostReactionId, id)
      && (forall i | 0 <= i < |rows| && rows[i].id != id :: rows[i] in r)
      && (UniqueBy(rows, PostPair) ==> UniqueBy(r, PostPair))
  {
    if UniqueBy(rows, PostPair) {
      WithoutUnique(rows, PostReactionId, id, PostPair);
    }
  }

  /** `DeletePost`: `ExecuteDelete` of the post reaction with the id, whoever owns it. */
  method DeletePost(db: Database, header: string, jwt: Jwt, id: nat, now: Time) returns (reply: Reply)
    modifies db`postReactions
    ensures var user := GetUser(db.users, db.tokens, header, jwt, now);
      && (user.None? ==> reply == Unauthorized && db.postReactions == old(db.postReactions))
      && (user.Some? ==>
            reply == Ok("Reaction Deleted Successfully", None) && db.postReactions == Without(old(db.postReactions), PostReactionId, id))
  {
    var user := GetUser(db.users, db.tokens, header, jwt, now);
    if user.None? {
      return Unauthorized;
    }
    db.postReactions := Without(db.postReactions, PostReactionId, id);
    reply := Ok("Reaction Deleted Successfully", None);
  }

  /** `DeleteComment`: `ExecuteDelete` of the comment reaction with the id, whoever owns it. */
  method DeleteComment(db: Database, header: string, jwt: Jwt, id: nat, now: Time) returns (reply: Reply)
    modifies db`commentReactions
    ensures var user := GetUser(db.users, db.tokens, header, jwt, now);
      && (user.None? ==> reply == Unauthorized && db.commentReactions == old(db.commentReactions))
      && (user.Some? ==>
            && reply == Ok("Reaction Deleted Successfully", None)
            && db.commentReactions == Without(old(db.commentReactions), CommentReactionId, id))
  {
    var user := GetUser(db.users, db.tokens, header, jwt, now);
    if user.None? {
      return Unauthorized;
    }
    db.commentReactions := Without(db.commentReactions, CommentReactionId, id);
    reply := Ok("Reaction Deleted Successfully", None);
  }
}
