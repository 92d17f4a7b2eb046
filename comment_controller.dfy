/**
 * `CommentController`: commenting on a post and soft-deleting a comment.
 * The current user comes from `TokenService.GetUser`; an unknown post is a
 * 404 without a body, written `NotFound("")`. A reply names any stored
 * comment: only the foreign key is checked, not that the comment belongs
 * to the same post. Deletion checks nobody's authorship.
 * The methods write only tables that `Data.Database.Valid` does not read,
 * so a caller's `Valid()` is kept by their `modifies` frames alone.
 */
module CommentController {
  import opened Wrappers
  import opened Entities
  import opened Data
  import opened TokenService

  /** The body of `Create` (`CreatePostCommentDto`). */
  datatype CreatePostCommentDto = CreatePostCommentDto(slug: string, content: string, replyId: Option<nat>)

  /** What `SaveChanges` demands of a new comment's `ReplyId`: none, or a stored comment. */
  predicate ReplyStored(comments: seq<Comment>, replyId: Option<nat>)
  {
    replyId.None? || !KeyAbsent(comments, CommentId, replyId.value)
  }

  /** The row `Create` adds: the post's id, the caller, the content and the optional reply. */
  function NewComment(id: nat, dto: CreatePostCommentDto, userId: nat, postId: nat, now: Time): Comment
  {
    Comment(id, dto.content, userId, postId, dto.replyId, now, now, None)
  }

  /**
   * `Create`: the comment is added to the post with the slug; a reply to a
   * missing comment is refused by the foreign key.
   */
  method Create(db: Database, header: string, jwt: Jwt, dto: CreatePostCommentDto, now: Time) returns (reply: Reply)
    modifies db`comments, db`commentSeq
    ensures var user := GetUser(db.users, db.tokens, header, jwt, now);
      var post := FindIndex(db.posts, PostSlug, dto.slug);
      && (user.None? ==> reply == Unauthorized && db.comments == old(db.comments))
      && (user.Some? && post.None? ==> reply == NotFound("") && db.comments == old(db.comments))
      && (user.Some? && post.Some? && !ReplyStored(old(db.comments), dto.replyId) ==>
            reply == BadRequest(SaveFailed.Message()) && db.comments == old(db.comments))
      && (user.Some? && post.Some? && ReplyStored(old(db.comments), dto.replyId) ==>
            && reply == Ok("Successfully Reacted", None)
            && db.comments == old(db.comments) + [NewComment(old(db.commentSeq), dto, user.value.id, db.posts[post.value].id, now)]
            && db.commentSeq == old(db.commentSeq) + 1)
  {
    var user := GetUser(db.users, db.tokens, header, jwt, now);
    if user.None? {
      return Unauthorized;
    }
    var post := FindIndex(db.posts, PostSlug, dto.slug);
    if post.None? {
      return NotFound("");
    }
    if !ReplyStored(db.comments, dto.replyId) {
      return BadRequest(SaveFailed.Message());
    }
    db.comments := db.comments + [NewComment(db.commentSeq, dto, user.value.id, db.posts[post.value].id, now)];
    db.commentSeq := db.commentSeq + 1;
    reply := Ok("Successfully Reacted", None);
  }

  /**
   * A reply is accepted whatever post the replied-to comment is on, and
   * every comment stored can be replied to.
   */
  lemma ReplyToAnyPost(comments: seq<Comment>, i: nat, dto: CreatePostCommentDto)
    requires i < |comments| && dto.replyId == Some(comments[i].id)
    ensures ReplyStored(comments, dto.replyId)
  {
    assert CommentId(comments[i]) == comments[i].id;
  }

  /** The comments after row `k` is soft-deleted at `t`. */
  function SoftDeletedComment(comments: seq<Comment>, k: nat, t: Time): (r: seq<Comment>)
    requires k < |comments|
    ensures |r| == |comments|
  {
    comments[k := comments[k].(deletedAt := Some(t))]
  }

  /** Soft deletion keeps the row and its content: only its `DeletedAt` changes, and deleting again changes nothing. */
  lemma SoftDeleteMeaning(comments: seq<Comment>, k: nat, t: Time)
    requires k < |comments|
    ensures var r := SoftDeletedComment(comments, k, t);
      && r[k].deletedAt == Some(t) && r[k].(deletedAt := comments[k].deletedAt) == comments[k]
      && (forall j | 0 <= j < |r| && j != k :: r[j] == comments[j])
      && SoftDeletedComment(r, k, t) == r
  {
  }

  /** `Delete`: the first comment with the id gets `DeletedAt`, whoever wrote it. */
  method Delete(db: Database, header: string, jwt: Jwt, id: nat, now: Time) returns (reply: Reply)
    modifies db`comments
    ensures var user := GetUser(db.users, db.tokens, header, jwt, now);
      var found := FindIndex(old(db.comments), CommentId, id);
      && (user.None? ==> reply == Unauthorized && db.comments == old(db.comments))
      && (user.Some? && found.None? ==> reply == BadRequest(DeletionFailed.Message()) && db.comments == old(db.comments))
      && (user.Some? && found.Some? ==>
            reply == Ok("Comment Deleted Successfully", None) && db.comments == SoftDeletedComment(old(db.comments), found.value, now))
  {
    var user := GetUser(db.users, db.tokens, header, jwt, now);
    if user.None? {
      return Unauthorized;
    }
    var found := FindIndex(db.comments, CommentId, id);
    if found.None? {
      return BadRequest(DeletionFailed.Message());
    }
    db.comments := SoftDeletedComment(db.comments, found.value, now);
    reply := Ok("Comment Deleted Successfully", None);
  }
}
