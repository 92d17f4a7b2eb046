/**
 * `UserPostMapping`: the post row built from a create-post form, and the
 * response bodies describing a post with its loaded relations.
 */
module UserPostMapping {
  import opened Wrappers
  import opened Text
  import opened Entities

  datatype CreateUserPostDto = CreateUserPostDto(
    commentAvailability: Option<bool>, content: Option<string>, media: Option<seq<string>>, groupId: Option<nat>)

  datatype UserPostDto = UserPostDto(
    id: nat, slug: string, commentAvailability: bool, content: Option<string>, media: Option<seq<string>>,
    authorName: string, authorUsername: string, groupName: Option<string>, groupSlug: Option<string>,
    commentCount: nat, reactionCount: nat, createdAt: Time, updatedAt: Time)

  datatype UserPostFullDto = UserPostFullDto(
    slug: string, commentAvailability: bool, content: Option<string>, media: Option<seq<string>>,
    authorName: string, authorUsername: string, groupName: Option<string>, groupSlug: Option<string>,
    comments: seq<Comment>, reactions: seq<PostReaction>, createdAt: Time, updatedAt: Time)

  predicate IsHexDigit(c: char) { IsDigit(c) || 'a' <= c <= 'f' }

  predicate IsHyphenPosition(i: int) { i == 8 || i == 13 || i == 18 || i == 23 }

  /** The text of `Guid.ToString()`: 32 lower-case hex digits in groups 8-4-4-4-12. */
  predicate IsGuidText(g: string)
  {
    |g| == 36 && forall i | 0 <= i < 36 :: if IsHyphenPosition(i) then g[i] == '-' else IsHexDigit(g[i])
  }

  /** `Guid.ToString().Replace("-", "")[..16]`. */
  function SlugFromGuid(guid: string): (slug: string)
    requires IsGuidText(guid)
  {
    GuidDigitsLength(guid);
    RemoveChar(guid, '-')[..16]
  }

  lemma HexGroupUnchanged(guid: string, a: nat, b: nat)
    requires IsGuidText(guid) && a <= b <= 36
    requires forall i | a <= i < b :: !IsHyphenPosition(i)
    ensures RemoveChar(guid[a..b], '-') == guid[a..b]
  {
    assert forall i | 0 <= i < b - a :: guid[a..b][i] == guid[a + i];
    RemoveCharAbsent(guid[a..b], '-');
  }

  lemma RemoveAcrossHyphen(a: string, b: string)
    ensures RemoveChar(a + "-" + b, '-') == RemoveChar(a, '-') + RemoveChar(b, '-')
  {
    RemoveCharAppend(a + "-", b, '-');
    RemoveCharAppend(a, "-", '-');
  }

  /** Removing the hyphens leaves the five hex groups, 32 digits. */
  lemma GuidDigits(guid: string)
    requires IsGuidText(guid)
    ensures RemoveChar(guid, '-') == guid[..8] + guid[9..13] + guid[14..18] + guid[19..23] + guid[24..]
  {
    var g0, g1, g2, g3, g4 := guid[..8], guid[9..13], guid[14..18], guid[19..23], guid[24..];
    var h1 := g0 + "-" + g1;
    var h2 := h1 + "-" + g2;
    var h3 := h2 + "-" + g3;
    assert guid == h3 + "-" + g4;
    HexGroupUnchanged(guid, 0, 8);
    HexGroupUnchanged(guid, 9, 13);
    HexGroupUnchanged(guid, 14, 18);
    HexGroupUnchanged(guid, 19, 23);
    HexGroupUnchanged(guid, 24, 36);
    assert guid[24..36] == g4;
    RemoveAcrossHyphen(g0, g1);
    RemoveAcrossHyphen(h1, g2);
    RemoveAcrossHyphen(h2, g3);
    RemoveAcrossHyphen(h3, g4);
  }

  lemma GuidDigitsLength(guid: string)
    requires IsGuidText(guid)
    ensures |RemoveChar(guid, '-')| == 32
  {
    GuidDigits(guid);
  }

  /** A post slug is the first 16 hex digits of the GUID: its first three groups. */
  lemma SlugFromGuidShape(guid: string)
    requires IsGuidText(guid)
    ensures SlugFromGuid(guid) == guid[..8] + guid[9..13] + guid[14..18]
    ensures |SlugFromGuid(guid)| == 16
    ensures forall i | 0 <= i < 16 :: IsHexDigit(SlugFromGuid(guid)[i])
  {
    GuidDigits(guid);
    var s := SlugFromGuid(guid);
    assert s == guid[..8] + guid[9..13] + guid[14..18];
    forall i | 0 <= i < 16 ensures IsHexDigit(s[i])
    {
      if i < 8 {
        assert s[i] == guid[i];
      } else if i < 12 {
        assert s[i] == guid[i + 1];
      } else {
        assert s[i] == guid[i + 2];
      }
    }
  }

  /** `ToEntity`: the post row a create-post form gives; the id is assigned when it is saved. */
  function ToEntity(dto: CreateUserPostDto, authorId: nat, guid: string, now: Time): (post: Post)
    requires IsGuidText(guid)
    ensures post.slug == SlugFromGuid(guid) && post.authorId == authorId
    ensures post.commentAvailability == (dto.commentAvailability.None? || dto.commentAvailability.value)
    ensures post.content == dto.content && post.groupId == dto.groupId && post.media == dto.media
    ensures post.deletedAt.None? && post.createdAt == now && post.updatedAt == now
  {
    Post(0, SlugFromGuid(guid), dto.commentAvailability.GetOr(true), dto.content, dto.media,
         authorId, dto.groupId, now, now, None)
  }

  function Count<T>(s: Option<seq<T>>): (n: nat)
    ensures s.Some? ==> n == |s.value|
    ensures s.None? ==> n == 0
  {
    if s.Some? then |s.value| else 0
  }

  /**
   * `ToDto`: the summary of a post and its loaded author, group, comments and
   * reactions; a relation that is not loaded reads as empty.
   */
  function ToDto(post: Post, author: Option<User>, group: Option<Group>,
                 comments: Option<seq<Comment>>, reactions: Option<seq<PostReaction>>): (dto: UserPostDto)
    ensures dto.id == post.id && dto.slug == post.slug && dto.content == post.content && dto.media == post.media
    ensures dto.authorName == (if author.Some? then author.value.fullname else "")
    ensures dto.authorUsername == (if author.Some? then author.value.username else "")
    ensures dto.groupName == (if group.Some? then Some(group.value.name) else None)
    ensures dto.groupSlug == (if group.Some? then Some(group.value.slug) else None)
    ensures dto.commentCount == Count(comments) && dto.reactionCount == Count(reactions)
  {
    UserPostDto(
      post.id, post.slug, post.commentAvailability, post.content, post.media,
      if author.Some? then author.value.fullname else "",
      if author.Some? then author.value.username else "",
      if group.Some? then Some(group.value.name) else None,
      if group.Some? then Some(group.value.slug) else None,
      Count(comments), Count(reactions), post.createdAt, post.updatedAt)
  }

  /** `ToFullDto`: like `ToDto`, carrying the comments and reactions themselves. */
  function ToFullDto(post: Post, author: Option<User>, group: Option<Group>,
                     comments: Option<seq<Comment>>, reactions: Option<seq<PostReaction>>): (dto: UserPostFullDto)
    ensures dto.comments == comments.GetOr([]) && dto.reactions == reactions.GetOr([])
    ensures dto.slug == post.slug && dto.content == post.content
  {
    UserPostFullDto(
      post.slug, post.commentAvailability, post.content, post.media,
      if author.Some? then author.value.fullname else "",
      if author.Some? then author.value.username else "",
      if group.Some? then Some(group.value.name) else None,
      if group.Some? then Some(group.value.slug) else None,
      comments.GetOr([]), reactions.GetOr([]), post.createdAt, post.updatedAt)
  }

  /** The full view lists exactly as many comments and reactions as the summary counts. */
  lemma FullDtoAgreesWithDto(post: Post, author: Option<User>, group: Option<Group>,
                             comments: Option<seq<Comment>>, reactions: Option<seq<PostReaction>>)
    ensures |ToFullDto(post, author, group, comments, reactions).comments| == ToDto(post, author, group, comments, reactions).commentCount
    ensures |ToFullDto(post, author, group, comments, reactions).reactions| == ToDto(post, author, group, comments, reactions).reactionCount
    ensures ToFullDto(post, author, group, comments, reactions).authorName == ToDto(post, author, group, comments, reactions).authorName
  {
  }
}
