/**
 * The persisted entities of LanGeng, one datatype per table row, the enums
 * they use, and the error messages the services and controllers report.
 * Navigation properties are not part of the rows: they are found through
 * the foreign-key fields in the tables of `Data.Database`.
 */
module Entities {
  import opened Wrappers

  /** `DateTime`, as whole seconds. */
  type Time = int

  const EightMinutes: int := 8 * 60
  const ThirtyDays: int := 30 * 24 * 60 * 60

  datatype VerificationType =
    | Register | UsernameChanges | PasswordChanges | PasswordReset | AccountDeactivation | AccountDeletion
  {
    /** The byte stored for the enum (`VerificationTypeEnum : byte`). */
    function Code(): (b: nat)
      ensures b < 256
    {
      match this
      case Register => 1
      case UsernameChanges => 10
      case PasswordChanges => 20
      case PasswordReset => 21
      case AccountDeactivation => 40
      case AccountDeletion => 41
    }
  }

  /** The enum byte identifies the verification type. */
  lemma VerificationCodeInjective(a: VerificationType, b: VerificationType)
    ensures a.Code() == b.Code() ==> a == b
  {
  }

  datatype AccountStatus = Unverified | Verified | Inactive | Deleted

  datatype MemberStatus = Request | Rejected | Approved | Left | Removed
  {
    function Code(): (b: nat)
      ensures b < 5
    {
      match this
      case Request => 0
      case Rejected => 1
      case Approved => 2
      case Left => 3
      case Removed => 4
    }
  }

  /**
   * Group visibility. `PrivacyTypeEnum` is not part of this model: only
   * `Public` and `Private` are named by the code, and its separate
   * "not private" and "public only" lookups imply a value between them.
   * `Rank` is the stored byte that `OrderBy(PrivacyType)` sorts on.
   */
  datatype Privacy = Public | Protected | Private
  {
    function Rank(): (b: nat)
      ensures b < 3
    {
      match this
      case Public => 0
      case Protected => 1
      case Private => 2
    }
  }

  datatype MediaType = Image | Audio | Video

  /** The stored byte of `ReactionTypeEnum`. */
  type ReactionType = nat

  datatype User = User(
    id: nat, fullname: string, username: string, email: string, passwordHash: string,
    createdAt: Time, updatedAt: Time)

  datatype Profile = Profile(id: nat, userId: nat, bio: Option<string>, profileImage: Option<string>)

  datatype UserStatus = UserStatus(id: nat, userId: nat, status: AccountStatus, createdAt: Time, updatedAt: Time)

  /** A login session: the token a client presents as `Bearer <token>`. */
  datatype UserToken = UserToken(id: nat, token: string, userId: nat, expiresDate: Time, createdAt: Time)

  /** A six-digit verification code (table `UserVerifications`). */
  datatype Verification = Verification(
    id: nat, kind: VerificationType, code: string, userId: nat, email: Option<string>,
    expiresDate: Time, verifiedAt: Option<Time>, createdAt: Time)

  /** A verification link token (table `UserVerificationTokens`). */
  datatype VerificationToken = VerificationToken(
    id: nat, kind: VerificationType, token: string, userId: nat, email: Option<string>,
    expiresDate: Time, verifiedAt: Option<Time>, createdAt: Time)

  datatype Group = Group(
    id: nat, name: string, slug: string, privacy: Privacy, description: Option<string>,
    creatorId: nat, deletedAt: Option<Time>, createdAt: Time, updatedAt: Time)

  datatype GroupMember = GroupMember(
    id: nat, slug: string, status: MemberStatus, groupId: nat, memberId: nat,
    joinedAt: Option<Time>, createdAt: Time, updatedAt: Time)

  datatype Post = Post(
    id: nat, slug: string, commentAvailability: bool, content: Option<string>,
    media: Option<seq<string>>, authorId: nat, groupId: Option<nat>,
    createdAt: Time, updatedAt: Time, deletedAt: Option<Time>)

  datatype Hashtag = Hashtag(id: nat, tag: string, createdAt: Time)

  /** Join row between a post and a hashtag; its key is the pair of ids. */
  datatype PostHashtag = PostHashtag(postId: nat, hashtagId: nat, createdAt: Time)

  datatype PostMedia = PostMedia(id: nat, path: string, mediaType: MediaType, postId: nat, createdAt: Time)

  datatype Comment = Comment(
    id: nat, content: string, userId: nat, postId: nat, replyId: Option<nat>,
    createdAt: Time, updatedAt: Time, deletedAt: Option<Time>)

  datatype PostReaction = PostReaction(id: nat, kind: ReactionType, userId: nat, postId: nat, createdAt: Time, updatedAt: Time)

  datatype CommentReaction = CommentReaction(
    id: nat, kind: ReactionType, userId: nat, commentId: nat, createdAt: Time, updatedAt: Time)

  /**
   * The exceptions the core raises; `Message` is the text a client sees in
   * a `BadRequest` body. `SaveFailed` is the provider's `DbUpdateException`
   * (a unique index or foreign key refused the insert), `NoElements` is
   * `FirstAsync` on an empty sequence and `NullEntity` is `Entry(null)`
   * and `NullReference` is a member access through a null navigation.
   * `DeleteConflict` is the provider's error for an `ExecuteDelete` that a
   * foreign key refuses; its text goes on to name the constraint, the
   * database, the table and the column, which the model does not.
   */
  datatype Error =
    | InvalidVerificationLink
    | VerificationCodeExpired
    | VerifyAccountFailed
    | NoElements
    | UserStatusAlreadyExist
    | FailedToDeleteToken
    | UserNotFound
    | InvalidPost
    | InvalidPostLowerCase
    | NotAllowedFile
    | DeletionFailed
    | NotAllowedToDeletePost
    | FailedToDeletePost
    | PostRetriesExhausted
    | NoPermissionToDeleteGroup
    | CannotJoinGroup
    | AlreadyRequested
    | GroupNotFound
    | NotAnAdmin
    | MemberRequestNotAvailable
    | NullEntity
    | NullReference
    | SaveFailed
    | DeleteConflict
  {
    function Message(): string
    {
      match this
      case InvalidVerificationLink => "Invalid Verification Link"
      case VerificationCodeExpired => "Verification Code Expired"
      case VerifyAccountFailed => "Verify Account Failed"
      case NoElements => "Sequence contains no elements"
      case UserStatusAlreadyExist => "User status already exist"
      case FailedToDeleteToken => "Failed to delete token"
      case UserNotFound => "User not found"
      case InvalidPost => "Invalid Post"
      case InvalidPostLowerCase => "Invalid post"
      case NotAllowedFile => "Not allowed file"
      case DeletionFailed => "Deletion Failed"
      case NotAllowedToDeletePost => "Not allowed to delete this post"
      case FailedToDeletePost => "Failed to delete post"
      case PostRetriesExhausted => "Failed to create post, try again later."
      case NoPermissionToDeleteGroup => "You don't have permission to delete this group"
      case CannotJoinGroup => "Can't join to this group"
      case AlreadyRequested => "You have already requested or joined to this group"
      case GroupNotFound => "Group not found"
      case NotAnAdmin => "You are not an admin"
      case MemberRequestNotAvailable => "Member request not available"
      case NullEntity => "Value cannot be null. (Parameter 'entity')"
      case NullReference => "Object reference not set to an instance of an object."
      case SaveFailed => "An error occurred while saving the entity changes. See the inner exception for details."
      case DeleteConflict => "The DELETE statement conflicted with the REFERENCE constraint"
    }
  }

  /** The HTTP result a controller action returns. */
  datatype Reply =
    | Ok(message: string, token: Option<string>)
    | BadRequest(message: string)
    | Unauthorized
    | NotFound(message: string)
    | Conflict
    /** The 400 an `[ApiController]` answers, before the action runs, when a validation attribute of the request fails. */
    | ValidationProblem
}
