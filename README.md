# LanGeng social-media backend: a verified model

LanGeng is an ASP.NET social-media API: users register, verify their account by an
emailed link or code, sign in with a JWT whose session row lives in a token table,
and then post (with hashtags and media), comment, react and run groups. This project
models, in Dafny, the rule sets behind those requests and proves what they promise:

- the string helpers: the slug built by `SlugHelper.Create`, the `#\w+` hashtag
  scanner, the username derived from an e-mail address, the 16-hex post slug, and the
  6-digit verification code with its 8-minute expiry;
- the session ledger: login replaces every token row of the user by one, logout
  deletes them, a request is accepted only with the exact token row and an expiry
  test, and the middleware decides 401 or pass-through;
- the verification ledger and the account lifecycle behind `VerifyToken`,
  `VerifyCode` and `RequestDelete`;
- posts: filtering, sorting and paging, hashtag find-or-create and the add/remove
  diff on update, media-extension classification, deletion rights, and the bounded
  16-try slug loop;
- groups: the three visibility lookups, searching and paging, creation with the
  creator as an approved member, the join and answer state machine, and the
  creator-only soft delete that cascades to the group's posts;
- reactions (one row per user and post, or user and comment) and comments.

The database is the class `Data.Database`: one `seq` per table and one identity
counter per table. `Valid()` holds the unique keys declared in
`SocialMediaDatabaseContext` (e-mail, username, token, the group, member and post
slugs, hashtag text, the (post, hashtag) pair), plus dense ids below each counter. Inserts of users, posts, groups, members and hashtags also refuse
a text longer than its column, and a user row that a group, comment or reaction still
references cannot be deleted. Each insert, update and delete the services issue is a
method of that class. Each service or controller action is a method of its own
module that takes the store as a parameter `db: Database`, with a `modifies`
clause naming exactly the tables it writes. Pure steps (lookups, filters, slugs,
mappings) are functions. The methods are proved against them.

Before an action of an `[ApiController]` runs, ASP.NET checks the validation
attributes of its request DTO and answers a failing request with a 400 validation
problem. The model states this check (module `Validation` and one predicate per
DTO) for login, registration, group creation, post listing and code verification,
and the reply `ValidationProblem` stands for that answer.

External inputs are parameters:
- the clock is an integer number of seconds;
- the random rolls, the GUID text and the tick counter are passed in;
- JWT validation is a function `string -> Option<string>` from token to user name;
- the password check is a predicate.

Privacy is modelled as `Public | Protected | Private`, ordered that way. The enum
file is not part of this model. The services need a value that is neither private
nor public, because they offer both a non-private lookup and a public-only lookup.

Sorting is an insertion sort that puts ties in one fixed order. SQL's `OrderByDescending(UpdatedAt)` and
`OrderBy(PrivacyType)` leave the order of ties open, so the store may return rows
with equal keys in another order; the pages the model states are one of the pages
the store may return.

Where the entity files and the services disagree, the model follows the services.
For example, the services give `GroupMember` a slug and a join time. In these
places the model follows the code even where it looks unintended:
- the two expiry tests of `TokenService` differ at the boundary, and the model keeps both;
- the success test after `VerifyToken`'s last save is inverted, and the model reproduces it;
- group search terms are not lower-cased, so under an ordinal, case-sensitive collation a term with an upper-case letter finds nothing.

## Model

| member | source | states |
|---|---|---|
| SlugHelper.RemoveAccents | LanGeng.API/Helper/SlugHelper.cs:32-47 | the loop keeps exactly the characters of the decomposed text that are not non-spacing marks (`DropMarks`), and leaves unmarked text unchanged |
| SlugHelper.DropMarksOfUnmarked | LanGeng.API/Helper/SlugHelper.cs:37-44 | text without non-spacing marks is returned unchanged by accent removal |
| SlugHelper.Collapse | LanGeng.API/Helper/SlugHelper.cs:14 | every run of white space becomes one space: the result has no two spaces in a row, is empty only for empty input, and starts with a space exactly when the input starts with white space |
| SlugHelper.Cut | LanGeng.API/Helper/SlugHelper.cs:11-15 | the result is a prefix of at most 16 characters, and the whole input when that is short enough |
| SlugHelper.Hyphenate | LanGeng.API/Helper/SlugHelper.cs:16 | same length; each white-space character becomes `-`, every other character is kept |
| SlugHelper.KeepSlugChars | LanGeng.API/Helper/SlugHelper.cs:13 | only a-z, 0-9, white space and `-` survive the filter, and it never lengthens the text |
| SlugHelper.SpacedFormShape | LanGeng.API/Helper/SlugHelper.cs:14-15 | before hyphenation the prefix is trimmed, single-spaced and at most 16 characters, so each hyphen from white space stands for one inner space |
| SlugHelper.CollapsedChars | LanGeng.API/Helper/SlugHelper.cs:13-14 | after filtering and collapsing only a-z, 0-9, `-` and the plain space remain |
| SlugHelper.SubstringKeepsSpacing | LanGeng.API/Helper/SlugHelper.cs:15 | cutting a single-spaced string keeps it single-spaced |
| SlugHelper.NormalizeShape | LanGeng.API/Helper/SlugHelper.cs:11-16 | the normalised prefix has at most 16 characters, all from a-z, 0-9 and `-` |
| SlugHelper.SlugCharsUnchanged | LanGeng.API/Helper/SlugHelper.cs:12-16 | lower-casing, filtering, collapsing and hyphenating leave a string over a-z, 0-9, `-` unchanged |
| SlugHelper.NormalizeIdempotent | LanGeng.API/Helper/SlugHelper.cs:13-16 | normalising a normalised prefix returns it unchanged |
| SlugHelper.PrefixIdempotent | LanGeng.API/Helper/SlugHelper.cs:12-16 | the prefix `Create` derives from an already derived prefix is that prefix |
| SlugHelper.RandomString | LanGeng.API/Helper/SlugHelper.cs:24-30 | one character per roll, each the roll's character of `abcdefghijklmnopqrstuvwxyz0123456789` |
| SlugHelper.Create | LanGeng.API/Helper/SlugHelper.cs:9-22 | the method that builds the body in a character array, overwrites indices 32 and 48 and appends the ticks returns exactly `Slug(phrase, rolls, ticks)` |
| SlugHelper.ForceHyphens | LanGeng.API/Helper/SlugHelper.cs:17-21 | copying `prefix-random` into a character array and writing '-' at indices 32 and 48 gives exactly `Body(prefix, random)` |
| SlugHelper.SlugOfLayout | LanGeng.API/Helper/SlugHelper.cs:17-21 | for a prefix p of at most 16 characters: 65 characters then the decimal ticks; the slug starts with p; indices p, 32 and 48 are `-`; every other body character is from the alphabet |
| SlugHelper.SlugLayout | LanGeng.API/Helper/SlugHelper.cs:9-21 | the same layout for every phrase, rolls and clock, with the prefix being the normalised phrase |
| SlugHelper.SlugWidth | LanGeng.API/Helper/SlugHelper.cs:17-21 | with the clock's ticks a 64-bit `long`, every slug has at most 84 characters, so it fits the 255-character slug columns |
| SlugHelper.SlugOfChars | LanGeng.API/Helper/SlugHelper.cs:17-20 | every body character of a slug over a clean prefix is from a-z, 0-9 and `-` |
| SlugHelper.SlugBodyChars | LanGeng.API/Helper/SlugHelper.cs:9-20 | every one of the 65 body characters of any slug is from a-z, 0-9 and `-` |
| SlugHelper.EmptyPhraseSlug | LanGeng.API/Helper/SlugHelper.cs:9-17 | the default empty phrase gives an empty prefix, so the slug starts with `-` |
| HashtagHelper.WordRun | LanGeng.API/Helper/HashtagHelper.cs:10 | the longest run of word characters: all word characters, followed by the end of the text or a non-word character |
| HashtagHelper.MatchesFrom | LanGeng.API/Helper/HashtagHelper.cs:10 | left-to-right scan: every match found from position i is a `#\w+` match at or after i, and matches do not overlap |
| HashtagHelper.MatchesFromComplete | LanGeng.API/Helper/HashtagHelper.cs:10-15 | the scan misses nothing: every `#` followed by a word character at or after i starts one of the matches it finds |
| HashtagHelper.Words | LanGeng.API/Helper/HashtagHelper.cs:12-15 | one word per match, each the match's value without its `#` |
| HashtagHelper.ValueIsHashWord | LanGeng.API/Helper/HashtagHelper.cs:14 | a match's value is `#` followed by its word, and the word contains no `#` |
| HashtagHelper.ExtractHashtags | LanGeng.API/Helper/HashtagHelper.cs:7-18 | the foreach loop collects exactly `Hashtags(content)` |
| HashtagHelper.HashtagShape | LanGeng.API/Helper/HashtagHelper.cs:10-14 | every tag is non-empty, has no `#`, consists of word characters only and has no upper-case letter |
| HashtagHelper.HashtagsAreMaximalMatches | LanGeng.API/Helper/HashtagHelper.cs:10-15 | tags are the matches of the lower-cased content in order of occurrence, taken in full, without overlap, duplicates kept, and every `#` followed by a word character starts one of them |
| HashtagHelper.HashCountMonotone | LanGeng.API/Helper/HashtagHelper.cs:10 | a later start never counts more `#` characters |
| HashtagHelper.MatchesFromBound | LanGeng.API/Helper/HashtagHelper.cs:10 | a scan from i finds no more matches than there are `#` characters from i on |
| HashtagHelper.HashCountZero | LanGeng.API/Helper/HashtagHelper.cs:10 | text without `#` has no `#` from any position |
| HashtagHelper.HashtagCount | LanGeng.API/Helper/HashtagHelper.cs:10-17 | the number of tags is at most the number of `#` characters, and content without `#` gives no tag |
| HashtagHelper.ExampleTailMatches | LanGeng.API/Helper/HashtagHelper.cs:10 | example: a scan of `#ab # #c!` from index 3 finds only `#c` |
| HashtagHelper.ExampleMatches | LanGeng.API/Helper/HashtagHelper.cs:10 | example: `#ab # #c!` has the matches `#ab` and `#c`; the lone `#` is no match |
| HashtagHelper.ExampleWords | LanGeng.API/Helper/HashtagHelper.cs:14 | example: the words of those matches are `ab` and `c` |
| HashtagHelper.HashtagsExample | LanGeng.API/Helper/HashtagHelper.cs:7-17 | example: `#Ab # #c!` yields `["ab", "c"]` |
| UserMapping.KeepUsernameChars | LanGeng.API/Mapping/UserMapping.cs:17 | the filter keeps only ASCII letters, digits, `.` and `_`, never lengthens, and keeps a single character exactly when it is one of those |
| UserMapping.KeepUsernameCharsAppend | LanGeng.API/Mapping/UserMapping.cs:17 | filtering a concatenation concatenates the filtered parts; with the one-character case this fixes the result for every input |
| UserMapping.KeepUsernameCharsIsSubsequence | LanGeng.API/Mapping/UserMapping.cs:17 | the filter only deletes characters: its result is a subsequence of its input |
| UserMapping.UsernameIsSubsequenceOfLocalPart | LanGeng.API/Mapping/UserMapping.cs:17 | the username is the part of the e-mail before the first `@` with some characters deleted, the rest in their original order |
| UserMapping.ToEntity | LanGeng.API/Mapping/UserMapping.cs:11-22 | Fullname, Email and the password hash are copied; Username is the e-mail's local part filtered to `[a-zA-Z0-9._]`; both timestamps are the current time |
| UserMapping.KeepUsernameCharsOfAllowed | LanGeng.API/Mapping/UserMapping.cs:17 | filtering an already filtered name changes nothing, so the filter is idempotent |
| UserMapping.LocalPartOf | LanGeng.API/Mapping/UserMapping.cs:17 | the part before the first `@` of `name@domain` is `name` |
| UserMapping.UsernameShape | LanGeng.API/Mapping/UserMapping.cs:17 | the username has only allowed characters, no `@`, and is no longer than the e-mail |
| UserMapping.JoinLength | LanGeng.API/Mapping/UserMapping.cs:17 | helper fact: the first piece of a split is no longer than the joined text |
| UserMapping.UsernameOfPlainAddress | LanGeng.API/Mapping/UserMapping.cs:17 | an address whose local part has only allowed characters gives that local part as username |
| UserMapping.UsernameIgnoresDomain | LanGeng.API/Mapping/UserMapping.cs:17 | two addresses with the same local part give the same username |
| UserMapping.ToResponseDto | LanGeng.API/Mapping/UserMapping.cs:24-38 | Fullname, Email and Username are copied; Bio and ProfileImage come from the profile, and are null without one |
| UserPostMapping.HexGroupUnchanged | LanGeng.API/Mapping/UserPostMapping.cs:12 | removing `-` from a stretch of GUID text between hyphens changes nothing |
| UserPostMapping.RemoveAcrossHyphen | LanGeng.API/Mapping/UserPostMapping.cs:12 | removing `-` distributes over a hyphen-joined text |
| UserPostMapping.GuidDigits | LanGeng.API/Mapping/UserPostMapping.cs:12 | the GUID text without hyphens is its five hex groups joined |
| UserPostMapping.GuidDigitsLength | LanGeng.API/Mapping/UserPostMapping.cs:12 | the GUID text without hyphens has 32 characters |
| UserPostMapping.SlugFromGuidShape | LanGeng.API/Mapping/UserPostMapping.cs:12 | the post slug is the first three hex groups, exactly 16 lower-case hexadecimal characters |
| UserPostMapping.ToEntity | LanGeng.API/Mapping/UserPostMapping.cs:8-20 | the slug's 16 hex characters, the author, CommentAvailability true unless the body says otherwise, and Content, GroupId and Media only as given |
| UserPostMapping.Count | LanGeng.API/Mapping/UserPostMapping.cs:35-36 | a collection's size, or 0 when it is null |
| UserPostMapping.ToDto | LanGeng.API/Mapping/UserPostMapping.cs:22-40 | author name and username default to `""`; group name and slug are null without a group; comment and reaction counts are the sizes, or 0 |
| UserPostMapping.ToFullDto | LanGeng.API/Mapping/UserPostMapping.cs:42-59 | the comment and reaction arrays are the collections, and empty when null |
| UserPostMapping.FullDtoAgreesWithDto | LanGeng.API/Mapping/UserPostMapping.cs:35-55 | the full DTO's array lengths equal the short DTO's counts, and both name the author alike |
| UserVerification.NewVerification | LanGeng.API/Entities/UserVerification.cs:11-29 | the given type, user and e-mail; the code drawn from the roll; expiry 8 minutes after creation; VerifiedAt null |
| UserVerification.CodeShape | LanGeng.API/Entities/UserVerification.cs:15 | the code is exactly 6 decimal digits, parses back to the roll, and lies in [111, 999998] |
| UserVerification.CodeInjective | LanGeng.API/Entities/UserVerification.cs:15 | distinct rolls give distinct codes |
| UserVerification.SmallestCode | LanGeng.API/Entities/UserVerification.cs:15 | example: the smallest roll is zero-padded to `000111` |
| UserVerificationToken.NewVerificationToken | LanGeng.API/Entities/UserVerificationToken.cs:12-27 | the given type, user, e-mail and token; expiry 8 minutes after creation; VerifiedAt null |
| UserVerificationToken.DefaultTokenShape | LanGeng.API/Entities/UserVerificationToken.cs:16 | the default token is a slug of the empty phrase, so it starts with `-` and has `-` at 32 and 48 |
| Data.Database.constructor | LanGeng.API/Data/SocialMediaDatabaseContext.cs:25-125 | an empty store satisfies every declared unique key |
| Data.Database.AddUser | LanGeng.API/Entities/User.cs:6-21 | the insert fails with nothing changed exactly when the e-mail or the username is taken or a text is longer than its column (full name 255, username 64, e-mail 128, password hash 255); otherwise one row with the next id is appended |
| Data.Database.AddStatus | LanGeng.API/Data/SocialMediaDatabaseContext.cs:33-50 | one status row per user: refused when the user already has one or does not exist, otherwise appended |
| Data.Database.AddToken | LanGeng.API/Data/SocialMediaDatabaseContext.cs:56-57 | refused when the token text is taken or the user is missing, otherwise appended with the next id |
| Data.Database.AddLink | LanGeng.API/Migrations/SocialMediaDatabaseContextModelSnapshot.cs:625-626 | a verification token row gets the next id and is refused for a missing user; the unique index on `Token` is not enforced |
| Data.Database.StampLink | LanGeng.API/Controllers/UserController.cs:97-98 | setting VerifiedAt on one link row changes that field of that row and nothing else, and keeps the tables valid |
| Data.Database.DeleteTokensOf | LanGeng.API/Controllers/AuthController.cs:42 | every and only the token rows of the user are removed, and the count removed is zero iff there were none |
| Data.Database.AddPost | LanGeng.API/Data/SocialMediaDatabaseContext.cs:88-90 | refused iff the slug is taken or longer than its 255-character column (`UserPosts.Slug`, `Migrations/SocialMediaDatabaseContextModelSnapshot.cs`:391-394), the author is missing or the named group is missing; otherwise appended |
| Data.Database.AddHashtag | LanGeng.API/Entities/Hashtag.cs:6-13 | refused iff the tag text is taken or longer than its 64-character column; otherwise appended with the next id |
| Data.Database.AddPostHashtags | LanGeng.API/Data/SocialMediaDatabaseContext.cs:114-116 | a batch of links is saved whole or refused whole; refused iff a (post, hashtag) key repeats or a post or hashtag is missing |
| Data.Database.DeletePostHashtag | LanGeng.API/Services/PostService.cs:256-258 | exactly the link with that (post, hashtag) key is removed |
| Data.Database.SetPostDeletedAt | LanGeng.API/Services/PostService.cs:354-356 | the post's DeletedAt becomes t; the saved-row count is 0 when it already was t |
| Data.Database.AddGroup | LanGeng.API/Services/GroupService.cs:133-156 | group and creator membership are saved together or not at all; refused iff the group slug or the member slug is taken, either slug is longer than its 255-character column (`Groups.Slug` and `GroupMembers.Slug`, `Migrations/SocialMediaDatabaseContextModelSnapshot.cs`:85-88 and :123-126), the creator is missing or the name is longer than its 255-character column (`Groups.Name`, `Migrations/SocialMediaDatabaseContextModelSnapshot.cs`:74-77) |
| Data.Database.InsertGroup | LanGeng.API/Data/SocialMediaDatabaseContext.cs:70 | a group with a free slug is appended with the next id |
| Data.Database.AddMember | LanGeng.API/Data/SocialMediaDatabaseContext.cs:79-82 | a member row is refused iff its slug is taken or longer than 255 characters, or the user is missing; otherwise appended |
| Data.Database.SetMember | LanGeng.API/Services/GroupService.cs:231-237 | a member row is rewritten in place, keeping its id, slug, group and user |
| Data.Database.SetGroupDeletedAt | LanGeng.API/Services/GroupService.cs:171 | only the group's DeletedAt changes |
| Data.Database.DeleteMediaRow | LanGeng.API/Services/PostService.cs:283-292 | exactly the media row with that id is removed |
| Data.Database.AddMedia | LanGeng.API/Services/PostService.cs:201-210 | the batch is appended, numbered from the next media id |
| TokenService.BearerTokenOf | LanGeng.API/Services/TokenService.cs:71 | the token is the second space-separated field of `scheme token...` |
| TokenService.NoSpaceNoToken | LanGeng.API/Services/TokenService.cs:71-82 | a header without a space has no second field, so the lookup fails |
| TokenService.SessionRow | LanGeng.API/Services/TokenService.cs:75 | the first token row holding exactly that token for a user of that name, or none iff no row does |
| TokenService.GetUsername | LanGeng.API/Services/TokenService.cs:67-83 | a name only if the bearer token validates to it and a session row holds it with ExpiresDate >= now |
| TokenService.FindUser | LanGeng.API/Services/TokenService.cs:88 | a stored user with that username, or none iff there is none |
| TokenService.GetUser | LanGeng.API/Services/TokenService.cs:85-90 | the stored user whose name `GetUsername` returned; none when it returned none |
| TokenService.GetUserAndExpiredStatus | LanGeng.API/Services/TokenService.cs:92-110 | `(null, true)` on a malformed header or an invalid JWT; the user by name even without a session row; "not expired" only with a session row whose ExpiresDate > now |
| TokenService.SessionRowUnique | LanGeng.API/Data/SocialMediaDatabaseContext.cs:56 | with unique token texts the session row found is the one holding the token |
| TokenService.GetUsernameComplete | LanGeng.API/Services/TokenService.cs:73-77 | a valid JWT with an unexpired session row does yield the name |
| TokenService.ExpiryBoundary | LanGeng.API/Services/TokenService.cs:76-102 | at ExpiresDate == now `GetUsername` accepts while `GetUserAndExpiredStatus` reports expired |
| TokenService.ChecksAgreeOffBoundary | LanGeng.API/Services/TokenService.cs:76-102 | away from that instant, `GetUser` finds a user iff the status check says not expired and finds the user |
| TokenService.RemovedTokenRejected | LanGeng.API/Services/TokenService.cs:75-102 | a token with no row (deleted by logout or a later login) resolves to no user and counts as expired |
| AuthMiddleware.InvokeAsync | LanGeng.API/Middlewares/AuthMiddleware.cs:18-45 | without an endpoint or `[Authorize]` the request proceeds; otherwise it proceeds iff the session is unexpired and the user exists, else 401 "Unauthorized user." when the user is null and "Session expired. Please login again." only when the user exists |
| AuthController.PostLogin | LanGeng.API/Controllers/AuthController.cs:34-62 | a blank or over-128 username, or a blank password or one outside 8..64 characters, gets the validation problem with the tokens unchanged; otherwise unknown user or failing password: Unauthorized, tokens unchanged; success: the user's old rows are deleted, one 30-day row is added, other users' rows stay, and the user then has exactly one token |
| AuthController.ValidRegistrationFits | LanGeng.API/Dtos/RegisterUserDto.cs:7-9 | a registration that passes validation, with a hash that fits, fits every user column iff its derived username has at most 64 characters: validation does not rule out the username overflow |
| AuthController.JoinByUsername | LanGeng.API/Controllers/AuthController.cs:72-75 | with unique usernames, selecting rows by the user's name selects exactly the rows with the user's id |
| AuthController.SessionUserHasToken | LanGeng.API/Controllers/AuthController.cs:70-73 | a user `GetUser` resolves always has at least one token row, so logout always deletes something |
| AuthController.PostLogout | LanGeng.API/Controllers/AuthController.cs:66-88 | no current user: Unauthorized and nothing changes; otherwise every token row of that user is removed, at least one |
| AuthController.PostRegister | LanGeng.API/Controllers/AuthController.cs:92-150 | a request failing `RegisterUserDto`'s attributes gets the validation problem and inserts nothing; otherwise a taken e-mail gives Conflict and inserts nothing; a taken username or a text longer than its column (a username over 64 characters) fails the user's save and inserts nothing; otherwise one user, one Register verification token slugged from the username, one Unverified status and one 30-day session token, all for the new id |
| AuthController.RegisterLinkType | LanGeng.API/Controllers/AuthController.cs:134 | example: the verification link ends with `&s=1`, the Register byte |
| UserService.GetUserById | LanGeng.API/Services/UserService.cs:36-47 | the stored user with that id, or none iff there is none |
| UserService.HasEmailAsync | LanGeng.API/Services/UserService.cs:62-73 | true iff some user has exactly that e-mail |
| UserService.CreateUserAsync | LanGeng.API/Services/UserService.cs:75-109 | saved all together or not at all, and saved exactly when the e-mail, the username and the session token text are free and every text of the user fits its column: the user, one Register verification token slugged from the username, one Unverified status and one 30-day session token |
| UserService.AddRegistration | LanGeng.API/Services/UserService.cs:79-92 | the Register verification token and the Unverified status of a new user |
| UserService.AddAccount | LanGeng.API/Services/UserService.cs:80-99 | the Register verification token and Unverified status of a new user, then its 30-day session token, whose save fails exactly when the token text is taken |
| UserService.CreateUserStatusAsync | LanGeng.API/Services/UserService.cs:186-205 | "User status already exist" iff a row exists; otherwise one Unverified row, whatever status was passed |
| UserService.DeleteUserTokenAsync | LanGeng.API/Services/UserService.cs:264-278 | all and only the user's rows are removed; "Failed to delete token" iff there were none |
| UserService.CreateUserTokenAsync | LanGeng.API/Services/UserService.cs:242-262 | fails with "Failed to delete token", inserting nothing, exactly when the user had no token; otherwise the user's rows are deleted, and the save fails exactly when the token text is held by a surviving row or the user row is missing. On success the user has exactly one row, expiring in 30 days |
| UserService.GetVerificationCode | LanGeng.API/Services/UserService.cs:280-295 | the newest code row matching (user, code, type), or none iff no row matches |
| UserService.GetVerificationToken | LanGeng.API/Services/UserService.cs:314-329 | the newest token row matching (user, token, type), or none iff no row matches |
| UserService.CreateVerificationTokenAsync | LanGeng.API/Services/UserService.cs:331-352 | "User not found" iff the user is missing; otherwise a row whose token is a slug of the username, whatever Token argument was passed |
| UserController.RequestDelete | LanGeng.API/Controllers/UserController.cs:36-73 | no current user: 404 "User not found"; otherwise one AccountDeletion verification token for that user, slugged from the username |
| UserController.SessionByToken | LanGeng.API/Controllers/UserController.cs:82-87 | a session row holding exactly U, or none iff no row does |
| UserController.FindLink | LanGeng.API/Controllers/UserController.cs:90-94 | a verification row of that user with token T and type S, or none iff no row matches; VerifiedAt is not filtered on, and a null S matches no row |
| UserController.StampedLinkMatchesAgain | LanGeng.API/Controllers/UserController.cs:90-97 | after VerifiedAt is stamped, the same link still matches, so it can be used again until it expires |
| UserController.Apply | LanGeng.API/Controllers/UserController.cs:100-128 | Register leaves the status untouched (its write names no field); AccountDeletion deletes status and profile, then the user unless a group, comment or reaction still references the user or a post of theirs, which fails with the delete-conflict error and keeps the user row; AccountDeactivation sets Inactive; any other type is "Invalid Verification Link" |
| UserController.DeleteAccount | LanGeng.API/Controllers/UserController.cs:114-116 | the user's status and profile rows are removed; the user row is removed too, unless it is still referenced, and it fails with the delete-conflict error exactly when it is |
| UserController.DeleteStatusOf | LanGeng.API/Controllers/UserController.cs:114 | exactly the user's status rows are removed |
| UserController.DeleteUser | LanGeng.API/Controllers/UserController.cs:116 | fails with the delete-conflict error and changes nothing exactly when a group, comment or reaction references the user or a post of theirs; otherwise exactly the row with the user's id is removed |
| UserController.DeactivateAccount | LanGeng.API/Controllers/UserController.cs:121-123 | the user's status becomes Inactive; a missing status row fails |
| UserController.CheckLink | LanGeng.API/Controllers/UserController.cs:82-96 | the link is live exactly when a session row holds U, that session's user has a link with token T and type S, and the link's ExpiresDate is after now; it then names that user and the first such link. The answer is "Invalid Verification Link" exactly when the session or the link is missing, and "Verification Code Expired" otherwise. A request without S is always "Invalid Verification Link" |
| UserController.UseLink | LanGeng.API/Controllers/UserController.cs:97-132 | the live link at its position gets VerifiedAt := now and no other link changes; the status, profile and user tables and the reply are those `Dispatched` gives for the link's user |
| UserController.VerifyToken | LanGeng.API/Controllers/UserController.cs:76-138 | a refused lookup answers its error and leaves every table unchanged; a request without S is refused as "Invalid Verification Link" with nothing changed. A live link is stamped with VerifiedAt := now, and the stamp stays even when the dispatch then fails; the status, profile and user tables and the reply are those `Dispatched` gives for the session's user and whether its delete is blocked. A success reply names its branch and comes from a live link, and after a deletion no user row is left |
| UserController.Dispatch | LanGeng.API/Controllers/UserController.cs:100-132 | the new status, profile and user tables and the reply are as `Dispatched` says. Register and every other type leave all three tables unchanged; Register answers success iff a status row exists, because its write names no field and saves nothing. AccountDeletion removes the user's status and profile rows. It then removes the user row and answers success, since its deletes bypass the tracked save, unless a group the user created, a comment or reaction by the user, or a comment or reaction on one of the user's posts references it. In that case the user row stays and the reply is the delete-conflict error. AccountDeactivation sets the user's first status row to Inactive; it answers "Verify Account Failed" when that changed the row, success when the row was Inactive already, and the null-entry error when the user has no status. Any other type is "Invalid Verification Link" |
| UserController.DispatchedOk | LanGeng.API/Controllers/UserController.cs:100-132 | a success reply of the dispatch comes from Register, AccountDeletion or AccountDeactivation, and its message names that branch; a successful deletion was not blocked, and the user has no row left |
| UserController.FindCode | LanGeng.API/Controllers/UserController.cs:152-156 | a Register code row of the user with that code, or none iff none matches |
| UserController.InvalidCodeMatchesNothing | LanGeng.API/Dtos/VerifyCodeDto.cs:7 | when every stored code has six digits, a code failing validation matches no row, so validation changes only the reply |
| UserController.VerifyCode | LanGeng.API/Controllers/UserController.cs:142-177 | a code that is blank or not 6 characters long gets the validation problem with nothing changed; otherwise no current user: Unauthorized; no Register row with the code: failure; ExpiresDate <= now: "Verification Code Expired"; otherwise VerifiedAt := now, and without a status row the reply is a failure |
| UserController.RedeemCode | LanGeng.API/Controllers/UserController.cs:151-177 | for a known caller: no Register row with the code is a failure with nothing changed; ExpiresDate <= now is "Verification Code Expired" with nothing changed; otherwise exactly that row gets VerifiedAt := now, and the reply is a failure iff the caller has no status row |
| PostTags.DistinctCons | LanGeng.API/Data/SocialMediaDatabaseContext.cs:114 | a list is duplicate-free iff its tail is and its head does not recur |
| PostTags.IdOf | LanGeng.API/Services/PostService.cs:152 | the id of the hashtag row with that text, or none iff there is no such row |
| PostTags.IdOfInjective | LanGeng.API/Data/SocialMediaDatabaseContext.cs:103 | with unique ids, two texts with the same hashtag id are the same text |
| PostTags.IdOfAppend | LanGeng.API/Services/PostService.cs:153-158 | appending a row for another text leaves a lookup unchanged; appending a new text makes it found |
| PostTags.IdOfPrefix | LanGeng.API/Services/PostService.cs:152 | a text already found is found at the same id after more rows are appended |
| PostTags.EnsureHashtag | LanGeng.API/Services/PostService.cs:152-158 | find-or-create for a tag that has a row or fits its column: an existing row is reused with nothing changed, otherwise one row is appended with the next id; the links are untouched |
| PostTags.EnsureHashtagFacts | LanGeng.API/Data/SocialMediaDatabaseContext.cs:103 | find-or-create keeps one row per tag text, only grows the table, changes no other text's id, and afterwards exactly the tag and the texts that could already be saved can be saved |
| PostTags.LinkAll | LanGeng.API/Services/PostService.cs:150-162 | the per-tag loop only appends rows; every new link is for the post; a failure is a save failure, either of a new hashtag longer than 64 characters or of a link |
| PostTags.LinkAllNext | LanGeng.API/Services/PostService.cs:150-162 | one pass of the loop: a tag k with no row and over 64 characters fails its save with nothing changed; otherwise a failed link save of tag k is the outcome of linking the tags from k, and a saved one leaves the tags after k to link |
| PostTags.LinkStep | LanGeng.API/Services/PostService.cs:152-161 | one step: the new link's key is already taken iff the tag was already linked; otherwise the post becomes linked to exactly its old tags plus this one |
| PostTags.UnlinkedCons | LanGeng.API/Services/PostService.cs:152-161 | after linking the first tag, the rest are all unlinked iff all the tags were unlinked before and the first does not repeat |
| PostTags.LinkAllOutcome | LanGeng.API/Services/PostService.cs:147-162 | linking succeeds iff the tags are distinct, none is linked already and each has a row or is at most 64 characters long; then the post is linked to its old tags plus exactly these |
| PostTags.FreshPostLinks | LanGeng.API/Services/PostService.cs:139-162 | for a new post, linking succeeds iff the content repeats no tag and every tag without a row is at most 64 characters long, and then the post is linked to exactly its content's tags |
| PostTags.Pick | LanGeng.API/Services/PostService.cs:235 | the distinct elements of a list that lie in a set |
| PostTags.Drop | LanGeng.API/Services/PostService.cs:239-255 | the distinct elements of a list that lie outside a set |
| PostTags.Elements | LanGeng.API/Services/PostService.cs:235 | the set of a list's elements |
| PostTags.Intersect | LanGeng.API/Services/PostService.cs:235 | LINQ `Intersect`: distinct, holding exactly the elements in both lists |
| PostTags.Except | LanGeng.API/Services/PostService.cs:239-255 | LINQ `Except`: distinct, holding exactly the elements of the first list not in the second |
| PostTags.ElementsCount | LanGeng.API/Services/PostService.cs:236 | a list has at least as many entries as distinct elements, and exactly as many when distinct |
| PostTags.SubsetCount | LanGeng.API/Services/PostService.cs:236 | a subset at least as large as its superset is equal to it |
| PostTags.SubsetCard | LanGeng.API/Services/PostService.cs:236 | a subset is no larger than its superset |
| PostTags.SkippedUpdateSameTags | LanGeng.API/Services/PostService.cs:235-236 | when the update skips the diff (common as long as both lists), old and new content have the same tag set, so nothing needs to change |
| PostTags.AddedTags | LanGeng.API/Services/PostService.cs:239 | the tags to add are exactly those in the new content and not the old |
| PostTags.RemovedTags | LanGeng.API/Services/PostService.cs:255 | the tags to remove are exactly those in the old content and not the new |
| PostTags.CollectLinks | LanGeng.API/Services/PostService.cs:241-251 | the loop collects one link per added tag, for the post, while finding or creating the hashtags; it stops with a save failure, keeping the hashtags saved before, at the first new tag longer than 64 characters; links are not yet written |
| PostTags.CollectLinksStep | LanGeng.API/Services/PostService.cs:241-251 | one pass of the loop for a tag that can be saved: the links collected so far plus the link of tag k and those of the tags after it are the whole collection |
| PostTags.CollectLinksStop | LanGeng.API/Services/PostService.cs:243-249 | a tag with no row and over 64 characters ends the loop with a save failure and the tables and links collected so far |
| PostTags.CollectLinksSucceeds | LanGeng.API/Services/PostService.cs:241-251 | the collecting loop ends without error iff every added tag has a row or is at most 64 characters long |
| PostTags.CollectLinksFacts | LanGeng.API/Services/PostService.cs:243-250 | each collected link names the hashtag row of its tag |
| PostTags.CollectLinksKeepsOthers | LanGeng.API/Services/PostService.cs:243-249 | collecting leaves the hashtag id of every other text unchanged |
| PostTags.Unlink | LanGeng.API/Services/PostService.cs:256-261 | removing links never adds rows |
| PostTags.UnlinkKeys | LanGeng.API/Services/PostService.cs:256-261 | after removal a (post, hashtag) link remains iff it was there and is not a link of this post to a removed tag's row; a tag without a row is skipped |
| PostTags.UpdateTags | LanGeng.API/Services/PostService.cs:233-262 | the update diff only grows the hashtag table, and a failure is a save failure: of a new added tag over 64 characters before any link is written, or of the batch of links |
| PostTags.NoHashAdded | LanGeng.API/Services/PostService.cs:239 | the added tags contain no `#` |
| PostTags.Relinked | LanGeng.API/Services/PostService.cs:241-261 | adding then removing creates hashtag rows exactly as the collecting loop does |
| PostTags.IdInOnlyOwnTag | LanGeng.API/Services/PostService.cs:258-260 | removing other tags never removes the link of a tag that is kept |
| PostTags.RelinkedAdded | LanGeng.API/Services/PostService.cs:241-253 | when every added tag can be saved, an added tag is linked afterwards |
| PostTags.RelinkedRemoved | LanGeng.API/Services/PostService.cs:255-261 | a removed tag is not linked afterwards |
| PostTags.RelinkedOther | LanGeng.API/Services/PostService.cs:235-261 | every other tag keeps its link state |
| PostTags.UpdateTagsDiff | LanGeng.API/Services/PostService.cs:233-262 | after a successful update, tags in new∖old are linked, tags in old∖new are not, and common tags are untouched |
| PostTags.UpdateTagsLongTag | LanGeng.API/Services/PostService.cs:239-249 | an update that adds a tag with no row and longer than 64 characters fails with a save failure |
| PostService.GetPostById | LanGeng.API/Services/PostService.cs:71-85 | the stored post with that id, or none iff there is none |
| PostService.GetPostBySlug | LanGeng.API/Services/PostService.cs:87-101 | the stored post with that slug, or none iff there is none |
| PostService.GetPostBySlugUnique | LanGeng.API/Data/SocialMediaDatabaseContext.cs:88 | with unique slugs the lookup returns the one post with the slug |
| PostService.GetPostsByGroupId | LanGeng.API/Services/PostService.cs:103-119 | exactly the stored posts of the group, restricted to the member's when a member is given |
| PostService.GetPostsByAuthorId | LanGeng.API/Services/PostService.cs:121-137 | exactly the stored posts of the author |
| PostService.ContentTags | LanGeng.API/Services/PostService.cs:147 | the tags of `"" + Content` contain no `#`, and a null content has none |
| PostService.FindOrCreateHashtag | LanGeng.API/Services/PostService.cs:152-158 | fails with a save failure and nothing changed exactly when the tag has no row and is longer than its 64-character column; otherwise the store changes exactly as `EnsureHashtag` says and the returned id is the tag's |
| PostService.LinkTag | LanGeng.API/Services/PostService.cs:152-161 | a tag without a row and over 64 characters fails its save with nothing changed; otherwise find-or-create the hashtag, then a save failure when the post already has that link, else exactly one link appended |
| PostService.LinkTags | LanGeng.API/Services/PostService.cs:147-163 | the loop over the content's tags ends in the tables and error `LinkAll` describes |
| PostService.LinkEach | LanGeng.API/Services/PostService.cs:150-162 | the loop over the tags ends in the tables and error `LinkAll` describes, stopping at the first failed save of a hashtag or a link |
| PostService.CreatePostAsync | LanGeng.API/Services/PostService.cs:139-171 | a post that cannot be saved (a taken or over-long slug, a missing author or a missing named group) changes nothing; otherwise the post is appended, its tags are linked, the call fails iff the content repeats a tag or names a new tag over 64 characters, and on success the post is linked to exactly its tags |
| PostService.CollectTagLinks | LanGeng.API/Services/PostService.cs:240-251 | the loop's hashtag writes, collected links and error are those of `CollectLinks`, stopping at the first hashtag that cannot be saved |
| PostService.RemoveTagLinks | LanGeng.API/Services/PostService.cs:255-261 | the removal loop leaves exactly the links `Unlink` describes |
| PostService.UpdatePostAsync | LanGeng.API/Services/PostService.cs:221-270 | a missing slug gives "Invalid Post" and changes nothing; otherwise the tables change as the tag diff `UpdateTags` of the stored and the new content says |
| PostService.RelinkTags | LanGeng.API/Services/PostService.cs:236-262 | the tag part of the update: nothing when the old and new tags agree, otherwise the added tags' hashtags found or created (a save failure at the first one that cannot be saved), then the added tags linked in one batch and the removed ones unlinked, as `UpdateTags` says |
| PostService.Extension | LanGeng.API/Services/PostService.cs:187 | the extension contains no `.` |
| PostService.JoinEndsWithLast | LanGeng.API/Services/PostService.cs:187 | a split text rejoined ends with its last piece after a separator |
| PostService.SplitAtSeparator | LanGeng.API/Services/PostService.cs:187 | splitting at a separator that occurs gives at least two pieces |
| PostService.ExtensionMeaning | LanGeng.API/Services/PostService.cs:187 | the extension is the lower-cased text after the last `.`, or the whole lower-cased name without one |
| PostService.MediaKind | LanGeng.API/Services/PostService.cs:188-194 | jpg/png/jpeg are Image, mp3/wav/ogg Audio, mp4/m4a/mkv Video, and nothing else is allowed |
| PostService.ExtensionAfterLastDot | LanGeng.API/Services/PostService.cs:187 | `name.ext` has the lower-cased `ext` as extension, whatever dots `name` holds |
| PostService.UpperCaseImage | LanGeng.API/Services/PostService.cs:187-190 | example: `Holiday.JPG` is an Image |
| PostService.LastExtensionCounts | LanGeng.API/Services/PostService.cs:187-192 | example: `clip.final.mkv` is a Video |
| PostService.InnerExtensionIgnored | LanGeng.API/Services/PostService.cs:187-193 | example: `song.mp3.txt` is not allowed |
| PostService.BareNameImage | LanGeng.API/Services/PostService.cs:187-190 | example: a file named just `jpg` is an Image |
| PostService.TrailingDotRefused | LanGeng.API/Services/PostService.cs:187-193 | example: `photo.png.` has an empty extension and is not allowed |
| PostService.NonEmptyFiles | LanGeng.API/Services/PostService.cs:185 | exactly the files of non-zero length |
| PostService.MediaRowsMeaning | LanGeng.API/Services/PostService.cs:180-208 | the upload fails iff some non-empty file has a refused extension; otherwise one row per non-empty file, in order, with its path under the directory, its kind, the post id and the time |
| PostService.MediaRowsRefused | LanGeng.API/Services/PostService.cs:180-208 | the upload fails iff some non-empty file has a refused extension |
| PostService.MediaRowsShape | LanGeng.API/Services/PostService.cs:180-208 | a successful upload gives one row per non-empty file, in order, with its path, kind, post id and time |
| PostService.SaveMedia | LanGeng.API/Services/PostService.cs:182-210 | "Not allowed file" with no row saved, or all the rows saved with the next media ids |
| PostService.PlanMediaMeaning | LanGeng.API/Services/PostService.cs:177-208 | "Invalid post" iff no post has the slug; "Not allowed file" iff a file is refused; otherwise every row names the post and lies under the author's directory for the post |
| PostService.CreateMediaPostAsync | LanGeng.API/Services/PostService.cs:173-219 | the refusal with nothing saved, or the planned rows appended with the next media ids |
| PostService.DropIds | LanGeng.API/Services/PostService.cs:282 | exactly the media rows whose id is not listed |
| PostService.DropNoIds | LanGeng.API/Services/PostService.cs:280 | an empty id list removes nothing |
| PostService.WithoutDropIds | LanGeng.API/Services/PostService.cs:283-291 | deleting one more id is dropping the longer list |
| PostService.DropIdsSame | LanGeng.API/Services/PostService.cs:282 | two id lists that agree on the stored rows drop the same rows |
| PostService.IdsOf | LanGeng.API/Services/PostService.cs:283 | the ids of the found rows, in order |
| PostService.RemoveMedia | LanGeng.API/Services/PostService.cs:280-292 | exactly the rows with a listed id are removed |
| PostService.DeleteMediaRows | LanGeng.API/Services/PostService.cs:283-291 | the loop removes exactly the found rows' ids |
| PostService.DropFoundIds | LanGeng.API/Services/PostService.cs:282-291 | deleting the rows found by id equals dropping the listed ids |
| PostService.UpdateMediaPostAsync | LanGeng.API/Services/PostService.cs:272-333 | the refusal of the upload with nothing changed, or new rows appended and then every row with a listed id removed |
| PostService.DeleteCheck | LanGeng.API/Services/PostService.cs:343-353 | a refusal is "Not allowed to delete this post" or the null-group failure |
| PostService.DeleteAllowed | LanGeng.API/Services/PostService.cs:343-353 | deletion is allowed iff the user is the author or the creator of the post's group; a group id with no group row fails on the null navigation |
| PostService.SoftDeleted | LanGeng.API/Services/PostService.cs:354 | only the post's DeletedAt changes |
| PostService.DeleteOutcome | LanGeng.API/Services/PostService.cs:339-356 | "Deletion Failed" without a post; the authorisation refusal; "Failed to delete post" when DeletedAt already holds the time, so the save writes nothing; success otherwise |
| PostService.DeleteFound | LanGeng.API/Services/PostService.cs:343-356 | the outcome above, and the post is soft-deleted exactly on success |
| PostService.DeletePostAsync | LanGeng.API/Services/PostService.cs:335-363 | the post with the id: refused with nothing changed, or soft-deleted |
| PostService.DeletePostBySlugAsync | LanGeng.API/Services/PostService.cs:365-393 | the post with the slug: refused with nothing changed, or soft-deleted |
| PostQuery.AuthorOf | LanGeng.API/Mapping/UserMapping.cs:48 | the post's author row, or none iff no user has its AuthorId |
| PostQuery.GroupOf | LanGeng.API/Mapping/UserMapping.cs:49 | the post's group row, or none when it has no GroupId or no such group |
| PostQuery.ActiveTerm | LanGeng.API/Services/PostService.cs:28-43 | an enabled term is non-empty and has no upper-case letter |
| PostQuery.TrimEmpty | LanGeng.API/Services/PostService.cs:35 | trimming leaves nothing iff the text is all white space |
| PostQuery.ActiveTermMeaning | LanGeng.API/Services/PostService.cs:28-43 | a filter is disabled iff its value is null or blank; an enabled term is the trimmed, lower-cased value |
| PostQuery.TagHitLinked | LanGeng.API/Services/PostService.cs:47-50 | a post passes the tag filter iff it is linked to one of the listed tags |
| PostQuery.NoFilterMatchesAll | LanGeng.API/Services/PostService.cs:35-50 | with no filter every post matches |
| PostQuery.Matching | LanGeng.API/Services/PostService.cs:33-50 | exactly the posts passing every enabled filter, each as often as stored |
| PostQuery.InsertByUpdated | LanGeng.API/Services/PostService.cs:56 | inserting into a newest-first list keeps it newest first and adds exactly that post |
| PostQuery.NoNewerThanHead | LanGeng.API/Services/PostService.cs:56 | nothing after the head of a newest-first list is newer than the head |
| PostQuery.SortByUpdated | LanGeng.API/Services/PostService.cs:56 | newest first by UpdatedAt, and a permutation of the input; posts with equal UpdatedAt keep one fixed order of the model's choosing |
| PostQuery.StartOf | LanGeng.API/Services/PostService.cs:54 | page <= 1 starts at 0, and page p >= 1 starts at (p-1)*limit |
| PostQuery.Window | LanGeng.API/Services/PostService.cs:57-58 | Skip/Take: at most `limit` elements, the ones from `start` on |
| PostQuery.WindowNewestFirst | LanGeng.API/Services/PostService.cs:56-58 | a window of a newest-first list is newest first |
| PostQuery.PagesAdjacent | LanGeng.API/Services/PostService.cs:54 | page p+1 starts where page p ends |
| PostQuery.GetPostsAsync | LanGeng.API/Services/PostService.cs:24-69 | the page echoes the argument, the limit defaults to 16, the total counts all matching posts, and at most `limit` matching stored posts are returned |
| PostQuery.GetPostsPage | LanGeng.API/Services/PostService.cs:52-60 | the page is newest first and is the slice from StartOf(page, limit) of the matching posts sorted newest first |
| PostQuery.NonPositivePageIsFirst | LanGeng.API/Services/PostService.cs:54-62 | a page <= 0 returns the posts of page 1 but reports the page it was given |
| PostQuery.TotalIndependentOfPage | LanGeng.API/Services/PostService.cs:52 | the total is the same whatever page and limit are asked |
| PostController.FirstFreeFrom | LanGeng.API/Controllers/PostController.cs:62-69 | the first untaken candidate slug from try k on, or none iff every later candidate is taken |
| PostController.FirstFreeTry | LanGeng.API/Controllers/PostController.cs:62-69 | the first candidate slug no stored post uses, or none iff all candidates collide |
| PostController.FirstFreeTryIs | LanGeng.API/Controllers/PostController.cs:62-69 | a free try that follows only taken ones is the first free try |
| PostController.SlugTries | LanGeng.API/Controllers/PostController.cs:60-69 | the bounded loop of at most 16 tries keeps exactly the first free candidate, or none when all 16 collide |
| PostController.KeptSlugIsFree | LanGeng.API/Controllers/PostController.cs:64-67 | the slug kept is not used by any stored post |
| PostController.Create | LanGeng.API/Controllers/PostController.cs:53-134 | Unauthorized without a user; "Failed to create post, try again later." with nothing inserted when all 16 slugs collide; otherwise the post, then its media, then its hashtag links, with the reply naming the first failure |
| PostController.SavePost | LanGeng.API/Controllers/PostController.cs:70-123 | the post is saved or refused, then the media and links are written as `MediaRows` and `LinkAll` say |
| PostController.SaveMediaAndTags | LanGeng.API/Controllers/PostController.cs:74-123 | a refused file stops the request before any link; otherwise the media rows and the tag links are written as `LinkAll` says, up to the first hashtag or link that cannot be saved |
| PostController.CreateFailsOnlyOnGroup | LanGeng.API/Controllers/PostController.cs:64-72 | with a free slug (16 characters, so within its column) and a signed-in author, the save fails iff the named group does not exist |
| PostController.Delete | LanGeng.API/Controllers/PostController.cs:138-174 | Unauthorized without a user; "Deletion Failed" without the post; the service's authorisation rule; on success only the post's DeletedAt changes |
| PostController.TagList | LanGeng.API/Controllers/PostController.cs:181 | the split gives at least one piece and no piece holds `,` |
| PostController.TagListMeaning | LanGeng.API/Controllers/PostController.cs:181 | the pieces rejoined are the lower-cased Tags text without `#` |
| PostController.PerPageMatching | LanGeng.API/Controllers/PostController.cs:186-197 | exactly the posts passing the controller's filter |
| PostController.GetPerPage | LanGeng.API/Controllers/PostController.cs:177-221 | no page (the validation problem) iff Page is negative, Limit is given outside 1..64 or Author or Group is over 255 characters; otherwise the reported page is Page if > 0 else 1, the limit defaults to 16 and lies in 1..64, the total counts every match, and the posts are the Skip/Take window of the unsorted matches, sorted only afterwards |
| PostController.KeywordIgnoredWithoutGroup | LanGeng.API/Controllers/PostController.cs:192-196 | the keyword clause accepts any post without a group, whatever the keyword |
| PostController.SortAfterWindowDiffers | LanGeng.API/Controllers/PostController.cs:201-205 | example: with limit 1 the controller returns the older of two posts (of a total of 2), where the service would return the newer |
| GroupService.UserOf | LanGeng.API/Services/GroupService.cs:36-37 | the user with the id when one exists, none exactly when no row has it |
| GroupService.GroupMatching | LanGeng.API/Services/GroupService.cs:33-45 | exactly the groups passing the creator-or-member username filter and the name-or-description keyword filter, in stored order, each kept as often as stored |
| GroupService.UpperCaseTermNeverHits | LanGeng.API/Services/GroupService.cs:36-43 | under an ordinal, case-sensitive collation, a search term with an upper-case letter never matches a group name, description, creator or member name, since the stored side is lower-cased and the term is not |
| GroupService.InsertByPrivacy | LanGeng.API/Services/GroupService.cs:48 | inserting into a privacy-ordered list keeps it ordered and adds exactly that group |
| GroupService.NotBelowHead | LanGeng.API/Services/GroupService.cs:48 | every group placed after the head of an ordered list ranks no lower than that head |
| GroupService.SortByPrivacy | LanGeng.API/Services/GroupService.cs:48 | the result is ordered by privacy and is a permutation of the input; groups of equal privacy keep one fixed order of the model's choosing |
| GroupService.GetGroupsAsync | LanGeng.API/Services/GroupService.cs:23-61 | the page echoes the page and the limit (default 16), the total counts every matching group, and the page holds at most limit matching groups |
| GroupService.GetGroupsPage | LanGeng.API/Services/GroupService.cs:47-53 | the page is ordered by privacy and is the window at the page's start of the sorted matches |
| GroupService.WindowOrdered | LanGeng.API/Services/GroupService.cs:49-51 | a window of an ordered list is ordered |
| GroupService.UpperCaseSearchFindsNothing | LanGeng.API/Services/GroupService.cs:27-44 | under an ordinal, case-sensitive collation, an upper-case keyword or username gives total 0 and an empty page |
| GroupService.NoSearchCountsAll | LanGeng.API/Services/GroupService.cs:46 | with no keyword and no username every stored group is counted |
| GroupService.FirstGroup | LanGeng.API/Services/GroupService.cs:67-70 | the first group kept by the predicate, none exactly when no group passes |
| GroupService.GetGroupBySlugUnsafeAsync | LanGeng.API/Services/GroupService.cs:63-77 | a stored group with the slug, none exactly when no group has it |
| GroupService.GetGroupBySlugWithAllPrivacyAsync | LanGeng.API/Services/GroupService.cs:79-99 | a group with the slug whose creator or one of whose members has the username; none exactly when no group with the slug qualifies |
| GroupService.GetGroupBySlugWithNonPrivateAsync | LanGeng.API/Services/GroupService.cs:101-115 | a group with the slug that is not Private; none exactly when every group with the slug is Private |
| GroupService.GetGroupBySlugWithPublicOnlyAsync | LanGeng.API/Services/GroupService.cs:117-131 | a Public group with the slug; none exactly when no group with the slug is Public |
| GroupService.FirstWithSlug | LanGeng.API/Services/GroupService.cs:63-131 | with unique slugs a filtered lookup is the unfiltered one when its group passes, else none |
| GroupService.VisibilityOfSlugGroup | LanGeng.API/Services/GroupService.cs:79-131 | each privacy-aware lookup equals the plain slug lookup restricted by its privacy or membership test |
| GroupService.CreatorSeesOwnGroup | LanGeng.API/Services/GroupService.cs:85-91 | the creator always finds their own group, whatever its privacy |
| GroupService.CreateGroupAsync | LanGeng.API/Services/GroupService.cs:133-156 | on success the group and an Approved membership of its creator, joined now, are appended; a duplicate slug, a group or member slug over 255 characters, a missing creator or a name over 255 characters fails with nothing stored, and these are the only failures |
| GroupService.JoinCheck | LanGeng.API/Services/GroupService.cs:193-198 | joining is refused when no non-Private group has the slug, and as already requested when the user has any membership row in it |
| GroupService.JoinGroupAsync | LanGeng.API/Services/GroupService.cs:189-216 | the returned error and the new member rows are those `JoinOutcome` decides from the tables before the call |
| GroupService.JoinOutcome | LanGeng.API/Services/GroupService.cs:189-216 | a refused join stores nothing; otherwise the save fails iff the drawn slug is taken or longer than 255 characters, or the user is not stored, and else exactly one Request row for the user and group is appended |
| GroupService.JoinTwiceRefused | LanGeng.API/Services/GroupService.cs:194-198 | after a successful join a second join by the same user is refused as already requested |
| GroupService.AnswerTarget | LanGeng.API/Services/GroupService.cs:222-230 | no group, non-creator for an admin decision, and no pending request each give their own error; otherwise the first Request row of the member |
| GroupService.Answered | LanGeng.API/Services/GroupService.cs:231-236 | an answered membership keeps its id, its slug, its group and its user |
| GroupService.UpdateMemberStatusAsync | LanGeng.API/Services/GroupService.cs:218-244 | a refusal changes nothing; otherwise only the first pending request of the member is rewritten with the status |
| GroupService.OnlyCreatorDecides | LanGeng.API/Services/GroupService.cs:225-227 | Approved, Rejected and Removed are only ever applied by the group's creator |
| GroupService.AnswerIgnoresGroup | LanGeng.API/Services/GroupService.cs:228-230 | a pending request to another group is found and answered through the slug of the caller's group |
| GroupService.AnsweredJoinTime | LanGeng.API/Services/GroupService.cs:231-236 | helper fact: Approved sets JoinedAt to now, other statuses keep it, and the status and UpdatedAt are written |
| GroupService.DeleteTarget | LanGeng.API/Services/GroupService.cs:167-170 | a stored group with the slug created by the caller, none exactly when the caller created no group with the slug |
| GroupService.CascadeDeleted | LanGeng.API/Services/GroupService.cs:172-178 | one post per stored post |
| GroupService.CascadeMeaning | LanGeng.API/Services/GroupService.cs:172-178 | only DeletedAt changes, exactly the group's posts get it, and a second cascade changes nothing |
| GroupService.DeleteGroupAsync | LanGeng.API/Services/GroupService.cs:163-187 | a caller who did not create the group gets the permission error and nothing changes; otherwise the group and all its posts are soft-deleted at the given time |
| GroupService.CascadePosts | LanGeng.API/Services/GroupService.cs:172-178 | the posts become the cascade of the old posts |
| GroupController.GetBySlug | LanGeng.API/Controllers/GroupController.cs:37-62 | not found exactly when no group is shown; an anonymous viewer only sees Public groups, a signed-in one only groups they created or belong to |
| GroupController.PublicGroupHiddenFromOutsiders | LanGeng.API/Controllers/GroupController.cs:41-56 | a Public group is shown without a session but not found for a signed-in outsider |
| GroupController.PrivateGroupNeedsSession | LanGeng.API/Controllers/GroupController.cs:50-55 | a group that is not Public is never shown without a session |
| GroupController.ToEntity | LanGeng.API/Mapping/GroupMapping.cs:11-22 | the name, creator and description carry over, the privacy defaults to Public and the slug is drawn from the name |
| GroupController.ValidGroupNameFits | LanGeng.API/Dtos/CreateGroupDto.cs:8 | a group mapped from a request that passes validation fits the 255-character name column, so for such a request the name refusal of the save cannot happen |
| GroupController.Create | LanGeng.API/Controllers/GroupController.cs:71-92 | a name outside 4..255 characters or a description over 1024 gets the validation problem and stores nothing; otherwise no session is Unauthorized, and a signed-in caller gets the service's outcome, as success or its error as a BadRequest |
| GroupController.Delete | LanGeng.API/Controllers/GroupController.cs:101-123 | no session is Unauthorized; otherwise the creator's soft delete with its cascade, or the permission error |
| GroupController.RequestJoin | LanGeng.API/Controllers/GroupController.cs:132-151 | a signed-in caller always hears success while the store changes only as the join allows: the Request row is added iff the join check passes and its slug is free and fits its column |
| GroupController.UpdateMemberStatus | LanGeng.API/Controllers/GroupController.cs:160-168 | a signed-in caller always hears success while the store changes only as the answer allows |
| ReactionController.UpsertMeaning | LanGeng.API/Controllers/ReactionController.cs:40-55 | rows under other keys are untouched, a missing key appends the new row, a present key rewrites its row, and key uniqueness is kept |
| ReactionController.ReactPostOnePerPair | LanGeng.API/Controllers/ReactionController.cs:40-55 | after reacting, some row for the user and post has the kind and time, other pairs are untouched, and one row per pair is kept |
| ReactionController.ReactCommentOnePerPair | LanGeng.API/Controllers/ReactionController.cs:110-125 | the same for a user's reaction to a comment |
| ReactionController.ReactPostIdempotent | LanGeng.API/Controllers/ReactionController.cs:40-55 | reacting twice with the same kind at the same time leaves the rows as after once |
| ReactionController.ReactPost | LanGeng.API/Controllers/ReactionController.cs:31-68 | the reply and the new reaction rows are those `ReactPostOutcome` decides from the tables before the call |
| ReactionController.ReactPostOutcome | LanGeng.API/Controllers/ReactionController.cs:31-68 | no session is Unauthorized, an unknown slug a bare 404, otherwise the user's reaction to the post is upserted with the kind, one row per pair kept |
| ReactionController.ReactComment | LanGeng.API/Controllers/ReactionController.cs:101-138 | the reply and the new reaction rows are those `ReactCommentOutcome` decides from the tables before the call |
| ReactionController.ReactCommentOutcome | LanGeng.API/Controllers/ReactionController.cs:101-138 | no session is Unauthorized, an unknown comment a bare 404, otherwise the user's reaction to the comment is upserted with the kind, one row per pair kept |
| ReactionController.DeleteReactionMeaning | LanGeng.API/Controllers/ReactionController.cs:85 | no row with the id remains, every other row does, and one row per pair is kept |
| ReactionController.DeletePost | LanGeng.API/Controllers/ReactionController.cs:72-97 | a signed-in caller removes the post reaction with the id, whoever made it, and hears success even when none existed |
| ReactionController.DeleteComment | LanGeng.API/Controllers/ReactionController.cs:142-151 | the same for comment reactions |
| CommentController.Create | LanGeng.API/Controllers/CommentController.cs:30-54 | no session is Unauthorized, an unknown slug is a bare 404, a reply to a missing comment fails, otherwise exactly the new comment is appended |
| CommentController.ReplyToAnyPost | LanGeng.API/Controllers/CommentController.cs:40-42 | any stored comment may be replied to, whichever post it is on |
| CommentController.SoftDeletedComment | LanGeng.API/Controllers/CommentController.cs:69 | the row count is kept |
| CommentController.SoftDeleteMeaning | LanGeng.API/Controllers/CommentController.cs:66-70 | only the row's DeletedAt changes and deleting again changes nothing |
| CommentController.Delete | LanGeng.API/Controllers/CommentController.cs:58-82 | a signed-in caller soft-deletes the first comment with the id, whoever wrote it; an unknown id is "Deletion Failed" |

## Left out

- JWT signing and validation (RFC 7519 with HMAC-SHA256) and `GenerateToken`: library cryptography. Validation is a parameter from token to user name, and a new token's text is a parameter.
- Password hashing (`Hash`, `VerifyHashed`): the helper is not part of this model. It is a parameter predicate.
- E-mail sending and the HTML templates: I/O. The model keeps only the link text that registration builds. The send's result is ignored, as in the code.
- File I/O for media (stream copy, file delete, path building): only the extension classification and the media rows are modelled.
- Unicode: NFD normalisation, Unicode categories, culture-sensitive `ToLower` and Unicode `\w` are replaced by ASCII approximations in `Text`. `RemoveAccents` drops combining marks from an input that is taken as already decomposed.
- Randomness and clocks: `Random`, `Guid`, `DateTime.Now` and `DateTime.Ticks` are parameters, and time is whole seconds.
- Collation: the store is SQL Server (`Program.cs`:34), whose default collation ignores case. The model compares ordinally everywhere: `Contains` is ordinal substring search on the lower-cased ASCII text, and equality tests and the unique indexes (e-mail, username, token texts, slugs, hashtag text) in `KeyAbsent` and `UniqueBy` are case-sensitive. Under the default collation, `HasEmailAsync` and those indexes would treat two spellings that differ only in case as equal, and the upper-case search results above would not hold.
- Search wildcards: `Contains` is translated to SQL `LIKE`, where `%`, `_` and `[` in a search term act as wildcards. The model treats every character of a term literally.
- EF Core mechanics: query translation, tracking and `NoTracking`, `Include`, split queries, migrations, foreign-key cascades and the exact semantics of `SetValues`. Each `SetValues` is treated as writing the named fields.
- UserController.Dispatch: a successful account deletion removes only the status, profile and user rows. The rows the store would cascade-delete with the user (session and verification tokens, codes, the user's posts with their hashtag links and media, memberships, events) stay in the model. Of the references that block the delete, the model checks groups, comments and reactions; the session logs (`Migrations/SocialMediaDatabaseContextModelSnapshot.cs`:798-803) and user events naming one of the user's posts are not checked.
- UserController.Apply: its AccountDeletion branch has the same gaps as `Dispatch`: no cascades, and no check of session logs or user events.
- UserController.DeleteAccount: the same gaps: no cascades, and no check of session logs or user events.
- UserController.DeleteUser: the same gaps: the user's dependent rows are not cascade-deleted, and session logs and user events do not block the delete.
- UserController.DispatchedOk: "no user row is left" after a deletion says nothing of the cascaded rows, which the model keeps.
- UserController.UseLink: after a deletion the stamped link of the deleted user remains in the model, where the store would cascade-delete it.
- UserController.VerifyToken: the same: after a deletion the stamped link and the user's other dependent rows remain in the model.
- Validation: `Required` counts only ASCII white space as blank, where `string.IsNullOrWhiteSpace` uses Unicode white space. `EmailAddress` is the attribute's one-`@` rule (exactly one `@`, neither first nor last). The body of the validation problem (the failing fields and their messages) is not modelled.
- GroupController.Create: `CreateGroupDto.Name` is a non-nullable `string` without `[Required]`. With nullable reference types enabled, ASP.NET treats it as required, and a name of four spaces would then be refused; the project file that decides this is not part of this model, so only the explicit `MinLength`/`MaxLength` are checked.
- PostController.GetPerPage: `Limit` is an `int?` in `FilterPostDto` and an optional natural in the model, so a negative limit cannot be stated; validation refuses it in the code too. The start `((Page > 0 ? Page : 1) - 1) * limit` (`Controllers/PostController.cs`:202) is 32-bit arithmetic: for a page above about 2^31 / limit it wraps around, while the model computes it unbounded.
- Column lengths: `UserFits` and `Fits` count Unicode scalar values, while `nvarchar` columns count UTF-16 code units, so a text with characters outside the Basic Multilingual Plane can fit in the model and not in the store.
- PostService.LinkTag: a tag repeated in the content makes EF Core throw an `InvalidOperationException` because an entity with that key is already tracked, before the store is asked; its text differs from the save failure the model answers. The outcome (the request fails, and the links saved before stay) is the same.
- Reply bodies: `Reply.Ok` carries a message and an optional token only. The response DTOs the code puts beside them (`currentUser.ToResponseDto()` in `RequestDelete`, `UserController.cs`:62, and the other `ResponseData` payloads) are not modelled.
- ReactionController.ReactPost: when a reaction exists it writes only its kind and `UpdatedAt`. The code's values object also carries `PostId` (set to the reaction's own id), `UserId` and an `Id` of 0; those are not written, because their effect depends on EF tracking. EF Core refuses to change the key of a tracked entity, so in the store a repeat reaction most likely fails with that exception's text as a BadRequest instead of updating the row.
- ReactionController.ReactComment: the same as `ReactPost`, including the `Id` of 0 and the likely BadRequest on a repeat reaction. The values object there is even a `PostReaction` written into a `CommentReaction` row.
- Exceptions: every `try`/`catch` that turns an exception into a BadRequest with the exception text is modelled only where the model knows the error (a failed save, a missing row). An exception from the store itself is not modelled.
- Concurrency: the check-then-insert steps (post slug probing, group join) are sequential in the model, so races between requests are not modelled.
- Soft deletion is not a filter: lookups by slug or id also find rows with `DeletedAt` set, as the code does.
- Group↔member relation: `SocialMediaDatabaseContext.cs` maps `Members` both by `GroupId` (line 73) and by `MemberId` (line 81). The model uses `GroupId`, the key the services write. EF Core keeps the last configuration of a relationship, and the snapshot has both foreign keys of `GroupMembers` on `MemberId` and none on `GroupId` (`Migrations/SocialMediaDatabaseContextModelSnapshot.cs`:664-676). In the store this most likely has the consequences on the next four lines, which the model does not show.
- GroupService.CreateGroupAsync: `GroupId = Group.Id` is read while the new group's id is still 0 (`Services/GroupService.cs`:142). When the group is saved, EF sets the member row's `MemberId` to the new group's id, so the creator's row names the group id as its user, and the save fails unless a user has that id.
- GroupService.JoinGroupAsync: the request row (`Services/GroupService.cs`:203-207) satisfies the group key only when some group's id equals the user's id.
- GroupService.GetGroupsAsync: the `Members` navigation in the username filter (`Services/GroupService.cs`:37) selects the membership rows whose `MemberId` is the group's id, not those whose `GroupId` is.
- GroupService.GetGroupBySlugWithAllPrivacyAsync: the same for its member test (`Services/GroupService.cs`:88).
- Membership uniqueness per (group, user) is not a database key. It is kept only by `JoinGroupAsync`'s check, and the model states it as that check.
- Group profile images and user profile contents: `ProfileImage`, `Bio` and the profile endpoints carry no rules beyond copying. Profile rows appear only where account deletion removes them.
- `UpdateGroupAsync` and `UpdateUserAsync` throw NotImplemented. `UpdateUserStatusAsync` passes an un-awaited task. `UpdateProfile` never saves. None of them is modelled.
- The remaining `UserService` and `UserController` endpoints (listing users, profile reads and writes): field copying with no rule to state.
- The seeders, `Program.cs` wiring and the session-logging middleware: random data, configuration and log I/O.
- The field-copying mappings (`PostCommentMapping`, `PostReactionMapping`, `UserProfileMapping`, `GroupMapping.ToDto`) and the DTO records: copying only. `GroupMapping.ToEntity` is modelled as `GroupController.ToEntity`.
- Entity files from other code revisions (`GroupMember` without a slug or join time, `UserPost` without `DeletedAt` or hashtags): the model takes field shapes from the services and the soft-delete migration.
- The test project calls members that the controllers do not have. Only its asserted outcomes (conflict on a taken e-mail) inform the model.
- Data.Database.AddLink: does not refuse a second row with a taken `Token`, although `UserVerificationTokens` has a unique index on it (`Migrations/SocialMediaDatabaseContextModelSnapshot.cs`:625-626). Every caller stores a fresh slug (random body and clock ticks), for which a clash is improbable, but in the store it would make the save throw. The callers below therefore always succeed in the model.
- UserController.RequestDelete: never fails on a taken verification token text, because `AddLink` does not enforce its unique index.
- UserService.AddRegistration: the same: the Register link's save never fails on a taken token text.
- UserService.CreateVerificationTokenAsync: the same: the new link's save never fails on a taken token text.
- UserService.DeleteUserAsync: no endpoint calls it, so it is not modelled. It is a soft delete through `SetValues` on `DeletedAt`, which the soft-delete migration adds to `Users` (`Migrations/20250113193621_SoftDeleteMethod.cs`:14-18).
- Post media upload: `Dtos/CreateUserPostDto.cs` declares `Media` as `string[]?`, while `PostController` reads a file name from each element. The model's `files` parameter follows the controller, which belongs to another revision of the DTO.
- UserController.VerifyCode: the controller's constructor sets `NoTracking` (`Controllers/UserController.cs`:31), and the code row is read by `FirstAsync` without the `AsTracking()` that `VerifyToken` uses at :86 and :94. That row is detached, so `SetValues` followed by `SaveChangesAsync` (`Controllers/UserController.cs`:158-159) writes nothing: in the store the code row is never stamped. The model stamps `VerifiedAt` as saved. The reply is unaffected, because it depends only on the second save's count.
- UserController.RedeemCode: the same: the stamp of the detached code row, which the model applies, is never saved in the store; the reply is unaffected.
- UserController.VerifyToken: `T` and `U` in `VerifyTokenDto` are non-nullable strings without attributes. With nullable reference types enabled, ASP.NET treats them as required, and a request without `t` or `u` would get a validation problem; the project file that decides this is not part of this model. The model's `t` and `u` are always strings, so such a request cannot be stated (without validation it would match no row and answer "Invalid Verification Link"). A request without `s` is modelled.
- CommentController.Create: `Slug` and `Content` in `CreatePostCommentDto` are non-nullable strings without attributes. With nullable reference types enabled they are implicitly required, so a missing or blank content would get a validation problem before the action runs; the project file that decides this is not part of this model, and the model stores any content, blank included.
- Integer widths: ids are unbounded naturals. The services take page numbers as `short` and limits as `byte`; `FilterPostDto` has an `int` page and an `int?` limit (see `PostController.GetPerPage` above). All of them are unbounded in the model, so no overflow of a page start is modelled.
