/**
 * `UserVerificationToken`: the defaults of a new verification-link row.
 * The default token is a slug of the empty phrase; the services always
 * replace it with a slug of the username.
 */
module UserVerificationToken {
  import opened Wrappers
  import opened Entities
  import SlugHelper

  /** A new link row of the given kind for the user with `token`, created at `now`. */
  function NewVerificationToken(kind: VerificationType, userId: nat, email: Option<string>, token: string, now: Time): (v: VerificationToken)
    ensures v.kind == kind && v.userId == userId && v.email == email && v.token == token
    ensures v.expiresDate == now + EightMinutes && v.verifiedAt.None? && v.createdAt == now
  {
    VerificationToken(0, kind, token, userId, email, now + EightMinutes, None, now)
  }

  /** The token a row gets when none is given: `SlugHelper.Create()`. */
  function DefaultToken(rolls: seq<nat>, ticks: nat): string
    requires |rolls| >= SlugHelper.BodyLength - 1 && SlugHelper.ValidRolls(rolls)
  {
    SlugHelper.Slug("", rolls, ticks)
  }

  /** A default token has an empty prefix: it starts with '-' and holds hyphens at 32 and 48. */
  lemma DefaultTokenShape(rolls: seq<nat>, ticks: nat)
    requires |rolls| >= SlugHelper.BodyLength - 1 && SlugHelper.ValidRolls(rolls)
    ensures var t := DefaultToken(rolls, ticks); t[0] == '-' && t[32] == '-' && t[48] == '-'
  {
    SlugHelper.EmptyPhraseSlug(rolls, ticks);
    SlugHelper.SlugLayout("", rolls, ticks);
  }
}
