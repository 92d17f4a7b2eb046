/**
 * The checks of the data-annotation attributes that ASP.NET runs on a
 * request DTO before an `[ApiController]` action, as far as the core's
 * DTOs use them.
 */
module Validation {
  import opened Wrappers
  import opened Text

  /** `[Required]` on a string: not null, empty or white space only. */
  predicate Required(s: string)
  {
    exists i | 0 <= i < |s| :: !IsWhite(s[i])
  }

  /** `[MinLength(min)]` together with `[StringLength(max)]` or `[MaxLength(max)]`. */
  predicate LengthWithin(s: string, min: nat, max: nat)
  {
    min <= |s| <= max
  }

  /** `[StringLength(max)]` on a nullable string: null passes. */
  predicate OptionalAtMost(s: Option<string>, max: nat)
  {
    s.None? || |s.value| <= max
  }

  /** `[EmailAddress]`: exactly one `@`, neither the first nor the last character. */
  predicate EmailAddress(s: string)
  {
    var k := IndexOf(s, '@');
    k.Some? && 0 < k.value < |s| - 1 && '@' !in s[k.value + 1..]
  }

  /** A text of digits is not blank unless empty. */
  lemma DigitsRequired(s: string)
    requires s != [] && AllDigits(s)
    ensures Required(s)
  {
    assert !IsWhite(s[0]);
  }
}
