/**
 * `UserVerification`: the defaults of a new verification-code row. The code
 * is `Random.Next(111, 999999)` printed with six digits; the roll is a
 * parameter.
 */
module UserVerification {
  import opened Wrappers
  import opened Text
  import opened Entities

  const CodeWidth := 6
  const MinRoll := 111
  /** `Random.Next(min, max)` never returns `max`. */
  const MaxRollExclusive := 999999

  /** The code text for a roll: the number zero-padded to six digits. */
  function CodeOf(roll: nat): string
  {
    ZeroPadded(roll, CodeWidth)
  }

  /** A new verification row of the given kind for the user, created at `now`. */
  function NewVerification(kind: VerificationType, userId: nat, email: Option<string>, roll: nat, now: Time): (v: Verification)
    requires MinRoll <= roll < MaxRollExclusive
    ensures v.kind == kind && v.userId == userId && v.email == email
    ensures v.code == CodeOf(roll)
    ensures v.expiresDate == now + EightMinutes && v.verifiedAt.None? && v.createdAt == now
  {
    Verification(0, kind, CodeOf(roll), userId, email, now + EightMinutes, None, now)
  }

  /** Every code is exactly six decimal digits and denotes its roll, between 111 and 999998. */
  lemma CodeShape(roll: nat)
    requires MinRoll <= roll < MaxRollExclusive
    ensures |CodeOf(roll)| == CodeWidth && AllDigits(CodeOf(roll))
    ensures ParseDecimal(CodeOf(roll)) == roll
    ensures 111 <= ParseDecimal(CodeOf(roll)) <= 999998
  {
    assert Pow10(6) == 1000000;
    DecimalLength(roll, 6);
    ZeroPaddedRoundTrip(roll, CodeWidth);
  }

  /** Different rolls give different codes. */
  lemma CodeInjective(roll1: nat, roll2: nat)
    requires MinRoll <= roll1 < MaxRollExclusive && MinRoll <= roll2 < MaxRollExclusive
    ensures CodeOf(roll1) == CodeOf(roll2) ==> roll1 == roll2
  {
    CodeShape(roll1);
    CodeShape(roll2);
  }

  /** Example: the smallest roll prints with three leading zeros. */
  lemma SmallestCode()
    ensures CodeOf(111) == "000111"
  {
    assert Decimal(111) == "111";
  }
}
