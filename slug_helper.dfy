/**
 * `SlugHelper.Create`: a readable, URL-safe slug made of a normalised
 * prefix of the phrase (at most 16 characters of `[a-z0-9-]`), a hyphen,
 * random characters up to a 65-character body with hyphens forced at
 * positions 32 and 48, and the clock's tick counter appended in decimal.
 *
 * The random generator and the clock are parameters: `rolls` are the
 * successive values of `Random.Next(36)`, `ticks` is `DateTime.Now.Ticks`.
 */
module SlugHelper {
  import opened Text

  const MaxLength := 16
  /** Length of the slug before the tick counter. */
  const BodyLength := 65
  const Alphabet := "abcdefghijklmnopqrstuvwxyz0123456789"

  /** Unicode combining diacritical marks, the non-spacing marks of Latin text. */
  predicate IsNonSpacingMark(c: char) { '\U{0300}' <= c <= '\U{036F}' }

  /** The decomposed text with its non-spacing marks removed. */
  function DropMarks(s: string): (r: string)
    ensures forall i | 0 <= i < |r| :: !IsNonSpacingMark(r[i]) && r[i] in s
    ensures |r| <= |s|
  {
    if s == [] then []
    else DropMarks(s[..|s| - 1]) + (if IsNonSpacingMark(s[|s| - 1]) then [] else [s[|s| - 1]])
  }

  lemma {:induction false} DropMarksOfUnmarked(s: string)
    requires forall i | 0 <= i < |s| :: !IsNonSpacingMark(s[i])
    ensures DropMarks(s) == s
  {
    if s != [] {
      DropMarksOfUnmarked(s[..|s| - 1]);
    }
  }

  /**
   * `RemoveAccents`: walks the canonically decomposed phrase and keeps every
   * character that is not a non-spacing mark.
   */
  method RemoveAccents(decomposed: string) returns (r: string)
    ensures r == DropMarks(decomposed)
  {
    r := "";
    var i := 0;
    while i < |decomposed|
      invariant 0 <= i <= |decomposed|
      invariant r == DropMarks(decomposed[..i])
    {
      var c := decomposed[i];
      assert decomposed[..i + 1][..i] == decomposed[..i];
      if !IsNonSpacingMark(c) {
        r := r + [c];
      }
      i := i + 1;
    }
    assert decomposed[..i] == decomposed;
  }

  /** Characters the pattern `[^a-z0-9\s-]` does not remove. */
  predicate IsKept(c: char) { IsLower(c) || IsDigit(c) || IsWhite(c) || c == '-' }

  /** `Regex.Replace(s, @"[^a-z0-9\s-]", "")`: the kept characters of `s`, in order. */
  function KeepSlugChars(s: string): (r: string)
    ensures forall i | 0 <= i < |r| :: IsKept(r[i])
    ensures |r| <= |s|
  {
    if s == [] then [] else (if IsKept(s[0]) then [s[0]] else []) + KeepSlugChars(s[1..])
  }

  /** Characters of the hyphen-free intermediate form: a-z, 0-9, '-' and the space. */
  predicate IsSpacedChar(c: char) { IsLower(c) || IsDigit(c) || c == '-' || c == ' ' }

  predicate NoDoubleSpace(s: string)
  {
    forall i | 0 <= i < |s| - 1 :: !(s[i] == ' ' && s[i + 1] == ' ')
  }

  /** `Regex.Replace(s, @"\s+", " ")`: every run of white space becomes one space. */
  function Collapse(s: string): (r: string)
    ensures r == [] <==> s == []
    ensures s != [] ==> (r[0] == ' ' <==> IsWhite(s[0]))
    ensures NoDoubleSpace(r)
    decreases |s|
  {
    if s == [] then []
    else if IsWhite(s[0]) then
      " " + Collapse(TrimStart(s))
    else [s[0]] + Collapse(s[1..])
  }

  function Cut(s: string): (r: string)
    ensures |r| <= MaxLength && |r| <= |s| && r == s[..|r|]
    ensures |s| <= MaxLength ==> r == s
  {
    if |s| <= MaxLength then s else s[..MaxLength]
  }

  /** `Regex.Replace(s, @"\s", "-")`. */
  function Hyphenate(s: string): (r: string)
    ensures |r| == |s|
    ensures forall i | 0 <= i < |s| :: r[i] == if IsWhite(s[i]) then '-' else s[i]
  {
    if s == [] then [] else [if IsWhite(s[0]) then '-' else s[0]] + Hyphenate(s[1..])
  }

  /** The phrase after the lower-casing, filtering, collapsing, trimming and cutting steps. */
  function SpacedForm(s: string): string
  {
    Trim(Cut(Trim(Collapse(KeepSlugChars(ToLower(s))))))
  }

  /** The normalised slug prefix of the (accent-free) phrase. */
  function Normalize(s: string): string
  {
    Hyphenate(SpacedForm(s))
  }

  /** The prefix `Create` derives from a decomposed phrase. */
  function Prefix(phrase: string): string
  {
    Normalize(DropMarks(phrase))
  }

  predicate IsSlugChar(c: char) { IsLower(c) || IsDigit(c) || c == '-' }

  /** Single-spaced text: only plain spaces, never two in a row, none at either end. */
  predicate SingleSpaced(s: string)
  {
    (forall i | 0 <= i < |s| :: IsSpacedChar(s[i]))
    && NoDoubleSpace(s)
    && (s != [] ==> s[0] != ' ' && s[|s| - 1] != ' ')
  }

  lemma SubstringKeepsSpacing(s: string, a: nat, b: nat)
    requires a <= b <= |s|
    requires forall i | 0 <= i < |s| :: IsSpacedChar(s[i])
    requires NoDoubleSpace(s)
    ensures forall i | 0 <= i < b - a :: IsSpacedChar(s[a..b][i])
    ensures NoDoubleSpace(s[a..b])
  {
    var t := s[a..b];
    forall i | 0 <= i < |t| - 1 ensures !(t[i] == ' ' && t[i + 1] == ' ')
    {
      assert t[i] == s[a + i] && t[i + 1] == s[a + i + 1];
    }
  }

  lemma {:induction false} CollapsedChars(s: string)
    requires forall i | 0 <= i < |s| :: IsKept(s[i])
    ensures forall i | 0 <= i < |Collapse(s)| :: IsSpacedChar(Collapse(s)[i])
    decreases |s|
  {
    if s != [] {
      if IsWhite(s[0]) {
        var t := TrimStart(s);
        assert t == s[|s| - |t|..];
        assert forall i | 0 <= i < |t| :: t[i] == s[|s| - |t| + i];
        CollapsedChars(t);
      } else {
        assert forall i | 0 <= i < |s| - 1 :: s[1..][i] == s[i + 1];
        CollapsedChars(s[1..]);
      }
    }
  }

  /** Trimming spaced text keeps its characters and its single spacing. */
  lemma TrimKeepsSpacing(s: string)
    requires forall i | 0 <= i < |s| :: IsSpacedChar(s[i])
    requires NoDoubleSpace(s)
    ensures SingleSpaced(Trim(s))
  {
    var u := TrimStart(s);
    SubstringKeepsSpacing(s, |s| - |u|, |s|);
    assert u == s[|s| - |u|..|s|];
    var t := Trim(s);
    SubstringKeepsSpacing(u, 0, |t|);
    assert t == u[0..|t|];
  }

  /** Before hyphens replace the spaces, the prefix is trimmed, single-spaced and short. */
  lemma SpacedFormShape(s: string)
    ensures SingleSpaced(SpacedForm(s))
    ensures |SpacedForm(s)| <= MaxLength
  {
    var c := Collapse(KeepSlugChars(ToLower(s)));
    CollapsedChars(KeepSlugChars(ToLower(s)));
    TrimKeepsSpacing(c);
    var t1 := Trim(c);
    var t2 := Cut(t1);
    SubstringKeepsSpacing(t1, 0, |t2|);
    assert t2 == t1[0..|t2|];
    TrimKeepsSpacing(t2);
  }

  /** The prefix is at most 16 characters, all from `[a-z0-9-]`. */
  lemma NormalizeShape(s: string)
    ensures |Normalize(s)| <= MaxLength
    ensures forall i | 0 <= i < |Normalize(s)| :: IsSlugChar(Normalize(s)[i])
  {
    SpacedFormShape(s);
  }

  lemma {:induction false} SlugCharsUnchanged(s: string)
    requires forall i | 0 <= i < |s| :: IsSlugChar(s[i])
    ensures ToLower(s) == s && KeepSlugChars(s) == s && Collapse(s) == s && Hyphenate(s) == s
  {
    forall i | 0 <= i < |s| ensures ToLower(s)[i] == s[i] && Hyphenate(s)[i] == s[i]
    {
      assert !IsUpper(s[i]) && !IsWhite(s[i]);
    }
    SlugCharsKeptAndCollapsed(s);
  }

  /** Text of slug characters has nothing to filter out and no white space to collapse. */
  lemma {:induction false} SlugCharsKeptAndCollapsed(s: string)
    requires forall i | 0 <= i < |s| :: IsSlugChar(s[i])
    ensures KeepSlugChars(s) == s && Collapse(s) == s
  {
    if s != [] {
      var t := s[1..];
      assert forall i | 0 <= i < |t| :: t[i] == s[i + 1];
      SlugCharsKeptAndCollapsed(t);
      assert IsKept(s[0]) && !IsWhite(s[0]);
      assert KeepSlugChars(s) == [s[0]] + KeepSlugChars(t);
      assert Collapse(s) == [s[0]] + Collapse(t);
      assert s == [s[0]] + t;
    }
  }

  /** Normalising an already normalised prefix changes nothing. */
  lemma NormalizeIdempotent(s: string)
    ensures Normalize(Normalize(s)) == Normalize(s)
  {
    var n := Normalize(s);
    NormalizeShape(s);
    SlugCharsUnchanged(n);
    TrimWithoutEdgeWhite(n);
    assert Collapse(KeepSlugChars(ToLower(n))) == n;
    assert Cut(Trim(n)) == n;
    assert SpacedForm(n) == n;
  }

  lemma PrefixIdempotent(phrase: string)
    ensures Prefix(Prefix(phrase)) == Prefix(phrase)
  {
    var p := Prefix(phrase);
    NormalizeShape(DropMarks(phrase));
    assert forall i | 0 <= i < |p| :: !IsNonSpacingMark(p[i]);
    DropMarksOfUnmarked(p);
    NormalizeIdempotent(DropMarks(phrase));
    assert Prefix(p) == Normalize(p);
  }

  predicate ValidRolls(rolls: seq<nat>)
  {
    forall i | 0 <= i < |rolls| :: rolls[i] < |Alphabet|
  }

  /** `RandomString`: one alphabet character per roll of `Random.Next(36)`. */
  function RandomString(rolls: seq<nat>): (r: string)
    requires ValidRolls(rolls)
    ensures |r| == |rolls|
    ensures forall i | 0 <= i < |r| :: r[i] == Alphabet[rolls[i]] && (IsLower(r[i]) || IsDigit(r[i]))
  {
    if rolls == [] then [] else [Alphabet[rolls[0]]] + RandomString(rolls[1..])
  }

  /** The 65-character body: prefix, hyphen, random text, hyphens at 32 and 48. */
  function Body(prefix: string, random: string): string
    requires |prefix| + 1 + |random| == BodyLength
  {
    (prefix + "-" + random)[32 := '-'][48 := '-']
  }

  /** A slug built from an already normalised prefix. */
  function SlugOf(prefix: string, rolls: seq<nat>, ticks: nat): string
    requires |prefix| <= MaxLength
    requires |rolls| >= BodyLength - 1 && ValidRolls(rolls)
  {
    Body(prefix, RandomString(rolls[..BodyLength - 1 - |prefix|])) + Decimal(ticks)
  }

  /** What `Create(phrase)` returns, for a decomposed `phrase`. */
  function Slug(phrase: string, rolls: seq<nat>, ticks: nat): string
    requires |rolls| >= BodyLength - 1 && ValidRolls(rolls)
  {
    NormalizeShape(DropMarks(phrase));
    SlugOf(Prefix(phrase), rolls, ticks)
  }

  /**
   * The character-array step of `Create`: the prefix, a hyphen and the
   * random text are copied into an array, which gets '-' at 32 and 48.
   */
  method ForceHyphens(prefix: string, random: string) returns (body: string)
    requires |prefix| + 1 + |random| == BodyLength
    ensures body == Body(prefix, random)
  {
    var str := prefix + "-" + random;
    var strArr := new char[|str|];
    forall i | 0 <= i < |str| {
      strArr[i] := str[i];
    }
    assert strArr[..] == str;
    strArr[32] := '-';
    strArr[48] := '-';
    body := strArr[..];
  }

  /** `Create`: strips the accents, normalises the prefix, fills the body and appends the tick counter. */
  method Create(phrase: string, rolls: seq<nat>, ticks: nat) returns (slug: string)
    requires |rolls| >= BodyLength - 1 && ValidRolls(rolls)
    ensures slug == Slug(phrase, rolls, ticks)
  {
    var clean := RemoveAccents(phrase);
    var prefix := Normalize(clean);
    NormalizeShape(clean);
    var random := RandomString(rolls[..BodyLength - 1 - |prefix|]);
    var body := ForceHyphens(prefix, random);
    SlugFromParts(phrase, rolls, ticks, prefix, random, body);
    slug := body + Decimal(ticks);
  }

  /** A slug is the body built on the phrase's prefix and the random text it leaves room for, then the ticks. */
  lemma SlugFromParts(phrase: string, rolls: seq<nat>, ticks: nat, prefix: string, random: string, body: string)
    requires |rolls| >= BodyLength - 1 && ValidRolls(rolls)
    requires prefix == Prefix(phrase) && |prefix| <= MaxLength
    requires random == RandomString(rolls[..BodyLength - 1 - |prefix|])
    requires body == Body(prefix, random)
    ensures body + Decimal(ticks) == Slug(phrase, rolls, ticks)
  {
  }

  /** The layout of a slug built on any prefix of at most 16 characters. */
  lemma SlugOfLayout(p: string, rolls: seq<nat>, ticks: nat)
    requires |p| <= MaxLength
    requires |rolls| >= BodyLength - 1 && ValidRolls(rolls)
    ensures var s := SlugOf(p, rolls, ticks);
      && |s| == BodyLength + |Decimal(ticks)|
      && s[..|p|] == p
      && s[|p|] == '-' && s[32] == '-' && s[48] == '-'
      && (forall i | |p| < i < BodyLength && i != 32 && i != 48 :: s[i] in Alphabet)
      && s[BodyLength..] == Decimal(ticks)
  {
    var rnd := RandomString(rolls[..BodyLength - 1 - |p|]);
    var b := Body(p, rnd);
    var s := SlugOf(p, rolls, ticks);
    assert s == b + Decimal(ticks);
    forall i | |p| < i < BodyLength && i != 32 && i != 48
      ensures s[i] in Alphabet
    {
      assert s[i] == rnd[i - |p| - 1];
    }
  }

  /** The layout every slug has, whatever the phrase, rolls and clock. */
  lemma SlugLayout(phrase: string, rolls: seq<nat>, ticks: nat)
    requires |rolls| >= BodyLength - 1 && ValidRolls(rolls)
    ensures var s := Slug(phrase, rolls, ticks);
      var p := |Prefix(phrase)|;
      && p <= MaxLength
      && |s| == BodyLength + |Decimal(ticks)|
      && s[..p] == Prefix(phrase)
      && s[p] == '-' && s[32] == '-' && s[48] == '-'
      && (forall i | p < i < BodyLength && i != 32 && i != 48 :: s[i] in Alphabet)
      && s[BodyLength..] == Decimal(ticks)
  {
    NormalizeShape(DropMarks(phrase));
    SlugOfLayout(Prefix(phrase), rolls, ticks);
  }

  /**
   * The clock's ticks are a 64-bit `long`, so they take at most 19 digits
   * and a slug is at most 84 characters long.
   */
  lemma {:induction false} SlugWidth(phrase: string, rolls: seq<nat>, ticks: nat)
    requires |rolls| >= BodyLength - 1 && ValidRolls(rolls)
    requires ticks < 0x8000_0000_0000_0000
    ensures |Slug(phrase, rolls, ticks)| <= BodyLength + 19
  {
    SlugLayout(phrase, rolls, ticks);
    assert Pow10(5) == 100_000;
    assert Pow10(10) == 10_000_000_000;
    assert Pow10(15) == 1_000_000_000_000_000;
    assert Pow10(19) == 10_000_000_000_000_000_000;
    DecimalLength(ticks, 19);
  }

  lemma SlugOfChars(p: string, rolls: seq<nat>, ticks: nat)
    requires |p| <= MaxLength && forall i | 0 <= i < |p| :: IsSlugChar(p[i])
    requires |rolls| >= BodyLength - 1 && ValidRolls(rolls)
    ensures forall i | 0 <= i < BodyLength :: IsSlugChar(SlugOf(p, rolls, ticks)[i])
  {
    var rnd := RandomString(rolls[..BodyLength - 1 - |p|]);
    var s := SlugOf(p, rolls, ticks);
    assert s == (p + "-" + rnd)[32 := '-'][48 := '-'] + Decimal(ticks);
    forall i | 0 <= i < BodyLength ensures IsSlugChar(s[i])
    {
      if i < |p| && i != 32 && i != 48 {
        assert s[i] == p[i];
      } else if |p| < i && i != 32 && i != 48 {
        assert s[i] == rnd[i - |p| - 1];
      }
    }
  }

  /** Every character of a slug body is one of `[a-z0-9-]`. */
  lemma SlugBodyChars(phrase: string, rolls: seq<nat>, ticks: nat)
    requires |rolls| >= BodyLength - 1 && ValidRolls(rolls)
    ensures forall i | 0 <= i < BodyLength :: IsSlugChar(Slug(phrase, rolls, ticks)[i])
  {
    NormalizeShape(DropMarks(phrase));
    SlugOfChars(Prefix(phrase), rolls, ticks);
  }

  /** A phrase with nothing to keep (the default empty phrase) gives a slug starting with '-'. */
  lemma EmptyPhraseSlug(rolls: seq<nat>, ticks: nat)
    requires |rolls| >= BodyLength - 1 && ValidRolls(rolls)
    ensures Prefix("") == ""
    ensures Slug("", rolls, ticks)[0] == '-'
  {
    SlugLayout("", rolls, ticks);
  }
}
