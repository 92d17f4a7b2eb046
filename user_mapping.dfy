/**
 * `UserMapping`: the user row built from a registration form, and the
 * response body describing a user.
 */
module UserMapping {
  import opened Wrappers
  import opened Text
  import opened Entities

  datatype RegisterUserDto = RegisterUserDto(fullname: string, email: string, password: string)

  datatype ResponseUserDto = ResponseUserDto(
    fullname: string, email: string, username: Option<string>, bio: Option<string>, profileImage: Option<string>)

  /** The characters `[^a-zA-Z0-9._]` leaves in a username. */
  predicate IsUsernameChar(c: char) { IsLower(c) || IsUpper(c) || IsDigit(c) || c == '.' || c == '_' }

  /** `Regex.Replace(s, "[^a-zA-Z0-9._]", "")`: drops every character outside the class. */
  function KeepUsernameChars(s: string): (r: string)
    ensures |r| <= |s|
    ensures forall i | 0 <= i < |r| :: IsUsernameChar(r[i])
    ensures |s| == 1 ==> r == (if IsUsernameChar(s[0]) then s else [])
  {
    if s == [] then [] else (if IsUsernameChar(s[0]) then [s[0]] else []) + KeepUsernameChars(s[1..])
  }

  /**
   * The filter works character by character: filtering a concatenation is
   * concatenating the filtered parts. With the one-character case of its
   * contract this determines the result for every input.
   */
  lemma {:induction false} KeepUsernameCharsAppend(s: string, t: string)
    ensures KeepUsernameChars(s + t) == KeepUsernameChars(s) + KeepUsernameChars(t)
    decreases |s|
  {
    if s == [] {
      assert s + t == t;
    } else {
      assert (s + t)[0] == s[0] && (s + t)[1..] == s[1..] + t;
      KeepUsernameCharsAppend(s[1..], t);
    }
  }

  /** `a` is obtained from `b` by deleting characters, keeping the order of the rest. */
  predicate IsSubsequence(a: string, b: string)
    decreases |b|
  {
    if a == [] then true
    else if b == [] then false
    else if a[0] == b[0] then IsSubsequence(a[1..], b[1..])
    else IsSubsequence(a, b[1..])
  }

  /** The filter only deletes: its result is a subsequence of its input. */
  lemma {:induction false} KeepUsernameCharsIsSubsequence(s: string)
    ensures IsSubsequence(KeepUsernameChars(s), s)
    decreases |s|
  {
    if s != [] {
      KeepUsernameCharsIsSubsequence(s[1..]);
      var r := KeepUsernameChars(s);
      if !IsUsernameChar(s[0]) && r != [] {
        assert r == KeepUsernameChars(s[1..]);
        assert IsUsernameChar(r[0]);
      }
    }
  }

  /** `email.Split('@')[0]`: everything before the first '@'. */
  function LocalPart(email: string): string
  {
    Split(email, '@')[0]
  }

  /** The username derived from an e-mail address. */
  function UsernameFromEmail(email: string): string
  {
    KeepUsernameChars(LocalPart(email))
  }

  /** `ToEntity`: the user row a registration creates; the id is assigned when it is saved. */
  function ToEntity(dto: RegisterUserDto, passwordHash: string, now: Time): (u: User)
    ensures u.fullname == dto.fullname && u.email == dto.email && u.passwordHash == passwordHash
    ensures u.username == UsernameFromEmail(dto.email)
    ensures u.createdAt == now && u.updatedAt == now
  {
    User(0, dto.fullname, UsernameFromEmail(dto.email), dto.email, passwordHash, now, now)
  }

  lemma {:induction false} KeepUsernameCharsOfAllowed(s: string)
    requires forall i | 0 <= i < |s| :: IsUsernameChar(s[i])
    ensures KeepUsernameChars(s) == s
  {
    if s != [] {
      KeepUsernameCharsOfAllowed(s[1..]);
    }
  }

  /** The local part is everything before the first '@'. */
  lemma LocalPartOf(name: string, domain: string)
    requires '@' !in name
    ensures LocalPart(name + "@" + domain) == name
  {
    var e := name + "@" + domain;
    assert e[|name|] == '@' && e[..|name|] == name;
    assert IndexOf(e, '@') == Some(|name|);
  }

  /** The username is the local part with some characters deleted, in their original order. */
  lemma UsernameIsSubsequenceOfLocalPart(email: string)
    ensures IsSubsequence(UsernameFromEmail(email), LocalPart(email))
  {
    KeepUsernameCharsIsSubsequence(LocalPart(email));
  }

  /** A username holds only `[a-zA-Z0-9._]`, never '@', and is no longer than the e-mail. */
  lemma UsernameShape(email: string)
    ensures forall i | 0 <= i < |UsernameFromEmail(email)| :: IsUsernameChar(UsernameFromEmail(email)[i])
    ensures '@' !in UsernameFromEmail(email)
    ensures |UsernameFromEmail(email)| <= |email|
  {
    var parts := Split(email, '@');
    SplitJoin(email, '@');
    JoinLength(parts, '@');
  }

  lemma JoinLength(parts: seq<string>, c: char)
    requires |parts| >= 1
    ensures |parts[0]| <= |Join(parts, c)|
  {
  }

  /** A local part made only of allowed characters becomes the username unchanged. */
  lemma UsernameOfPlainAddress(name: string, domain: string)
    requires forall i | 0 <= i < |name| :: IsUsernameChar(name[i])
    ensures UsernameFromEmail(name + "@" + domain) == name
  {
    assert '@' !in name by {
      forall i | 0 <= i < |name| ensures name[i] != '@' {}
    }
    LocalPartOf(name, domain);
    KeepUsernameCharsOfAllowed(name);
  }

  /**
   * Two addresses that differ only after the '@' give the same username,
   * so a second registration with the same local part collides on the
   * unique `Username` index although its e-mail is new.
   */
  lemma UsernameIgnoresDomain(name: string, domain1: string, domain2: string)
    requires '@' !in name
    ensures UsernameFromEmail(name + "@" + domain1) == UsernameFromEmail(name + "@" + domain2)
  {
    LocalPartOf(name, domain1);
    LocalPartOf(name, domain2);
  }

  /** `ToResponseDto`: the public view of a user and its optional profile. */
  function ToResponseDto(user: User, profile: Option<Profile>): (dto: ResponseUserDto)
    ensures dto.fullname == user.fullname && dto.email == user.email && dto.username == Some(user.username)
    ensures profile.None? ==> dto.bio.None? && dto.profileImage.None?
    ensures profile.Some? ==> dto.bio == profile.value.bio && dto.profileImage == profile.value.profileImage
  {
    var bio := if profile.Some? then profile.value.bio else None;
    var image := if profile.Some? then profile.value.profileImage else None;
    ResponseUserDto(user.fullname, user.email, Some(user.username), bio, image)
  }
}
