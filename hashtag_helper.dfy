/**
 * `HashtagHelper.ExtractHashtags`: the hashtags of a text, in order of
 * appearance, each lower-cased and without its leading '#'.
 *
 * The scan of `MatchesFrom` is how the regular expression `#\w+` matches a
 * text left to right: a match starts at a '#' followed by a word character,
 * takes the longest run of word characters, and the search resumes right
 * after it; a '#' not followed by a word character is skipped.
 */
module HashtagHelper {
  import opened Text

  /** Length of the run of word characters at the start of `s`. */
  function WordRun(s: string): (n: nat)
    ensures n <= |s|
    ensures forall k | 0 <= k < n :: IsWordChar(s[k])
    ensures n < |s| ==> !IsWordChar(s[n])
  {
    if s != [] && IsWordChar(s[0]) then 1 + WordRun(s[1..]) else 0
  }

  /** A match of `#\w+`: where its '#' is and how long the matched value is. */
  datatype Match = Match(index: nat, length: nat)

  /** `m` is a maximal match of `#\w+` in `text`. */
  predicate IsMatchAt(text: string, m: Match)
  {
    && m.index + m.length <= |text|
    && m.length >= 2
    && text[m.index] == '#'
    && (forall j | m.index < j < m.index + m.length :: IsWordChar(text[j]))
    && (m.index + m.length < |text| ==> !IsWordChar(text[m.index + m.length]))
  }

  /** A '#' followed by a word character is at position `j`: a match of `#\w+` starts there. */
  predicate HashWordAt(text: string, j: nat)
  {
    j + 1 < |text| && text[j] == '#' && IsWordChar(text[j + 1])
  }

  /** Some match of `ms` starts at position `j`. */
  predicate StartsSome(ms: seq<Match>, j: nat)
  {
    exists k | 0 <= k < |ms| :: ms[k].index == j
  }

  /** The successive matches of `#\w+` in `text` from position `i` on. */
  function MatchesFrom(text: string, i: nat): (r: seq<Match>)
    requires i <= |text|
    ensures forall k | 0 <= k < |r| :: i <= r[k].index && IsMatchAt(text, r[k])
    ensures forall k | 0 <= k < |r| - 1 :: r[k].index + r[k].length <= r[k + 1].index
    decreases |text| - i
  {
    if i == |text| then []
    else if text[i] == '#' && i + 1 < |text| && IsWordChar(text[i + 1]) then
      var n := WordRun(text[i + 1..]);
      assert forall j | i < j < i + 1 + n :: text[j] == text[i + 1..][j - i - 1];
      [Match(i, n + 1)] + MatchesFrom(text, i + 1 + n)
    else MatchesFrom(text, i + 1)
  }

  /**
   * The scan misses nothing: every '#' followed by a word character at or
   * after `i` starts one of the matches. No such '#' lies inside an earlier
   * match, because a '#' is not a word character.
   */
  lemma {:induction false} MatchesFromComplete(text: string, i: nat)
    requires i <= |text|
    ensures forall j | i <= j < |text| && HashWordAt(text, j) :: StartsSome(MatchesFrom(text, i), j)
    decreases |text| - i
  {
    if i < |text| {
      if HashWordAt(text, i) {
        var n := WordRun(text[i + 1..]);
        MatchesFromComplete(text, i + 1 + n);
        var rest := MatchesFrom(text, i + 1 + n);
        assert MatchesFrom(text, i) == [Match(i, n + 1)] + rest;
        forall j | i < j < i + 1 + n ensures IsWordChar(text[j])
        {
          assert text[j] == text[i + 1..][j - i - 1];
        }
        CompleteCons(text, i, n, rest);
      } else {
        MatchesFromComplete(text, i + 1);
      }
    }
  }

  /**
   * A match at `i` spanning a run of `n` word characters, put in front of
   * matches that start at every '#'-word position after the run, starts at
   * every such position from `i` on: none lies inside the run.
   */
  lemma CompleteCons(text: string, i: nat, n: nat, rest: seq<Match>)
    requires i + 1 + n <= |text| && HashWordAt(text, i)
    requires forall j | i < j < i + 1 + n :: IsWordChar(text[j])
    requires forall j | i + 1 + n <= j < |text| && HashWordAt(text, j) :: StartsSome(rest, j)
    ensures forall j | i <= j < |text| && HashWordAt(text, j) :: StartsSome([Match(i, n + 1)] + rest, j)
  {
    StartsSomeCons(Match(i, n + 1), rest);
    forall j | i <= j < |text| && HashWordAt(text, j) ensures StartsSome([Match(i, n + 1)] + rest, j)
    {
      if j != i {
        assert !IsWordChar(text[j]);
        assert StartsSome(rest, j);
      }
    }
  }

  /** A match put in front of `rest` starts where it is, and every match of `rest` still starts. */
  lemma StartsSomeCons(m: Match, rest: seq<Match>)
    ensures StartsSome([m] + rest, m.index)
    ensures forall j | StartsSome(rest, j) :: StartsSome([m] + rest, j)
  {
    assert ([m] + rest)[0] == m;
    forall j | StartsSome(rest, j) ensures StartsSome([m] + rest, j)
    {
      var k :| 0 <= k < |rest| && rest[k].index == j;
      assert ([m] + rest)[k + 1] == rest[k];
    }
  }

  function Matches(text: string): seq<Match>
  {
    MatchesFrom(text, 0)
  }

  /** The word part of a match: the matched value without its '#'. */
  function Word(text: string, m: Match): string
    requires IsMatchAt(text, m)
  {
    text[m.index + 1..m.index + m.length]
  }

  /** The words of the given matches. */
  function Words(text: string, ms: seq<Match>): (r: seq<string>)
    requires forall k | 0 <= k < |ms| :: IsMatchAt(text, ms[k])
    ensures |r| == |ms|
    ensures forall k | 0 <= k < |ms| :: r[k] == Word(text, ms[k])
  {
    if ms == [] then [] else Words(text, ms[..|ms| - 1]) + [Word(text, ms[|ms| - 1])]
  }

  /** The hashtags of `content`: the word of every match in the lower-cased text. */
  function Hashtags(content: string): seq<string>
  {
    Words(ToLower(content), Matches(ToLower(content)))
  }

  /** A match's value is `#` followed by its word, which holds no '#'. */
  lemma ValueIsHashWord(text: string, m: Match)
    requires IsMatchAt(text, m)
    ensures text[m.index..m.index + m.length] == "#" + Word(text, m)
    ensures '#' !in Word(text, m)
  {
    var w := Word(text, m);
    forall j | 0 <= j < |w| ensures w[j] != '#'
    {
      assert w[j] == text[m.index + 1 + j];
    }
  }

  /**
   * `ExtractHashtags`: walks the matches of the lower-cased content and appends
   * each matched value, lower-cased again and with every '#' removed.
   */
  method ExtractHashtags(content: string) returns (tags: seq<string>)
    ensures tags == Hashtags(content)
  {
    var lower := ToLower(content);
    var matches := Matches(lower);
    tags := [];
    for k := 0 to |matches|
      invariant tags == Words(lower, matches[..k])
    {
      var m := matches[k];
      var value := lower[m.index..m.index + m.length];
      CleanedValueIsWord(content, m);
      WordsSnoc(lower, matches, k);
      tags := tags + [RemoveChar(ToLower(value), '#')];
    }
    assert matches[..|matches|] == matches;
  }

  /** The words of the first `k + 1` matches are those of the first `k` and the word of match `k`. */
  lemma WordsSnoc(text: string, ms: seq<Match>, k: nat)
    requires k < |ms| && forall j | 0 <= j < |ms| :: IsMatchAt(text, ms[j])
    ensures Words(text, ms[..k + 1]) == Words(text, ms[..k]) + [Word(text, ms[k])]
  {
    assert ms[..k + 1][..k] == ms[..k];
  }

  /** Lower-casing a matched value again and removing its '#' leaves the match's word. */
  lemma CleanedValueIsWord(content: string, m: Match)
    requires IsMatchAt(ToLower(content), m)
    ensures var lower := ToLower(content);
      RemoveChar(ToLower(lower[m.index..m.index + m.length]), '#') == Word(lower, m)
  {
    var lower := ToLower(content);
    var value := lower[m.index..m.index + m.length];
    ValueIsHashWord(lower, m);
    ToLowerIdempotent(content);
    ToLowerOfLower(value);
    RemoveCharAppend("#", Word(lower, m), '#');
    RemoveCharAbsent(Word(lower, m), '#');
  }

  /** Every hashtag is a non-empty run of lower-case word characters without '#'. */
  lemma HashtagShape(content: string)
    ensures forall k | 0 <= k < |Hashtags(content)| ::
      var t := Hashtags(content)[k];
      && |t| >= 1
      && '#' !in t
      && (forall j | 0 <= j < |t| :: IsWordChar(t[j]) && !IsUpper(t[j]))
  {
    var lower := ToLower(content);
    var ms := Matches(lower);
    forall k | 0 <= k < |ms|
      ensures var t := Word(lower, ms[k]);
        |t| >= 1 && '#' !in t && (forall j | 0 <= j < |t| :: IsWordChar(t[j]) && !IsUpper(t[j]))
    {
      var m := ms[k];
      var t := Word(lower, m);
      ValueIsHashWord(lower, m);
      forall j | 0 <= j < |t| ensures IsWordChar(t[j]) && !IsUpper(t[j])
      {
        assert t[j] == lower[m.index + 1 + j];
      }
    }
  }

  /**
   * The hashtags are the matches of the lower-cased content, all of them, in
   * order: each is taken in full (the text around it holds '#', then the tag,
   * then no word character), none overlaps the next, and every '#' followed
   * by a word character starts one of them.
   */
  lemma HashtagsAreMaximalMatches(content: string)
    ensures var lower := ToLower(content);
      var ms := Matches(lower);
      && |Hashtags(content)| == |ms|
      && (forall k | 0 <= k < |ms| ::
            IsMatchAt(lower, ms[k]) && Hashtags(content)[k] == lower[ms[k].index + 1..ms[k].index + ms[k].length])
      && (forall k | 0 <= k < |ms| - 1 :: ms[k].index + ms[k].length <= ms[k + 1].index)
      && (forall j | 0 <= j < |lower| && HashWordAt(lower, j) :: StartsSome(ms, j))
  {
    MatchesFromComplete(ToLower(content), 0);
  }

  /** Number of '#' characters at positions `i` and after. */
  function HashCount(text: string, i: nat): nat
    requires i <= |text|
    decreases |text| - i
  {
    if i == |text| then 0 else (if text[i] == '#' then 1 else 0) + HashCount(text, i + 1)
  }

  lemma {:induction false} HashCountMonotone(text: string, i: nat, j: nat)
    requires i <= j <= |text|
    ensures HashCount(text, j) <= HashCount(text, i)
    decreases j - i
  {
    if i < j {
      HashCountMonotone(text, i + 1, j);
    }
  }

  lemma {:induction false} MatchesFromBound(text: string, i: nat)
    requires i <= |text|
    ensures |MatchesFrom(text, i)| <= HashCount(text, i)
    decreases |text| - i
  {
    if i < |text| {
      if text[i] == '#' && i + 1 < |text| && IsWordChar(text[i + 1]) {
        var n := WordRun(text[i + 1..]);
        MatchesFromBound(text, i + 1 + n);
        HashCountMonotone(text, i + 1, i + 1 + n);
      } else {
        MatchesFromBound(text, i + 1);
      }
    }
  }

  lemma {:induction false} HashCountZero(text: string, i: nat)
    requires i <= |text| && '#' !in text
    ensures HashCount(text, i) == 0
    decreases |text| - i
  {
    if i < |text| {
      HashCountZero(text, i + 1);
    }
  }

  /** There are never more hashtags than '#' characters; none at all without a '#'. */
  lemma HashtagCount(content: string)
    ensures |Hashtags(content)| <= HashCount(ToLower(content), 0)
    ensures '#' !in content ==> Hashtags(content) == []
  {
    var lower := ToLower(content);
    MatchesFromBound(lower, 0);
    if '#' !in content {
      assert '#' !in lower by {
        forall j | 0 <= j < |lower| ensures lower[j] != '#'
        {
          assert lower[j] == LowerChar(content[j]);
        }
      }
      HashCountZero(lower, 0);
    }
  }

  lemma ExampleTailMatches()
    ensures MatchesFrom("#ab # #c!", 3) == [Match(6, 2)]
  {
    var lower := "#ab # #c!";
    assert lower[7..] == "c!";
    assert MatchesFrom(lower, 8) == [];
    assert MatchesFrom(lower, 6) == [Match(6, 2)];
    assert MatchesFrom(lower, 3) == MatchesFrom(lower, 4) == MatchesFrom(lower, 5) == MatchesFrom(lower, 6);
  }

  lemma ExampleMatches()
    ensures Matches("#ab # #c!") == [Match(0, 3), Match(6, 2)]
  {
    var lower := "#ab # #c!";
    ExampleTailMatches();
    assert WordRun(lower[1..]) == 2 by {
      assert lower[1..] == "ab # #c!";
    }
    assert MatchesFrom(lower, 0) == [Match(0, 3)] + MatchesFrom(lower, 3);
  }

  lemma ExampleWords()
    ensures var ms := [Match(0, 3), Match(6, 2)];
      (forall k | 0 <= k < |ms| :: IsMatchAt("#ab # #c!", ms[k])) && Words("#ab # #c!", ms) == ["ab", "c"]
  {
    var lower := "#ab # #c!";
    var ms := [Match(0, 3), Match(6, 2)];
    assert IsMatchAt(lower, ms[0]) && IsMatchAt(lower, ms[1]);
    assert Word(lower, ms[0]) == "ab" && Word(lower, ms[1]) == "c" by {
      assert lower[1..3] == "ab";
      assert lower[7..8] == "c";
    }
    assert ms[..1] == [Match(0, 3)];
  }

  /** Example: tags come out lower-cased, in order, and a bare '#' is skipped. */
  lemma HashtagsExample()
    ensures Hashtags("#Ab # #c!") == ["ab", "c"]
  {
    var l := ToLower("#Ab # #c!");
    assert l[0] == '#' && l[1] == 'a' && l[2] == 'b' && l[3] == ' ' && l[4] == '#';
    assert l[5] == ' ' && l[6] == '#' && l[7] == 'c' && l[8] == '!';
    assert l == "#ab # #c!";
    ExampleMatches();
    ExampleWords();
  }
}
