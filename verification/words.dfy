/** Python's argument-less `str.split()` and the word count taken from it.
    `Split` follows the algorithm (skip separators, take a maximal run of
    non-separators, repeat), scanning by index; `WordCount` is an
    independent reference that counts the positions where a word starts. */
module Words {
  import opened Text

  /** The end of the maximal stretch starting at `i` whose characters are
      all separators (`space`) or all non-separators (`!space`). */
  function RunEnd(s: string, i: nat, space: bool): (n: nat)
    requires i <= |s|
    ensures i <= n <= |s|
    ensures forall k :: i <= k < n ==> IsSpace(s[k]) == space
    ensures n == |s| || IsSpace(s[n]) != space
    decreases |s| - i
  {
    if i == |s| || IsSpace(s[i]) != space then i else RunEnd(s, i + 1, space)
  }

  /** The words of `s[i..]`, in order. */
  function SplitFrom(s: string, i: nat): (words: seq<string>)
    requires i <= |s|
    ensures forall j :: 0 <= j < |words| ==> |words[j]| > 0
    ensures forall j, k :: 0 <= j < |words| && 0 <= k < |words[j]| ==> !IsSpace(words[j][k])
    decreases |s| - i
  {
    var b := RunEnd(s, i, true);
    if b == |s| then []
    else
      var e := RunEnd(s, b, false);
      [s[b..e]] + SplitFrom(s, e)
  }

  /** `s.split()`: the maximal runs of non-separators, in order. Leading and
      trailing separators produce no empty words. */
  function Split(s: string): seq<string> {
    SplitFrom(s, 0)
  }

  /** Position `i` of `s` starts a word: a non-separator at the start of
      the string or right after a separator. */
  predicate StartsWord(s: string, i: nat)
    requires i < |s|
  {
    !IsSpace(s[i]) && (i == 0 || IsSpace(s[i - 1]))
  }

  /** Number of word starts at positions `i..|s|-1`. */
  function StartsFrom(s: string, i: nat): nat
    requires i <= |s|
    decreases |s| - i
  {
    if i == |s| then 0
    else (if StartsWord(s, i) then 1 else 0) + StartsFrom(s, i + 1)
  }

  /** The number of maximal runs of non-separators in `s`. */
  function WordCount(s: string): nat {
    StartsFrom(s, 0)
  }

  /** The characters of `s` that are not separators, in order. */
  function Letters(s: string): string {
    if s == [] then []
    else (if IsSpace(s[0]) then [] else [s[0]]) + Letters(s[1..])
  }

  /** The concatenation of a sequence of words. */
  function Join(words: seq<string>): string {
    if words == [] then [] else words[0] + Join(words[1..])
  }

  /** Separators never start a word, so a stretch of them adds nothing. */
  lemma {:induction false} StartsAcrossSpaces(s: string, i: nat, j: nat)
    requires i <= j <= |s|
    requires forall k :: i <= k < j ==> IsSpace(s[k])
    ensures StartsFrom(s, i) == StartsFrom(s, j)
    decreases j - i
  {
    if i < j {
      StartsAcrossSpaces(s, i + 1, j);
    }
  }

  /** Inside a word only its first character starts a word. */
  lemma {:induction false} StartsAcrossWord(s: string, i: nat, j: nat)
    requires 0 < i <= j <= |s|
    requires forall k :: i - 1 <= k < j ==> !IsSpace(s[k])
    ensures StartsFrom(s, i) == StartsFrom(s, j)
    decreases j - i
  {
    if i < j {
      assert !StartsWord(s, i);
      StartsAcrossWord(s, i + 1, j);
    }
  }

  /** Splitting from a position that is not inside a word yields as many
      words as start from there on. */
  lemma {:induction false} SplitCountsFrom(s: string, i: nat)
    requires i <= |s|
    requires i == 0 || i == |s| || IsSpace(s[i - 1]) || IsSpace(s[i])
    ensures |SplitFrom(s, i)| == StartsFrom(s, i)
    decreases |s| - i
  {
    var b := RunEnd(s, i, true);
    StartsAcrossSpaces(s, i, b);
    if b < |s| {
      var e := RunEnd(s, b, false);
      assert StartsWord(s, b);
      StartsAcrossWord(s, b + 1, e);
      SplitCountsFrom(s, e);
    }
  }

  /** `len(s.split())` is the number of maximal runs of non-separators. */
  lemma SplitCountsWords(s: string)
    ensures |Split(s)| == WordCount(s)
  {
    SplitCountsFrom(s, 0);
  }

  lemma {:induction false} LettersAppend(x: string, y: string)
    ensures Letters(x + y) == Letters(x) + Letters(y)
  {
    if x == [] {
      assert x + y == y;
    } else {
      assert (x + y)[0] == x[0];
      assert (x + y)[1..] == x[1..] + y;
      LettersAppend(x[1..], y);
    }
  }

  lemma {:induction false} LettersOfSpaces(s: string)
    requires forall k :: 0 <= k < |s| ==> IsSpace(s[k])
    ensures Letters(s) == []
  {
    if s != [] {
      LettersOfSpaces(s[1..]);
    }
  }

  lemma {:induction false} LettersOfWord(s: string)
    requires forall k :: 0 <= k < |s| ==> !IsSpace(s[k])
    ensures Letters(s) == s
  {
    if s != [] {
      LettersOfWord(s[1..]);
    }
  }

  /** Splitting from `i` loses and invents no character: the words, joined,
      are exactly the non-separator characters of `s[i..]`, in order. */
  lemma {:induction false} SplitFromKeepsLetters(s: string, i: nat)
    requires i <= |s|
    ensures Join(SplitFrom(s, i)) == Letters(s[i..])
    decreases |s| - i
  {
    var b := RunEnd(s, i, true);
    assert s[i..] == s[i..b] + s[b..];
    LettersAppend(s[i..b], s[b..]);
    LettersOfSpaces(s[i..b]);
    if b < |s| {
      var e := RunEnd(s, b, false);
      assert s[b..] == s[b..e] + s[e..];
      LettersAppend(s[b..e], s[e..]);
      LettersOfWord(s[b..e]);
      SplitFromKeepsLetters(s, e);
      var words := SplitFrom(s, i);
      assert words[0] == s[b..e];
      assert words[1..] == SplitFrom(s, e);
    }
  }

  /** `s.split()` loses and invents no character: its words, joined, are
      exactly the non-separator characters of `s`, in order. */
  lemma SplitKeepsLetters(s: string)
    ensures Join(Split(s)) == Letters(s)
  {
    SplitFromKeepsLetters(s, 0);
    assert s[0..] == s;
  }

  lemma {:induction false} SameSpacesSameStarts(s: string, t: string, i: nat)
    requires |s| == |t| && i <= |s|
    requires forall k :: 0 <= k < |s| ==> IsSpace(s[k]) == IsSpace(t[k])
    ensures StartsFrom(s, i) == StartsFrom(t, i)
    decreases |s| - i
  {
    if i < |s| {
      SameSpacesSameStarts(s, t, i + 1);
    }
  }

  /** Sanitising a text does not change its word count. */
  lemma SanitizeKeepsWordCount(s: string)
    ensures WordCount(Sanitize(s)) == WordCount(s)
    ensures |Split(Sanitize(s))| == |Split(s)|
  {
    SanitizeKeepsSpaces(s);
    SameSpacesSameStarts(Sanitize(s), s, 0);
    SplitCountsWords(s);
    SplitCountsWords(Sanitize(s));
  }
}
