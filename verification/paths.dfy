/**
 * System.IO.Path as the managers use it on Windows with .NET 2.0:
 * IsPathRooted and the two-argument Combine, without Combine's check for
 * characters that are not allowed in paths.
 */
module Paths {

  const DirectorySeparator: char := '\\'
  const AltDirectorySeparator: char := '/'
  const VolumeSeparator: char := ':'

  /** Path.IsPathRooted: a leading separator, or a drive letter's colon. */
  predicate IsPathRooted(p: string) {
    || (|p| >= 1 && (p[0] == DirectorySeparator || p[0] == AltDirectorySeparator))
    || (|p| >= 2 && p[1] == VolumeSeparator)
  }

  /** What Combine puts in front of a relative second part: nothing for an
      empty first part, the first part itself when it already ends in a
      separator or a colon, and otherwise the first part and a '\'. */
  function JoinPrefix(p1: string): (prefix: string)
    ensures |prefix| >= |p1| && prefix[..|p1|] == p1
  {
    if p1 == "" then ""
    else
      var last := p1[|p1| - 1];
      if last == DirectorySeparator || last == AltDirectorySeparator || last == VolumeSeparator then p1
      else p1 + [DirectorySeparator]
  }

  /** Path.Combine(p1, p2): an empty second part gives the first; a rooted
      second part replaces the first entirely; otherwise the second part is
      appended below the first. */
  function Combine(p1: string, p2: string): (p: string)
    ensures p2 == "" ==> p == p1
    ensures p2 != "" && IsPathRooted(p2) ==> p == p2
  {
    if p2 == "" then p1
    else if IsPathRooted(p2) then p2
    else JoinPrefix(p1) + p2
  }

  /** The combined path always ends with the second part, and starts with
      the first unless the second is rooted. */
  lemma CombineEnds(p1: string, p2: string)
    ensures var p := Combine(p1, p2);
      && |p| >= |p2| && p[|p| - |p2|..] == p2
      && (!IsPathRooted(p2) ==> |p| >= |p1| && p[..|p1|] == p1)
  {
    if p2 != "" && !IsPathRooted(p2) {
      var prefix := JoinPrefix(p1);
      assert (prefix + p2)[|prefix|..] == p2;
      assert (prefix + p2)[..|p1|] == prefix[..|p1|];
    }
  }

  /** A relative second part is appended to the first part's join prefix. */
  lemma CombineRelative(p1: string, p2: string)
    requires p2 != "" && !IsPathRooted(p2)
    ensures Combine(p1, p2) == JoinPrefix(p1) + p2
  {
  }

  /** A single path component that Combine keeps below its first part and
      that names a folder of its own: not empty, not "." or "..", without a
      separator and without a drive. */
  predicate IsPlainName(n: string) {
    && n != "" && n != "." && n != ".."
    && DirectorySeparator !in n && AltDirectorySeparator !in n
    && !IsPathRooted(n)
  }

  /** Appending an extension keeps a plain name free of separators and
      unrooted. */
  lemma PlainWithExtension(n: string, extension: string)
    requires IsPlainName(n) && DirectorySeparator !in extension && AltDirectorySeparator !in extension
    requires |extension| >= 1 && extension[0] != VolumeSeparator
    ensures DirectorySeparator !in n + extension && AltDirectorySeparator !in n + extension
    ensures n + extension != "" && !IsPathRooted(n + extension)
  {
    var s := n + extension;
    assert s[0] == n[0];
    assert s[1] == if |n| >= 2 then n[1] else extension[0];
  }

  /** Two paths that end in a separator-free component after their last '\'
      are equal only when both the parts before and the components are. */
  lemma SplitAtLastSeparator(a: string, b: string, c: string, d: string)
    requires a + [DirectorySeparator] + b == c + [DirectorySeparator] + d
    requires DirectorySeparator !in b && DirectorySeparator !in d
    ensures a == c && b == d
  {
    var s := a + [DirectorySeparator] + b;
    assert s[|a|] == DirectorySeparator && s[|c|] == DirectorySeparator;
    assert a == s[..|a|];
    assert c == s[..|c|];
    assert b == s[|a| + 1..];
    assert d == s[|c| + 1..];
  }
}
