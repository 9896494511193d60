/** String primitives with JavaScript semantics: `String.prototype.replace`
    with a string pattern (first occurrence only), `startsWith`, `endsWith`
    and the `split("/").pop()` idiom. */
module Strings {
  import opened Wrappers

  /** `pat` occurs in `s` starting at index `i`. */
  predicate OccursAt(s: string, pat: string, i: int)
  {
    0 <= i && i + |pat| <= |s| && s[i..i + |pat|] == pat
  }

  /** `i` is the leftmost index at which `pat` occurs in `s`. */
  predicate FirstOccurrence(s: string, pat: string, i: int)
  {
    OccursAt(s, pat, i) && forall j :: 0 <= j < i ==> !OccursAt(s, pat, j)
  }

  lemma OccursAtShift(s: string, pat: string, i: int)
    requires |s| > 0 && i >= 1
    ensures OccursAt(s, pat, i) <==> OccursAt(s[1..], pat, i - 1)
  {
    if i + |pat| <= |s| {
      var x, y := s[i..i + |pat|], s[1..][i - 1..i - 1 + |pat|];
      forall k | 0 <= k < |pat|
        ensures x[k] == y[k]
      {
        assert x[k] == s[i + k] && y[k] == s[1..][i - 1 + k];
      }
      assert x == y;
    }
  }

  /** `indexOf`: the leftmost occurrence of `pat` in `s`, if any. */
  function IndexOf(s: string, pat: string): (r: Option<nat>)
    ensures r.Some? ==> FirstOccurrence(s, pat, r.value)
    ensures r.None? ==> forall i :: !OccursAt(s, pat, i)
    decreases |s|
  {
    if |s| < |pat| then None
    else if s[..|pat|] == pat then Some(0)
    else
      var rest := IndexOf(s[1..], pat);
      forall i | i >= 1
        ensures OccursAt(s, pat, i) <==> OccursAt(s[1..], pat, i - 1)
      {
        OccursAtShift(s, pat, i);
      }
      match rest
      case None => None
      case Some(k) => Some(k + 1)
  }

  /** `s.replace(pat, rep)` for a string pattern: only the leftmost
      occurrence is replaced; without an occurrence `s` is returned. */
  function ReplaceFirst(s: string, pat: string, rep: string): (r: string)
    ensures (forall i :: !OccursAt(s, pat, i)) ==> r == s
    ensures forall i :: FirstOccurrence(s, pat, i) ==>
      r == s[..i] + rep + s[i + |pat|..]
  {
    match IndexOf(s, pat)
    case None => s
    case Some(i) => s[..i] + rep + s[i + |pat|..]
  }

  /** A one-character pattern cannot occur in a string lacking that character. */
  lemma CharAbsent(s: string, c: char)
    requires c !in s
    ensures forall i :: !OccursAt(s, [c], i)
  {
    forall i
      ensures !OccursAt(s, [c], i)
    {
      if 0 <= i < |s| {
        assert s[i..i + 1][0] == s[i];
      }
    }
  }

  /** The first position holding `c` is the first occurrence of `[c]`. */
  lemma CharFirstAt(s: string, c: char, i: nat)
    requires i < |s| && s[i] == c && c !in s[..i]
    ensures FirstOccurrence(s, [c], i)
  {
    assert s[i..i + 1] == [c];
    forall j | 0 <= j < i
      ensures !OccursAt(s, [c], j)
    {
      assert s[..i][j] == s[j..j + 1][0];
    }
  }

  predicate StartsWith(s: string, prefix: string)
  {
    |prefix| <= |s| && s[..|prefix|] == prefix
  }

  predicate EndsWith(s: string, suffix: string)
  {
    |suffix| <= |s| && s[|s| - |suffix|..] == suffix
  }

  /** `r` is a suffix of `s`, stated position by position. */
  predicate SuffixOf(r: string, s: string)
  {
    |r| <= |s| && forall i :: 0 <= i < |r| ==> r[i] == s[|s| - |r| + i]
  }

  /** `path.split("/").pop()`: the text after the last `/`, or the whole
      string when it holds no `/`. */
  function Basename(path: string): (r: string)
    ensures '/' !in r
    ensures SuffixOf(r, path)
    ensures |r| < |path| ==> path[|path| - |r| - 1] == '/'
  {
    if |path| == 0 then path
    else if path[|path| - 1] == '/' then []
    else
      var init := path[..|path| - 1];
      var b := Basename(init);
      var r := b + [path[|path| - 1]];
      assert forall i :: 0 <= i < |b| ==> r[i] == init[|init| - |b| + i] == path[|path| - |r| + i];
      r
  }

  /** Splitting off the first character of the left operand of `+`. */
  lemma ConsAppend(a: string, b: string)
    requires |a| > 0
    ensures a + b == [a[0]] + (a[1..] + b)
  {
  }

  /** A suffix stays a suffix when a character is put in front. */
  lemma SuffixOfCons(c: char, s: string, r: string)
    requires SuffixOf(r, s)
    ensures SuffixOf(r, [c] + s)
  {
    var cs := [c] + s;
    forall i | 0 <= i < |r|
      ensures r[i] == cs[|cs| - |r| + i]
    {
      assert cs[|cs| - |r| + i] == s[|s| - |r| + i];
    }
  }

  /** Two suffixes of the same length are equal. */
  lemma SuffixesAgree(a: string, b: string, s: string)
    requires SuffixOf(a, s) && SuffixOf(b, s) && |a| == |b|
    ensures a == b
  {
    forall i | 0 <= i < |a|
      ensures a[i] == b[i]
    {
      assert a[i] == s[|s| - |a| + i];
    }
  }

  /** A `/`-free suffix leaves no `/` among the last `|r|` characters. */
  lemma SuffixWithoutSlash(r: string, s: string)
    requires SuffixOf(r, s) && '/' !in r
    ensures forall i :: |s| - |r| <= i < |s| ==> s[i] != '/'
  {
    forall i | |s| - |r| <= i < |s|
      ensures s[i] != '/'
    {
      assert r[i - (|s| - |r|)] == s[i];
    }
  }

  /** Any function meeting `Basename`'s contract agrees with it: the result
      is exactly the longest suffix free of `/`. */
  lemma BasenameUnique(path: string, b: string)
    requires '/' !in b
    requires SuffixOf(b, path)
    requires |b| < |path| ==> path[|path| - |b| - 1] == '/'
    ensures b == Basename(path)
  {
    var r := Basename(path);
    SuffixWithoutSlash(r, path);
    SuffixWithoutSlash(b, path);
    if |b| != |r| {
      assert false;
    }
    SuffixesAgree(b, r, path);
  }

  /** Joining a directory and a `/`-free file name and taking the basename
      gives the file name back. */
  lemma BasenameOfJoin(dir: string, name: string)
    requires '/' !in name
    ensures Basename(dir + "/" + name) == name
  {
    var path := dir + "/" + name;
    assert path[|path| - |name| - 1] == '/';
    BasenameUnique(path, name);
  }

  /** A bare file name is its own basename; hence `Basename` is idempotent. */
  lemma BasenameIdempotent(path: string)
    ensures Basename(Basename(path)) == Basename(path)
  {
    var b := Basename(path);
    BasenameUnique(b, b);
  }
}
