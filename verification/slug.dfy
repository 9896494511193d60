/** `slugify` (src/index.ts): lower-case the title, transliterate the first
    `ä`, `ö`, `ü` and `ß`, drop the first apostrophe, turn every maximal run
    of characters outside `[a-z0-9]` into one `-`, and trim `-` at both ends. */
module Slug {
  import opened Strings

  predicate IsAlnum(c: char)
  {
    'a' <= c <= 'z' || '0' <= c <= '9'
  }

  predicate IsSlugChar(c: char)
  {
    IsAlnum(c) || c == '-'
  }

  predicate AllSlugChars(s: string)
  {
    forall i :: 0 <= i < |s| ==> IsSlugChar(s[i])
  }

  predicate NoDoubleHyphen(s: string)
  {
    forall i :: 0 <= i < |s| - 1 ==> !(s[i] == '-' && s[i + 1] == '-')
  }

  /** What a slug looks like: only `[a-z0-9-]`, no `--`, no `-` at either end. */
  predicate IsSlug(s: string)
  {
    && AllSlugChars(s)
    && NoDoubleHyphen(s)
    && (|s| > 0 ==> s[0] != '-' && s[|s| - 1] != '-')
  }

  /** The alphanumeric characters of `s`, in order. */
  function Alnums(s: string): string
  {
    if |s| == 0 then []
    else (if IsAlnum(s[0]) then [s[0]] else []) + Alnums(s[1..])
  }

  lemma {:induction false} AlnumsAppend(a: string, b: string)
    ensures Alnums(a + b) == Alnums(a) + Alnums(b)
    decreases |a|
  {
    if |a| == 0 {
      assert a + b == b;
    } else {
      var head := if IsAlnum(a[0]) then [a[0]] else [];
      assert (a + b)[0] == a[0];
      assert (a + b)[1..] == a[1..] + b;
      AlnumsAppend(a[1..], b);
      assert Alnums(a + b) == head + (Alnums(a[1..]) + Alnums(b));
      assert head + (Alnums(a[1..]) + Alnums(b)) == (head + Alnums(a[1..])) + Alnums(b);
    }
  }

  // ---------------------------------------------------------------------
  // Step 1: toLowerCase

  /** Upper-case letters whose lower-case form is one character 0x20 higher:
      ASCII `A`-`Z` and the Latin-1 capitals U+00C0..U+00DE except U+00D7. */
  predicate IsUpper(c: char)
  {
    'A' <= c <= 'Z' || ('\U{00C0}' <= c <= '\U{00DE}' && c != '\U{00D7}')
  }

  function LowerChar(c: char): (r: char)
    ensures !IsUpper(r)
    ensures !IsUpper(c) ==> r == c
  {
    if IsUpper(c) then (c as int + 0x20) as char else c
  }

  /** `toLowerCase`: each upper-case letter becomes its lower-case form,
      every other character stays where it is. */
  function Lowercase(s: string): (r: string)
    ensures |r| == |s|
    ensures forall i :: 0 <= i < |s| && !IsUpper(s[i]) ==> r[i] == s[i]
    ensures forall i :: 0 <= i < |s| && IsUpper(s[i]) ==> r[i] as int == s[i] as int + 0x20
    ensures forall i :: 0 <= i < |r| ==> !IsUpper(r[i])
    ensures (forall i :: 0 <= i < |s| ==> !IsUpper(s[i])) ==> r == s
  {
    seq(|s|, i requires 0 <= i < |s| => LowerChar(s[i]))
  }

  // ---------------------------------------------------------------------
  // Steps 2 and 3: first-occurrence replacements

  function Transliterate(s: string): string
  {
    ReplaceFirst(ReplaceFirst(ReplaceFirst(ReplaceFirst(s, "ä", "ae"), "ö", "oe"), "ü", "ue"), "ß", "ss")
  }

  /** The string handed to the hyphenation step. */
  function Prepare(title: string): string
  {
    ReplaceFirst(Transliterate(Lowercase(title)), "'", "")
  }

  /** A title without upper-case letters, `ä`, `ö`, `ü`, `ß` and `'` is
      already prepared: every replacement finds nothing to replace. */
  lemma PrepareKeepsPlain(s: string)
    requires forall i :: 0 <= i < |s| ==> !IsUpper(s[i])
    requires 'ä' !in s && 'ö' !in s && 'ü' !in s && 'ß' !in s && '\'' !in s
    ensures Transliterate(Lowercase(s)) == s
    ensures Prepare(s) == s
  {
    assert Lowercase(s) == s;
    CharAbsent(s, 'ä');
    CharAbsent(s, 'ö');
    CharAbsent(s, 'ü');
    CharAbsent(s, 'ß');
    CharAbsent(s, '\'');
  }

  // ---------------------------------------------------------------------
  // Step 4: /[^a-z0-9]+/g -> "-"

  /** Skips the leading run of characters outside `[a-z0-9]`. */
  function DropNonAlnum(s: string): (r: string)
    ensures |r| <= |s|
    ensures forall i :: 0 <= i < |s| - |r| ==> !IsAlnum(s[i])
    ensures |r| > 0 ==> IsAlnum(r[0])
  {
    if |s| > 0 && !IsAlnum(s[0]) then
      var r := DropNonAlnum(s[1..]);
      assert forall i :: 1 <= i < |s| - |r| ==> s[i] == s[1..][i - 1];
      r
    else s
  }

  /** What is left after skipping the separators is the rest of `s`. */
  lemma {:induction false} DropNonAlnumSuffix(s: string)
    ensures SuffixOf(DropNonAlnum(s), s)
    decreases |s|
  {
    if |s| > 0 && !IsAlnum(s[0]) {
      var t := s[1..];
      var r := DropNonAlnum(t);
      assert DropNonAlnum(s) == r;
      DropNonAlnumSuffix(t);
      SuffixOfCons(s[0], t, r);
      assert [s[0]] + t == s;
    }
  }

  lemma {:induction false} DropNonAlnumKeepsAlnums(s: string)
    ensures Alnums(DropNonAlnum(s)) == Alnums(s)
    decreases |s|
  {
    if |s| > 0 && !IsAlnum(s[0]) {
      DropNonAlnumKeepsAlnums(s[1..]);
    }
  }

  /** Replaces every maximal run of characters outside `[a-z0-9]` by one `-`. */
  function Hyphenate(s: string): (r: string)
    ensures |r| > 0 <==> |s| > 0
    ensures |r| > 0 ==> (r[0] == '-' <==> !IsAlnum(s[0]))
    decreases |s|
  {
    if |s| == 0 then []
    else if IsAlnum(s[0]) then [s[0]] + Hyphenate(s[1..])
    else "-" + Hyphenate(DropNonAlnum(s[1..]))
  }

  /** Hyphenation leaves only `[a-z0-9-]`, and never two `-` in a row. */
  lemma {:induction false} HyphenateShape(s: string)
    ensures AllSlugChars(Hyphenate(s)) && NoDoubleHyphen(Hyphenate(s))
    decreases |s|
  {
    if |s| > 0 {
      var t := if IsAlnum(s[0]) then s[1..] else DropNonAlnum(s[1..]);
      var head := if IsAlnum(s[0]) then [s[0]] else "-";
      HyphenateShape(t);
      var h := Hyphenate(t);
      var r := head + h;
      assert Hyphenate(s) == r;
      forall i | 0 <= i < |r|
        ensures IsSlugChar(r[i])
      {
        if i > 0 {
          assert r[i] == h[i - 1];
        }
      }
      forall i | 0 <= i < |r| - 1
        ensures !(r[i] == '-' && r[i + 1] == '-')
      {
        assert r[i + 1] == h[i];
        if i > 0 {
          assert r[i] == h[i - 1];
        }
      }
    }
  }

  /** Hyphenation rewrites separators only: the letters and digits survive,
      in order. */
  lemma {:induction false} HyphenateKeepsAlnums(s: string)
    ensures Alnums(Hyphenate(s)) == Alnums(s)
    decreases |s|
  {
    if |s| > 0 {
      if IsAlnum(s[0]) {
        HyphenateKeepsAlnums(s[1..]);
        AlnumsAppend([s[0]], Hyphenate(s[1..]));
      } else {
        var t := DropNonAlnum(s[1..]);
        HyphenateKeepsAlnums(t);
        DropNonAlnumKeepsAlnums(s[1..]);
        AlnumsAppend("-", Hyphenate(t));
      }
    }
  }

  /** A string already made of `[a-z0-9-]` without `--` is left unchanged. */
  lemma {:induction false} HyphenateKeeps(s: string)
    requires AllSlugChars(s) && NoDoubleHyphen(s)
    ensures Hyphenate(s) == s
    decreases |s|
  {
    if |s| > 0 {
      var t := s[1..];
      assert s == [s[0]] + t;
      assert AllSlugChars(t) && NoDoubleHyphen(t);
      HyphenateKeeps(t);
      if !IsAlnum(s[0]) {
        assert |t| > 0 ==> t[0] != '-';
        assert DropNonAlnum(t) == t;
      }
    }
  }

  /** Hyphenation leaves a string unchanged exactly when it is already made
      of `[a-z0-9-]` without `--`. */
  lemma HyphenateFixedPoints(s: string)
    ensures Hyphenate(s) == s <==> AllSlugChars(s) && NoDoubleHyphen(s)
  {
    HyphenateShape(s);
    if AllSlugChars(s) && NoDoubleHyphen(s) {
      HyphenateKeeps(s);
    }
  }

  // ---------------------------------------------------------------------
  // Step 5: /^-+|-+$/g -> ""

  function TrimStart(s: string): (r: string)
    ensures SuffixOf(r, s)
    ensures forall i :: 0 <= i < |s| - |r| ==> s[i] == '-'
    ensures |r| > 0 ==> r[0] != '-'
  {
    if |s| > 0 && s[0] == '-' then
      var r := TrimStart(s[1..]);
      assert forall i :: 0 <= i < |r| ==> r[i] == s[1..][|s| - 1 - |r| + i] == s[|s| - |r| + i];
      assert forall i :: 1 <= i < |s| - |r| ==> s[i] == s[1..][i - 1];
      r
    else s
  }

  function TrimEnd(s: string): (r: string)
    ensures r <= s
    ensures forall i :: |r| <= i < |s| ==> s[i] == '-'
    ensures |r| > 0 ==> r[|r| - 1] != '-'
  {
    if |s| > 0 && s[|s| - 1] == '-' then
      var r := TrimEnd(s[..|s| - 1]);
      assert forall i :: |r| <= i < |s| - 1 ==> s[i] == s[..|s| - 1][i];
      r
    else s
  }

  /** `r` sits in `s` at offset `a`, and every character of `s` before or
      after it is `-`. */
  predicate HyphensAround(s: string, a: int, r: string)
  {
    && 0 <= a <= |s| - |r|
    && (forall i :: 0 <= i < |r| ==> s[a + i] == r[i])
    && (forall i :: 0 <= i < a ==> s[i] == '-')
    && (forall i :: a + |r| <= i < |s| ==> s[i] == '-')
  }

  /** Trimming removes exactly the leading and the trailing run of `-`. */
  function TrimHyphens(s: string): (r: string)
    ensures exists a :: HyphensAround(s, a, r)
    ensures |r| > 0 ==> r[0] != '-' && r[|r| - 1] != '-'
  {
    TrimsAround(s);
    TrimEnd(TrimStart(s))
  }

  lemma TrimsAround(s: string)
    ensures HyphensAround(s, |s| - |TrimStart(s)|, TrimEnd(TrimStart(s)))
  {
    TrimmedAround(s, TrimStart(s), TrimEnd(TrimStart(s)));
  }

  /** Dropping a leading run of `-` and then a trailing one leaves a piece
      with only `-` around it. */
  lemma TrimmedAround(s: string, t: string, r: string)
    requires SuffixOf(t, s) && forall i :: 0 <= i < |s| - |t| ==> s[i] == '-'
    requires r <= t && forall i :: |r| <= i < |t| ==> t[i] == '-'
    ensures HyphensAround(s, |s| - |t|, r)
  {
    var a := |s| - |t|;
    forall i | 0 <= i < |r|
      ensures s[a + i] == r[i]
    {
      assert t[i] == s[a + i];
    }
    forall i | a + |r| <= i < |s|
      ensures s[i] == '-'
    {
      assert t[i - a] == s[i];
    }
  }

  /** Trimming keeps a piece of the string, so it keeps its character set
      and the absence of `--`. */
  lemma TrimHyphensShape(s: string)
    requires AllSlugChars(s) && NoDoubleHyphen(s)
    ensures AllSlugChars(TrimHyphens(s)) && NoDoubleHyphen(TrimHyphens(s))
  {
    var r := TrimHyphens(s);
    var a :| HyphensAround(s, a, r);
    forall i | 0 <= i < |r|
      ensures IsSlugChar(r[i])
    {
      assert r[i] == s[a + i];
    }
    forall i | 0 <= i < |r| - 1
      ensures !(r[i] == '-' && r[i + 1] == '-')
    {
      assert r[i] == s[a + i] && r[i + 1] == s[a + i + 1];
    }
  }

  lemma AllHyphensNoAlnums(s: string)
    requires forall i :: 0 <= i < |s| ==> s[i] == '-'
    ensures Alnums(s) == []
  {
  }

  /** Trimming deletes only `-`, so the letters and digits all survive. */
  lemma TrimHyphensKeepsAlnums(s: string)
    ensures Alnums(TrimHyphens(s)) == Alnums(s)
  {
    var r := TrimHyphens(s);
    var a :| HyphensAround(s, a, r);
    HyphensAroundKeepsAlnums(s, a, r);
  }

  lemma HyphensAroundKeepsAlnums(s: string, a: int, r: string)
    requires HyphensAround(s, a, r)
    ensures Alnums(r) == Alnums(s)
  {
    var pre, post := s[..a], s[a + |r|..];
    assert s[a..a + |r|] == r;
    assert s == pre + r + post;
    AlnumsOfPadded(pre, r, post);
  }

  /** Only `-` on either side adds no letters or digits. */
  lemma AlnumsOfPadded(pre: string, r: string, post: string)
    requires forall i :: 0 <= i < |pre| ==> pre[i] == '-'
    requires forall i :: 0 <= i < |post| ==> post[i] == '-'
    ensures Alnums(pre + r + post) == Alnums(r)
  {
    AlnumsAppend(pre + r, post);
    AlnumsAppend(pre, r);
    AllHyphensNoAlnums(pre);
    AllHyphensNoAlnums(post);
  }

  // ---------------------------------------------------------------------
  // The whole pipeline

  function Slugify(title: string): (r: string)
    ensures IsSlug(r)
  {
    var h := Hyphenate(Prepare(title));
    HyphenateShape(Prepare(title));
    TrimHyphensShape(h);
    TrimHyphens(h)
  }

  /** The slug keeps every letter and digit of the prepared title, in order;
      only separators are rewritten. */
  lemma SlugKeepsAlnums(title: string)
    ensures Alnums(Slugify(title)) == Alnums(Prepare(title))
  {
    HyphenateKeepsAlnums(Prepare(title));
    TrimHyphensKeepsAlnums(Hyphenate(Prepare(title)));
  }

  /** Every slug is a fixed point of `Slugify`. */
  lemma SlugifyKeepsSlugs(s: string)
    requires IsSlug(s)
    ensures Slugify(s) == s
  {
    PrepareKeepsPlain(s);
    HyphenateFixedPoints(s);
    assert TrimStart(s) == s;
    assert TrimEnd(s) == s;
  }

  /** `Slugify` changes a string exactly when it is not already a slug. */
  lemma SlugifyFixedPoints(s: string)
    ensures Slugify(s) == s <==> IsSlug(s)
  {
    if IsSlug(s) {
      SlugifyKeepsSlugs(s);
    }
  }

  lemma SlugifyIdempotent(title: string)
    ensures Slugify(Slugify(title)) == Slugify(title)
  {
    SlugifyKeepsSlugs(Slugify(title));
  }

  // ---------------------------------------------------------------------
  // Hyphenation of words and separators

  lemma {:induction false} HyphenateAlnumPrefix(a: string, b: string)
    requires forall i :: 0 <= i < |a| ==> IsAlnum(a[i])
    ensures Hyphenate(a + b) == a + Hyphenate(b)
    decreases |a|
  {
    if |a| == 0 {
      assert a + b == b;
    } else {
      ConsAppend(a, b);
      HyphenateAlnumHead(a[0], a[1..] + b);
      HyphenateAlnumPrefix(a[1..], b);
      ConsAppend(a, Hyphenate(b));
    }
  }

  lemma HyphenateAlnumHead(c: char, t: string)
    requires IsAlnum(c)
    ensures Hyphenate([c] + t) == [c] + Hyphenate(t)
  {
    assert ([c] + t)[1..] == t;
  }

  lemma {:induction false} DropNonAlnumPrefix(a: string, b: string)
    requires forall i :: 0 <= i < |a| ==> !IsAlnum(a[i])
    requires |b| > 0 ==> IsAlnum(b[0])
    ensures DropNonAlnum(a + b) == b
    decreases |a|
  {
    if |a| == 0 {
      assert a + b == b;
    } else {
      assert (a + b)[0] == a[0];
      assert (a + b)[1..] == a[1..] + b;
      DropNonAlnumPrefix(a[1..], b);
    }
  }

  /** A run of separators in front of a word becomes a single `-`. */
  lemma HyphenateSeparator(sep: string, rest: string)
    requires |sep| > 0 && forall i :: 0 <= i < |sep| ==> !IsAlnum(sep[i])
    requires |rest| > 0 ==> IsAlnum(rest[0])
    ensures Hyphenate(sep + rest) == "-" + Hyphenate(rest)
  {
    ConsAppend(sep, rest);
    DropNonAlnumPrefix(sep[1..], rest);
    HyphenateSeparatorHead(sep[0], sep[1..] + rest);
  }

  lemma HyphenateSeparatorHead(c: char, t: string)
    requires !IsAlnum(c)
    ensures Hyphenate([c] + t) == "-" + Hyphenate(DropNonAlnum(t))
  {
    assert ([c] + t)[1..] == t;
  }
}
