/** Two titles worked through `Slugify` step by step. They show how the
    first-occurrence replacements and the apostrophe deletion behave. */
module SlugExamples {
  import opened Strings
  import opened Slug

  // ---------------------------------------------------------------------
  // "Müller's Café"

  lemma LowercaseMuellers(title: string)
    requires title == "Müller's Café"
    ensures Lowercase(title) == "müller's café"
  {
  }

  lemma TransliterateMuellers(l: string)
    requires l == "müller's café"
    ensures Transliterate(l) == "mueller's café"
  {
    CharAbsent(l, 'ä');
    CharAbsent(l, 'ö');
    CharFirstAt(l, 'ü', 1);
    var u := l[..1] + "ue" + l[2..];
    assert u == "mueller's café";
    CharAbsent(u, 'ß');
  }

  lemma ApostropheMuellers(u: string)
    requires u == "mueller's café"
    ensures ReplaceFirst(u, "'", "") == "muellers café"
  {
    CharFirstAt(u, '\'', 7);
    assert u[..7] + u[8..] == "muellers café";
  }

  lemma HyphenateE(s: string)
    requires s == "é"
    ensures Hyphenate(s) == "-"
  {
  }

  lemma HyphenateCafe(s: string)
    requires s == "café"
    ensures Hyphenate(s) == "caf-"
  {
    var a, b := "caf", "é";
    assert a + b == s;
    HyphenateAlnumPrefix(a, b);
    HyphenateE(b);
    assert a + "-" == "caf-";
  }

  lemma HyphenateSpaceCafe(s: string)
    requires s == " café"
    ensures Hyphenate(s) == "-caf-"
  {
    var a, b := " ", "café";
    assert a + b == s;
    HyphenateSeparator(a, b);
    HyphenateCafe(b);
    assert "-" + "caf-" == "-caf-";
  }

  lemma HyphenateMuellers(p: string)
    requires p == "muellers café"
    ensures Hyphenate(p) == "muellers-caf-"
  {
    var a, b := "muellers", " café";
    assert a + b == p;
    HyphenateAlnumPrefix(a, b);
    HyphenateSpaceCafe(b);
    assert a + "-caf-" == "muellers-caf-";
  }

  lemma TrimMuellers(h: string)
    requires h == "muellers-caf-"
    ensures TrimHyphens(h) == "muellers-caf"
  {
    assert TrimStart(h) == h;
    assert h[..|h| - 1] == "muellers-caf";
    assert TrimEnd(h) == TrimEnd(h[..|h| - 1]);
  }

  /** The apostrophe is deleted before hyphenation, so no separator appears
      where it stood, and `é` is not transliterated, so it is cut off as a
      trailing separator. */
  lemma MuellersCafe(title: string)
    requires title == "Müller's Café"
    ensures Slugify(title) == "muellers-caf"
  {
    LowercaseMuellers(title);
    TransliterateMuellers(Lowercase(title));
    ApostropheMuellers(Transliterate(Lowercase(title)));
    HyphenateMuellers(Prepare(title));
    TrimMuellers(Hyphenate(Prepare(title)));
  }

  // ---------------------------------------------------------------------
  // "Bücher über"

  lemma LowercaseBuecher(title: string)
    requires title == "Bücher über"
    ensures Lowercase(title) == "bücher über"
  {
  }

  lemma TransliterateBuecher(l: string)
    requires l == "bücher über"
    ensures Transliterate(l) == "buecher über"
  {
    CharAbsent(l, 'ä');
    CharAbsent(l, 'ö');
    CharFirstAt(l, 'ü', 1);
    var u := l[..1] + "ue" + l[2..];
    assert u == "buecher über";
    CharAbsent(u, 'ß');
  }

  lemma HyphenateBer(s: string)
    requires s == "ber"
    ensures Hyphenate(s) == "ber"
  {
    HyphenateKeeps(s);
  }

  lemma HyphenateUeber(s: string)
    requires s == " über"
    ensures Hyphenate(s) == "-ber"
  {
    var a, b := " ü", "ber";
    assert a + b == s;
    HyphenateSeparator(a, b);
    HyphenateBer(b);
    assert "-" + "ber" == "-ber";
  }

  lemma HyphenateBuecher(p: string)
    requires p == "buecher über"
    ensures Hyphenate(p) == "buecher-ber"
  {
    var a, b := "buecher", " über";
    assert a + b == p;
    HyphenateAlnumPrefix(a, b);
    HyphenateUeber(b);
    assert a + "-ber" == "buecher-ber";
  }

  lemma ApostropheBuecher(u: string)
    requires u == "buecher über"
    ensures ReplaceFirst(u, "'", "") == u
  {
    CharAbsent(u, '\'');
  }

  lemma PrepareBuecher(title: string)
    requires title == "Bücher über"
    ensures Prepare(title) == "buecher über"
  {
    LowercaseBuecher(title);
    TransliterateBuecher(Lowercase(title));
    ApostropheBuecher(Transliterate(Lowercase(title)));
  }

  lemma TrimBuecher(h: string)
    requires h == "buecher-ber"
    ensures TrimHyphens(h) == h
  {
    assert TrimStart(h) == h;
    assert TrimEnd(h) == h;
  }

  /** Only the first `ü` is transliterated; the second one is a separator. */
  lemma SecondUmlautDropped(title: string)
    requires title == "Bücher über"
    ensures Slugify(title) == "buecher-ber"
  {
    PrepareBuecher(title);
    HyphenateBuecher(Prepare(title));
    TrimBuecher(Hyphenate(Prepare(title)));
  }
}
