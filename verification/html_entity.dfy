/** `decodeHtml` (src/index.ts): the only entity the exporter decodes is the
    hexadecimal apostrophe reference, and only its first occurrence. */
module HtmlEntity {
  import opened Strings

  const ApostropheEntity: string := "&#x27;"

  /** Replaces the leftmost `&#x27;` of `s` with `'`; later occurrences stay. */
  function DecodeHtml(s: string): (r: string)
    ensures (forall i :: !OccursAt(s, ApostropheEntity, i)) ==> r == s
    ensures forall i :: FirstOccurrence(s, ApostropheEntity, i) ==>
      && |r| == |s| - 5
      && r[..i] == s[..i]
      && r[i] == '\''
      && r[i + 1..] == s[i + 6..]
  {
    ReplaceFirst(s, ApostropheEntity, "'")
  }

  /** Only the first entity is decoded: a text holding the entity twice
      keeps the second one. */
  lemma DecodesOnlyFirst(s: string)
    requires s == "It&#x27;s Anna&#x27;s"
    ensures DecodeHtml(s) == "It's Anna&#x27;s"
  {
    assert s[2..8] == ApostropheEntity;
    EntityFirstAt2(s);
    assert s[..2] + "'" + s[8..] == "It's Anna&#x27;s";
  }

  /** A paragraph holding one encoded apostrophe. */
  lemma DecodesOneApostrophe(s: string)
    requires s == "It&#x27;s great"
    ensures DecodeHtml(s) == "It's great"
  {
    EntityFirstAt2(s);
    assert s[..2] + "'" + s[8..] == "It's great";
  }

  lemma EntityFirstAt2(s: string)
    requires |s| >= 8 && s[0] != '&' && s[1] != '&' && s[2..8] == ApostropheEntity
    ensures FirstOccurrence(s, ApostropheEntity, 2)
  {
    assert s[0..6][0] != ApostropheEntity[0] && s[1..7][0] != ApostropheEntity[0];
  }
}
