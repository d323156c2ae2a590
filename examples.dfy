/**
 * Worked cases of the whole rewrite of one text node, from match discovery
 * over the full table to the pieces the splice emits. Each text is described
 * by its pieces (the words before a phrase, the phrase, the words after it),
 * and a lemma shows that the worked sentence has exactly those pieces.
 */
module Examples {
  import opened Dom
  import opened Strings
  import opened Phrases
  import opened Matching
  import opened Splice
  import opened Traversal

  /** A character of a text lies in one of its three pieces. */
  lemma InPieces(text: string, i: nat, j: nat)
    requires i <= j <= |text|
    ensures forall x :: x in text ==> x in text[..i] || x in text[i..j] || x in text[j..]
  {
    assert text == text[..i] + text[i..j] + text[j..];
  }

  /** The splice of one match strictly inside the text, as a list of three pieces. */
  lemma ThreeOf(s: string, m: Match, path: Path, pieces: seq<Node>)
    requires 0 < m.start <= m.end < |s|
    requires pieces == Gap(s, m, 0) + [Span(m, path)] + (if m.end < |s| then [Text(s[m.end..])] else [])
    ensures pieces == [Text(s[..m.start]), Span(m, path), Text(s[m.end..])]
  {
  }

  /** One match strictly inside the text: the words before it, its span, the words after it. */
  lemma ThreePieces(s: string, m: Match, path: Path)
    requires AllMatches(s) == [m] && 0 < m.start <= m.end < |s|
    ensures RewriteText(s, path) == [Text(s[..m.start]), Span(m, path), Text(s[m.end..])]
  {
    RewriteTextSingle(s, m, path);
    ThreeOf(s, m, path, RewriteText(s, path));
  }

  const Sentence := "That is not uncommon."

  /** The text is "That is ", then "not uncommon", then ".". */
  predicate UncommonPieces(text: string)
  {
    |text| == 21 && text[..8] == "That is " && text[8..20] == "not uncommon" && text[20..] == "."
  }

  lemma SentencePieces()
    ensures UncommonPieces(Sentence)
  {
  }

  /** The one occurrence of "not uncommon" in the sentence. */
  const Uncommon := Match(8, 20, "not uncommon", "common")

  /** Characters the sentence lacks in either case; every other key holds one of them. */
  const NotInSentence := "gpflredw"

  lemma OtherKeysNotInSentence()
    ensures forall u :: 0 < u < |Table| ==>
      'g' in Table[u].key || 'p' in Table[u].key || 'f' in Table[u].key || 'l' in Table[u].key ||
      'r' in Table[u].key || 'e' in Table[u].key || 'd' in Table[u].key || 'w' in Table[u].key
  {
  }

  lemma SentenceAlphabet(text: string)
    requires UncommonPieces(text)
    ensures forall x :: x in text ==> LowerChar(x) !in NotInSentence
  {
    InPieces(text, 8, 20);
  }

  /** No key but the first occurs in the sentence. */
  lemma OnlyFirstKeyInSentence(text: string)
    requires UncommonPieces(text)
    ensures forall u :: 0 < u < |Table| ==> Occurrences(text, Table[u].key, 0) == []
  {
    TableWellFormed();
    OtherKeysNotInSentence();
    SentenceAlphabet(text);
    forall u | 0 < u < |Table|
      ensures Occurrences(text, Table[u].key, 0) == []
    {
      AbsentCharSilent(text, Table[u].key, NotInSentence);
    }
  }

  /** "not uncommon" occurs in the sentence once, at offset 8. */
  lemma UncommonAt(text: string)
    requires UncommonPieces(text)
    ensures Occurrences(text, Table[0].key, 0) == [8]
  {
    var key := "not uncommon";
    assert Table[0].key == key;
    assert forall x :: x in text[..8] ==> LowerChar(x) != 'n';
    NoMatchBefore(text, key, 8);
    SoleOccurrence(text, key, 8);
  }

  /** The only match record of the sentence is `Uncommon`. */
  lemma UncommonCollected(text: string)
    requires UncommonPieces(text)
    ensures AllMatches(text) == [Uncommon]
  {
    TableWellFormed();
    OnlyFirstKeyInSentence(text);
    UncommonAt(text);
    OnlyPhrase(Table, text, 0);
    SinglePhraseMatch(Table, text, 0, 8);
    assert Table[0] == Phrase("not uncommon", "common");
  }

  /** ... and the sort keeps it. */
  lemma UncommonDiscovered(text: string)
    requires UncommonPieces(text)
    ensures AllMatches(text) == [Uncommon]
    ensures Discovered(text) == [Uncommon]
  {
    UncommonCollected(text);
    assert SortByStart([Uncommon]) == InsertByStart(Uncommon, SortByStart([]));
  }

  /**
   * Outside any exclusion the sentence becomes the text before the phrase, a
   * span showing "common", and the text after it.
   */
  lemma UncommonActive(text: string)
    requires UncommonPieces(text)
    ensures RewriteText(text, Active) == [Text("That is "), Span(Uncommon, Active), Text(".")]
  {
    UncommonDiscovered(text);
    ThreePieces(text, Uncommon, Active);
  }

  /** The span shows "common", and its tooltip reads `Original text: 'not uncommon'`. */
  lemma UncommonTooltip()
    ensures Span(Uncommon, Active).attrs["title"] == "Original text: 'not uncommon'"
    ensures Span(Uncommon, Active).children == [Text("common")]
  {
  }

  /** Inside a `pre` block the same sentence keeps its text, the phrase only underlined. */
  lemma UncommonSkipped(text: string)
    requires UncommonPieces(text)
    ensures RewriteText(text, Skipped) == [Text("That is "), Span(Uncommon, Skipped), Text(".")]
  {
    UncommonDiscovered(text);
    ThreePieces(text, Uncommon, Skipped);
  }

  /**
   * Reading the tooltip in place of the span gives the sentence back, and the
   * underlined version reads as the sentence itself.
   */
  lemma UncommonRoundTrips(text: string)
    requires UncommonPieces(text)
    ensures Restored(RewriteText(text, Active)) == text
    ensures Content(RewriteText(text, Skipped)) == text
  {
    UncommonDiscovered(text);
    TextRoundTrips(text);
  }

  const Infrequently := "not infrequently"

  /** The text is "not infrequent", then "ly". */
  predicate InfrequentlyPieces(text: string)
  {
    |text| == 16 && text[..14] == "not infrequent" && text[14..] == "ly"
  }

  lemma InfrequentlyHasPieces()
    ensures InfrequentlyPieces(Infrequently)
  {
  }

  /** "not infrequent" (entry 3 of the table) occurs at the start of the text... */
  const Shorter := Match(0, 14, "not infrequent", "frequent")
  /** ...and so does "not infrequently" (entry 16). */
  const Longer := Match(0, 16, "not infrequently", "frequently")

  /** Characters the text lacks in either case; every key but entries 3 and 16 holds one of them. */
  const NotInInfrequently := "csmkadw"

  lemma OtherKeysNotInInfrequently()
    ensures forall u :: 0 <= u < |Table| && u != 3 && u != 16 ==>
      'c' in Table[u].key || 's' in Table[u].key || 'm' in Table[u].key || 'k' in Table[u].key ||
      'a' in Table[u].key || 'd' in Table[u].key || 'w' in Table[u].key
  {
  }

  lemma InfrequentlyAlphabet(text: string)
    requires InfrequentlyPieces(text)
    ensures forall x :: x in text ==> LowerChar(x) !in NotInInfrequently
  {
    InPieces(text, 14, 16);
  }

  /** No key but entries 3 and 16 occurs in the text. */
  lemma OnlyTwoKeysInInfrequently(text: string)
    requires InfrequentlyPieces(text)
    ensures forall u :: 0 <= u < |Table| && u != 3 && u != 16 ==> Occurrences(text, Table[u].key, 0) == []
  {
    TableWellFormed();
    OtherKeysNotInInfrequently();
    InfrequentlyAlphabet(text);
    forall u | 0 <= u < |Table| && u != 3 && u != 16
      ensures Occurrences(text, Table[u].key, 0) == []
    {
      AbsentCharSilent(text, Table[u].key, NotInInfrequently);
    }
  }

  /** Entry 3, "not infrequent", occurs once, at offset 0. */
  lemma ShorterAt(text: string)
    requires InfrequentlyPieces(text)
    ensures Occurrences(text, Table[3].key, 0) == [0]
    ensures text[0..14] == Shorter.original
  {
    var key := Shorter.original;
    assert Table[3].key == key;
    assert text[0..14] == key;
    SoleOccurrence(text, key, 0);
  }

  /** Entry 16, "not infrequently", occurs once, at offset 0. */
  lemma LongerAt(text: string)
    requires InfrequentlyPieces(text)
    ensures Occurrences(text, Table[16].key, 0) == [0]
    ensures text[0..16] == Longer.original
  {
    var key := Longer.original;
    assert Table[16].key == key;
    assert text == text[..14] + text[14..];
    assert text[0..16] == key;
    SoleOccurrence(text, key, 0);
  }

  lemma ShorterMatches(text: string)
    requires InfrequentlyPieces(text)
    ensures ValidTable(Table) && PhraseMatches(Table, text, 3) == [Shorter]
  {
    TableWellFormed();
    ShorterAt(text);
    SinglePhraseMatch(Table, text, 3, 0);
    assert Table[3] == Phrase(Shorter.original, Shorter.replacement);
  }

  lemma LongerMatches(text: string)
    requires InfrequentlyPieces(text)
    ensures ValidTable(Table) && PhraseMatches(Table, text, 16) == [Longer]
  {
    TableWellFormed();
    LongerAt(text);
    SinglePhraseMatch(Table, text, 16, 0);
    assert Table[16] == Phrase(Longer.original, Longer.replacement);
  }

  /** Both phrases match at offset 0: the collection holds the shorter one first, in table order. */
  lemma InfrequentlyCollected(text: string)
    requires InfrequentlyPieces(text)
    ensures AllMatches(text) == [Shorter, Longer]
  {
    TableWellFormed();
    OnlyTwoKeysInInfrequently(text);
    OnlyTwoPhrases(Table, text, 3, 16);
    ShorterMatches(text);
    LongerMatches(text);
  }

  /** The stable sort keeps two matches with the same start in the order they were found. */
  lemma InfrequentlySorted(text: string)
    requires AllMatches(text) == [Shorter, Longer]
    ensures Discovered(text) == [Shorter, Longer]
  {
    assert [Shorter, Longer][1..] == [Longer];
    assert SortByStart([Longer]) == InsertByStart(Longer, SortByStart([])) == [Longer];
    assert InsertByStart(Shorter, [Longer]) == [Shorter, Longer];
  }

  /** The text's matches, in the order the splice takes them: "not infrequent", then "not infrequently". */
  lemma InfrequentlyDiscovered(text: string)
    requires InfrequentlyPieces(text)
    ensures AllMatches(text) == [Shorter, Longer]
    ensures Discovered(text) == [Shorter, Longer]
  {
    InfrequentlyCollected(text);
    InfrequentlySorted(text);
  }

  /**
   * The splice emits a span for each of the two overlapping matches, and no
   * text between them: the text reads "frequentfrequently".
   */
  lemma InfrequentlyTwice(text: string)
    requires InfrequentlyPieces(text)
    ensures RewriteText(text, Active) == [Span(Shorter, Active), Span(Longer, Active)]
    ensures Content(RewriteText(text, Active)) == "frequentfrequently"
  {
    InfrequentlyDiscovered(text);
    var ms := [Shorter, Longer];
    assert InBounds(text, ms);
    SplicedStep(text, ms, 0, Active);
    SplicedStep(text, ms[1..], 14, Active);
    assert ms[1..] == [Longer] && [Longer][1..] == [];
    var pieces := [Span(Shorter, Active), Span(Longer, Active)];
    assert Content([Text("frequent")]) == "frequent" by {
      assert [Text("frequent")][1..] == [];
    }
    assert Content([Text("frequently")]) == "frequently" by {
      assert [Text("frequently")][1..] == [];
    }
    assert pieces[1..] == [Span(Longer, Active)];
    assert [Span(Longer, Active)][1..] == [];
    assert Content([Span(Longer, Active)]) == "frequently";
  }
}
