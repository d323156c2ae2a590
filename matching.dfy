/**
 * Match discovery: for each phrase in table order, every case-insensitive
 * occurrence of its key found by a global regular expression, left to right
 * and without overlap; then a stable sort of all of them by start offset.
 */
module Matching {
  import opened Wrappers
  import opened Strings
  import opened Phrases

  /**
   * One match: offsets [start, end) in the text, the matched characters in the
   * text's own casing, and the phrase's replacement.
   */
  datatype Match = Match(start: nat, end: nat, original: string, replacement: string)

  /** The key matches the text at offset i, ignoring ASCII case. */
  predicate MatchesAt(text: string, key: string, i: nat)
  {
    i + |key| <= |text| && Lower(text[i..i + |key|]) == Lower(key)
  }

  /**
   * `regex.exec(text)` with `lastIndex` at `from`: the leftmost offset at or
   * after `from` where the key matches, or None.
   */
  function NextMatch(text: string, key: string, from: nat): (r: Option<nat>)
    ensures r.Some? ==> from <= r.value && MatchesAt(text, key, r.value)
    ensures r.Some? ==> forall j: nat :: from <= j < r.value ==> !MatchesAt(text, key, j)
    ensures r.None? ==> forall j: nat :: from <= j ==> !MatchesAt(text, key, j)
    decreases |text| - from
  {
    if from + |key| > |text| then None
    else if MatchesAt(text, key, from) then Some(from)
    else NextMatch(text, key, from + 1)
  }

  /**
   * The occurrences a global search for the key reports, as a reference
   * definition: scanning from `from`, take an offset where the key matches and
   * resume after it, otherwise move one character on.
   */
  function Occurrences(text: string, key: string, from: nat): seq<nat>
    requires |key| > 0
    decreases |text| - from
  {
    if from + |key| > |text| then []
    else if MatchesAt(text, key, from) then [from] + Occurrences(text, key, from + |key|)
    else Occurrences(text, key, from + 1)
  }

  /**
   * The occurrences are sound: each is at or after `from`, the key matches
   * there, and each starts at or after the end of the one before, so they
   * come strictly left to right and never overlap.
   */
  lemma {:induction false} OccurrencesSound(text: string, key: string, from: nat)
    requires |key| > 0
    ensures forall k :: 0 <= k < |Occurrences(text, key, from)| ==>
      from <= Occurrences(text, key, from)[k] && MatchesAt(text, key, Occurrences(text, key, from)[k])
    ensures forall i, j :: 0 <= i < j < |Occurrences(text, key, from)| ==>
      Occurrences(text, key, from)[i] + |key| <= Occurrences(text, key, from)[j]
    decreases |text| - from
  {
    if from + |key| > |text| {
    } else if MatchesAt(text, key, from) {
      OccurrencesSound(text, key, from + |key|);
      var rest := Occurrences(text, key, from + |key|);
      assert Occurrences(text, key, from) == [from] + rest;
    } else {
      OccurrencesSound(text, key, from + 1);
    }
  }

  /** Some offset in `starts` begins a span of length `len` that holds offset j. */
  predicate CoveredBy(starts: seq<nat>, len: nat, j: nat)
  {
    exists k :: 0 <= k < |starts| && starts[k] <= j < starts[k] + len
  }

  /**
   * The occurrences are complete for a left-to-right search: every offset
   * where the key matches is either reported or lies inside the reported
   * occurrence that starts before it.
   */
  lemma {:induction false} OccurrencesCover(text: string, key: string, from: nat, j: nat)
    requires |key| > 0
    requires from <= j && MatchesAt(text, key, j)
    ensures CoveredBy(Occurrences(text, key, from), |key|, j)
    decreases |text| - from
  {
    var r := Occurrences(text, key, from);
    if MatchesAt(text, key, from) {
      var rest := Occurrences(text, key, from + |key|);
      assert r == [from] + rest;
      if j < from + |key| {
        assert r[0] <= j < r[0] + |key|;
      } else {
        OccurrencesCover(text, key, from + |key|, j);
        var k :| 0 <= k < |rest| && rest[k] <= j < rest[k] + |key|;
        assert r[k + 1] == rest[k];
      }
    } else {
      assert j != from;
      OccurrencesCover(text, key, from + 1, j);
    }
  }

  /** No occurrence is reported exactly when the key matches nowhere from `from` on. */
  lemma OccurrencesEmptyIff(text: string, key: string, from: nat)
    requires |key| > 0
    ensures Occurrences(text, key, from) == [] <==> forall j: nat :: from <= j ==> !MatchesAt(text, key, j)
  {
    var r := Occurrences(text, key, from);
    if r == [] {
      forall j: nat | from <= j
        ensures !MatchesAt(text, key, j)
      {
        if MatchesAt(text, key, j) {
          OccurrencesCover(text, key, from, j);
        }
      }
    } else {
      OccurrencesSound(text, key, from);
      assert from <= r[0] && MatchesAt(text, key, r[0]);
    }
  }

  /**
   * One step of the `exec` loop: the search from `from` finds the first
   * reported occurrence, and the rest are reported from just after it.
   */
  lemma {:induction false} NextMatchStep(text: string, key: string, from: nat)
    requires |key| > 0
    ensures NextMatch(text, key, from).None? ==> Occurrences(text, key, from) == []
    ensures NextMatch(text, key, from).Some? ==>
      var s := NextMatch(text, key, from).value;
      Occurrences(text, key, from) == [s] + Occurrences(text, key, s + |key|)
    decreases |text| - from
  {
    if from + |key| > |text| {
    } else if MatchesAt(text, key, from) {
      assert NextMatch(text, key, from) == Some(from);
    } else {
      NextMatchStep(text, key, from + 1);
      assert NextMatch(text, key, from) == NextMatch(text, key, from + 1);
      assert Occurrences(text, key, from) == Occurrences(text, key, from + 1);
    }
  }

  /** The match records of one phrase, one per reported occurrence. */
  function ToMatches(text: string, p: Phrase, starts: seq<nat>): (r: seq<Match>)
    requires forall k :: 0 <= k < |starts| ==> starts[k] + |p.key| <= |text|
    ensures |r| == |starts|
  {
    if starts == [] then []
    else
      [Match(starts[0], starts[0] + |p.key|, text[starts[0]..starts[0] + |p.key|], p.replacement)]
      + ToMatches(text, p, starts[1..])
  }

  /** The matches of phrase number t of the table. */
  function PhraseMatches(table: seq<Phrase>, text: string, t: nat): seq<Match>
    requires ValidTable(table) && t < |table|
  {
    PhraseMatchesFrom(table, text, t, 0)
  }

  /** The matches of phrase number t that a search from offset `from` still reports. */
  function PhraseMatchesFrom(table: seq<Phrase>, text: string, t: nat, from: nat): seq<Match>
    requires ValidTable(table) && t < |table|
  {
    OccurrencesSound(text, table[t].key, from);
    ToMatches(text, table[t], Occurrences(text, table[t].key, from))
  }

  /**
   * A match is sound for the text: it covers a case-insensitive occurrence of
   * some key of the table and carries that phrase's replacement.
   */
  predicate Sound(table: seq<Phrase>, text: string, m: Match)
  {
    && m.start < m.end <= |text|
    && m.original == text[m.start..m.end]
    && exists t :: 0 <= t < |table| && m.end - m.start == |table[t].key|
         && Lower(m.original) == Lower(table[t].key) && m.replacement == table[t].replacement
  }

  /** The k-th record of one phrase describes its k-th occurrence. */
  lemma {:induction false} ToMatchesAt(text: string, p: Phrase, starts: seq<nat>, k: nat)
    requires forall k :: 0 <= k < |starts| ==> starts[k] + |p.key| <= |text|
    requires k < |starts|
    ensures ToMatches(text, p, starts)[k]
      == Match(starts[k], starts[k] + |p.key|, text[starts[k]..starts[k] + |p.key|], p.replacement)
  {
    if k > 0 {
      ToMatchesAt(text, p, starts[1..], k - 1);
    }
  }

  /** The matches of the first n phrases, phrase after phrase. */
  function MatchesUpTo(table: seq<Phrase>, text: string, n: nat): seq<Match>
    requires ValidTable(table) && n <= |table|
  {
    if n == 0 then [] else MatchesUpTo(table, text, n - 1) + PhraseMatches(table, text, n - 1)
  }

  /** Every match of one phrase is sound, and they come left to right without overlap. */
  lemma PhraseMatchesSound(table: seq<Phrase>, text: string, t: nat)
    requires ValidTable(table) && t < |table|
    ensures forall m :: m in PhraseMatches(table, text, t) ==> Sound(table, text, m)
    ensures forall i, j :: 0 <= i < j < |PhraseMatches(table, text, t)| ==>
      PhraseMatches(table, text, t)[i].end <= PhraseMatches(table, text, t)[j].start
  {
    var key := table[t].key;
    var starts := Occurrences(text, key, 0);
    var ms := PhraseMatches(table, text, t);
    OccurrencesSound(text, key, 0);
    forall k | 0 <= k < |ms|
      ensures Sound(table, text, ms[k]) && ms[k].start == starts[k] && ms[k].end == starts[k] + |key|
    {
      ToMatchesAt(text, table[t], starts, k);
      assert MatchesAt(text, key, starts[k]);
    }
  }

  /** Every collected match is sound. */
  lemma {:induction false} MatchesUpToSound(table: seq<Phrase>, text: string, n: nat)
    requires ValidTable(table) && n <= |table|
    ensures forall m :: m in MatchesUpTo(table, text, n) ==> Sound(table, text, m)
  {
    if n > 0 {
      PhraseMatchesSound(table, text, n - 1);
      MatchesUpToSound(table, text, n - 1);
    }
  }

  /** Every match of every phrase of the fixed table, before sorting: `allMatches` after the loops. */
  function AllMatches(text: string): seq<Match>
  {
    TableWellFormed();
    MatchesUpTo(Table, text, |Table|)
  }

  /**
   * One step of the `exec` loop in terms of match records: when the search
   * from `from` finds offset s, the records still to come are s's record
   * followed by those reported after it; when it finds nothing, none remain.
   */
  lemma PhraseMatchesStep(table: seq<Phrase>, text: string, t: nat, from: nat)
    requires ValidTable(table) && t < |table|
    ensures var key := table[t].key;
      match NextMatch(text, key, from)
      case None => PhraseMatchesFrom(table, text, t, from) == []
      case Some(s) =>
        && s + |key| <= |text|
        && PhraseMatchesFrom(table, text, t, from)
           == [Match(s, s + |key|, text[s..s + |key|], table[t].replacement)] + PhraseMatchesFrom(table, text, t, s + |key|)
  {
    var key := table[t].key;
    NextMatchStep(text, key, from);
    OccurrencesSound(text, key, from);
    if NextMatch(text, key, from).Some? {
      ToMatchesAt(text, table[t], Occurrences(text, key, from), 0);
    }
  }

  /**
   * The inner collecting loop for phrase t: run `exec` from `lastIndex` until
   * it finds nothing, pushing a record per match and resuming after it.
   */
  method CollectPhrase(table: seq<Phrase>, text: string, t: nat) returns (found: seq<Match>)
    requires ValidTable(table) && t < |table|
    ensures found == PhraseMatches(table, text, t)
  {
    var key, simple := table[t].key, table[t].replacement;
    found := [];
    var lastIndex := 0;
    var m := NextMatch(text, key, lastIndex);
    while m.Some?
      invariant lastIndex <= |text|
      invariant m == NextMatch(text, key, lastIndex)
      invariant found + PhraseMatchesFrom(table, text, t, lastIndex) == PhraseMatches(table, text, t)
      decreases |text| - lastIndex
    {
      var s := m.value;
      PhraseMatchesStep(table, text, t, lastIndex);
      found := found + [Match(s, s + |key|, text[s..s + |key|], simple)];
      lastIndex := s + |key|;
      m := NextMatch(text, key, lastIndex);
    }
    PhraseMatchesStep(table, text, t, lastIndex);
  }

  /**
   * The collecting loops: for each phrase in table order, collect its
   * matches and append them.
   */
  method FindMatches(table: seq<Phrase>, text: string) returns (all: seq<Match>)
    requires ValidTable(table)
    ensures all == MatchesUpTo(table, text, |table|)
  {
    all := [];
    var t := 0;
    while t < |table|
      invariant 0 <= t <= |table|
      invariant all == MatchesUpTo(table, text, t)
    {
      var found := CollectPhrase(table, text, t);
      all := all + found;
      t := t + 1;
    }
  }

  /** No match is collected exactly when no key of the table occurs in the text. */
  lemma {:induction false} NoMatchesIff(table: seq<Phrase>, text: string, n: nat)
    requires ValidTable(table) && n <= |table|
    ensures MatchesUpTo(table, text, n) == [] <==>
      forall u: nat, j: nat :: u < n ==> !MatchesAt(text, table[u].key, j)
  {
    if n > 0 {
      NoMatchesIff(table, text, n - 1);
      OccurrencesEmptyIff(text, table[n - 1].key, 0);
      assert |PhraseMatches(table, text, n - 1)| == |Occurrences(text, table[n - 1].key, 0)|;
    }
  }

  /** The key matches at offset i exactly when it fits there and agrees character by character up to case. */
  lemma MatchesAtIff(text: string, key: string, i: nat)
    ensures MatchesAt(text, key, i) <==>
      i + |key| <= |text| && forall k :: 0 <= k < |key| ==> LowerChar(text[i + k]) == LowerChar(key[k])
  {
    if i + |key| <= |text| {
      LowerAt(text[i..i + |key|]);
      LowerAt(key);
      if forall k :: 0 <= k < |key| ==> LowerChar(text[i + k]) == LowerChar(key[k]) {
        assert Lower(text[i..i + |key|]) == Lower(key);
      }
    }
  }

  /**
   * A key holding a character that no character of the text lower-cases to
   * never occurs in the text.
   */
  lemma AbsentCharSilent(text: string, key: string, absent: string)
    requires |key| > 0
    requires exists c :: c in key && LowerChar(c) in absent
    requires forall x :: x in text ==> LowerChar(x) !in absent
    ensures Occurrences(text, key, 0) == []
  {
    var c :| c in key && LowerChar(c) in absent;
    var k :| 0 <= k < |key| && key[k] == c;
    forall j: nat | 0 <= j
      ensures !MatchesAt(text, key, j)
    {
      MatchesAtIff(text, key, j);
      if j + |key| <= |text| {
        assert text[j + k] in text;
      }
    }
    OccurrencesEmptyIff(text, key, 0);
  }

  /**
   * A key that matches at s, nowhere before s, and is too long to fit again
   * after s, is reported exactly once, at s.
   */
  lemma SoleOccurrence(text: string, key: string, s: nat)
    requires |key| > 0 && MatchesAt(text, key, s)
    requires forall j: nat :: j < s ==> !MatchesAt(text, key, j)
    requires |text| < s + 2 * |key|
    ensures Occurrences(text, key, 0) == [s]
  {
    NextMatchStep(text, key, 0);
  }

  /** A key cannot match before offset s when its first character, in either case, does not occur there. */
  lemma NoMatchBefore(text: string, key: string, s: nat)
    requires |key| > 0 && s <= |text|
    requires forall x :: x in text[..s] ==> LowerChar(x) != LowerChar(key[0])
    ensures forall j: nat :: j < s ==> !MatchesAt(text, key, j)
  {
    forall j: nat | j < s
      ensures !MatchesAt(text, key, j)
    {
      MatchesAtIff(text, key, j);
      assert text[j] == text[..s][j];
    }
  }

  /** Phrases whose keys occur nowhere add no match records. */
  lemma {:induction false} QuietRange(table: seq<Phrase>, text: string, lo: nat, hi: nat)
    requires ValidTable(table) && lo <= hi <= |table|
    requires forall u :: lo <= u < hi ==> Occurrences(text, table[u].key, 0) == []
    ensures MatchesUpTo(table, text, hi) == MatchesUpTo(table, text, lo)
  {
    if lo < hi {
      QuietRange(table, text, lo, hi - 1);
      assert PhraseMatches(table, text, hi - 1) == [];
    }
  }

  /** Past a run of phrases that occur nowhere, phrase t adds its records. */
  lemma QuietThenOne(table: seq<Phrase>, text: string, lo: nat, t: nat)
    requires ValidTable(table) && lo <= t < |table|
    requires forall u :: lo <= u < t ==> Occurrences(text, table[u].key, 0) == []
    ensures MatchesUpTo(table, text, t + 1) == MatchesUpTo(table, text, lo) + PhraseMatches(table, text, t)
  {
    QuietRange(table, text, lo, t);
  }

  /** When only phrase t occurs, the collection is that phrase's records. */
  lemma OnlyPhrase(table: seq<Phrase>, text: string, t: nat)
    requires ValidTable(table) && t < |table|
    requires forall u :: 0 <= u < |table| && u != t ==> Occurrences(text, table[u].key, 0) == []
    ensures MatchesUpTo(table, text, |table|) == PhraseMatches(table, text, t)
  {
    QuietRange(table, text, 0, t);
    QuietRange(table, text, t + 1, |table|);
  }

  /** When only phrases a and b occur, a before b in the table, the collection is a's records then b's. */
  lemma OnlyTwoPhrases(table: seq<Phrase>, text: string, a: nat, b: nat)
    requires ValidTable(table) && a < b < |table|
    requires forall u :: 0 <= u < |table| && u != a && u != b ==> Occurrences(text, table[u].key, 0) == []
    ensures MatchesUpTo(table, text, |table|) == PhraseMatches(table, text, a) + PhraseMatches(table, text, b)
  {
    QuietThenOne(table, text, 0, a);
    assert MatchesUpTo(table, text, 0) == [];
    var pa := PhraseMatches(table, text, a);
    assert MatchesUpTo(table, text, a + 1) == pa;
    QuietThenOne(table, text, a + 1, b);
    assert MatchesUpTo(table, text, b + 1) == pa + PhraseMatches(table, text, b);
    QuietRange(table, text, b + 1, |table|);
  }

  /** A phrase reported at one offset only yields one record, for that offset. */
  lemma SinglePhraseMatch(table: seq<Phrase>, text: string, t: nat, s: nat)
    requires ValidTable(table) && t < |table|
    requires Occurrences(text, table[t].key, 0) == [s]
    ensures s + |table[t].key| <= |text|
    ensures PhraseMatches(table, text, t)
      == [Match(s, s + |table[t].key|, text[s..s + |table[t].key|], table[t].replacement)]
  {
    OccurrencesSound(text, table[t].key, 0);
    ToMatchesAt(text, table[t], [s], 0);
  }

  /** Start offsets never decrease along the sequence. */
  predicate SortedByStart(ms: seq<Match>)
  {
    forall i, j :: 0 <= i < j < |ms| ==> ms[i].start <= ms[j].start
  }

  /** The matches that start at offset p, in their order in the sequence. */
  function StartingAt(ms: seq<Match>, p: nat): seq<Match>
  {
    if ms == [] then []
    else (if ms[0].start == p then [ms[0]] else []) + StartingAt(ms[1..], p)
  }

  /** Insert m before the first match that starts no earlier than it. */
  function InsertByStart(m: Match, ms: seq<Match>): seq<Match>
  {
    if ms == [] || m.start <= ms[0].start then [m] + ms
    else [ms[0]] + InsertByStart(m, ms[1..])
  }

  /** Inserting adds exactly m. */
  lemma {:induction false} InsertPermutes(m: Match, ms: seq<Match>)
    ensures multiset(InsertByStart(m, ms)) == multiset(ms) + multiset{m}
  {
    if !(ms == [] || m.start <= ms[0].start) {
      InsertPermutes(m, ms[1..]);
      assert ms == [ms[0]] + ms[1..];
    }
  }

  /** A lower bound on every start survives inserting a match above it. */
  lemma {:induction false} InsertBounded(m: Match, ms: seq<Match>, b: nat)
    requires b <= m.start && forall i :: 0 <= i < |ms| ==> b <= ms[i].start
    ensures forall i :: 0 <= i < |InsertByStart(m, ms)| ==> b <= InsertByStart(m, ms)[i].start
  {
    if !(ms == [] || m.start <= ms[0].start) {
      InsertBounded(m, ms[1..], b);
    }
  }

  /** Inserting into a sorted sequence keeps it sorted. */
  lemma {:induction false} InsertSorted(m: Match, ms: seq<Match>)
    requires SortedByStart(ms)
    ensures SortedByStart(InsertByStart(m, ms))
  {
    if !(ms == [] || m.start <= ms[0].start) {
      var rest := InsertByStart(m, ms[1..]);
      InsertSorted(m, ms[1..]);
      InsertBounded(m, ms[1..], ms[0].start);
      var r := [ms[0]] + rest;
      forall i, j | 0 <= i < j < |r|
        ensures r[i].start <= r[j].start
      {
        assert r[j] == rest[j - 1];
        if i > 0 {
          assert r[i] == rest[i - 1];
        }
      }
    }
  }

  /** Prepending one match adds it to the matches at its own start only. */
  lemma StartingAtCons(x: Match, ms: seq<Match>, p: nat)
    ensures StartingAt([x] + ms, p) == (if x.start == p then [x] else []) + StartingAt(ms, p)
  {
    assert ([x] + ms)[1..] == ms;
  }

  /** Inserting m puts it first among the matches that share its start. */
  lemma {:induction false} InsertStable(m: Match, ms: seq<Match>, p: nat)
    ensures StartingAt(InsertByStart(m, ms), p)
      == if m.start == p then [m] + StartingAt(ms, p) else StartingAt(ms, p)
  {
    StartingAtCons(m, ms, p);
    if !(ms == [] || m.start <= ms[0].start) {
      InsertStable(m, ms[1..], p);
      StartingAtCons(ms[0], InsertByStart(m, ms[1..]), p);
      StartingAtCons(ms[0], ms[1..], p);
      assert ms == [ms[0]] + ms[1..];
    }
  }

  /**
   * `allMatches.sort((a, b) => a.start - b.start)`: a stable sort by start
   * offset, whose starts never decrease. That it is a permutation and keeps
   * the order of matches sharing a start is `SortPermutes` and `SortStable`.
   */
  function SortByStart(ms: seq<Match>): (r: seq<Match>)
    ensures SortedByStart(r)
  {
    if ms == [] then []
    else
      var rest := SortByStart(ms[1..]);
      InsertSorted(ms[0], rest);
      InsertByStart(ms[0], rest)
  }

  /** Sorting neither loses nor invents a match. */
  lemma {:induction false} SortPermutes(ms: seq<Match>)
    ensures multiset(SortByStart(ms)) == multiset(ms)
  {
    if ms != [] {
      SortPermutes(ms[1..]);
      InsertPermutes(ms[0], SortByStart(ms[1..]));
      assert ms == [ms[0]] + ms[1..];
    }
  }

  /** Matches sharing a start keep their relative order: the sort is stable. */
  lemma {:induction false} SortStable(ms: seq<Match>, p: nat)
    ensures StartingAt(SortByStart(ms), p) == StartingAt(ms, p)
  {
    if ms != [] {
      SortStable(ms[1..], p);
      InsertStable(ms[0], SortByStart(ms[1..]), p);
      StartingAtCons(ms[0], ms[1..], p);
      assert ms == [ms[0]] + ms[1..];
    }
  }

  /** The sorted matches of a text: what the splice loops walk through. */
  function Discovered(text: string): (r: seq<Match>)
    ensures forall m :: m in r ==> m.start < m.end <= |text|
  {
    DiscoveredSound(text);
    SortByStart(AllMatches(text))
  }

  /** The sorted matches are exactly the discovered ones, each of them sound. */
  lemma DiscoveredSound(text: string)
    ensures multiset(SortByStart(AllMatches(text))) == multiset(AllMatches(text))
    ensures forall m :: m in SortByStart(AllMatches(text)) ==> Sound(Table, text, m)
  {
    var r := SortByStart(AllMatches(text));
    SortPermutes(AllMatches(text));
    TableWellFormed();
    MatchesUpToSound(Table, text, |Table|);
    assert forall m :: m in r ==> m in multiset(AllMatches(text));
  }
}
