/**
 * What a second run does to content the first run marked as excluded. The
 * underlined spans keep the original phrase as their text, so the second
 * run finds every phrase again, wraps it in a new span inside the old one,
 * and counts it as skipped once more: running twice is not the same as
 * running once.
 */
module Rerun {
  import opened Dom
  import opened Strings
  import opened Phrases
  import opened Matching
  import opened Splice
  import opened Exclusion
  import opened Traversal

  /** How many nodes a subtree holds, itself included. */
  function Size(n: Node): nat
  {
    match n
    case Element(_, _, _, cs) => 1 + SizeAll(cs)
    case _ => 1
  }

  function SizeAll(cs: seq<Node>): nat
  {
    if cs == [] then 0 else Size(cs[0]) + SizeAll(cs[1..])
  }

  lemma {:induction false} SizeAllAppend(a: seq<Node>, b: seq<Node>)
    ensures SizeAll(a + b) == SizeAll(a) + SizeAll(b)
  {
    if a == [] {
      assert a + b == b;
    } else {
      assert (a + b)[0] == a[0];
      assert (a + b)[1..] == a[1..] + b;
      SizeAllAppend(a[1..], b);
    }
  }

  lemma {:induction false} MatchCountAllAppend(a: seq<Node>, b: seq<Node>)
    ensures MatchCountAll(a + b) == MatchCountAll(a) + MatchCountAll(b)
  {
    if a == [] {
      assert a + b == b;
    } else {
      assert (a + b)[0] == a[0];
      assert (a + b)[1..] == a[1..] + b;
      MatchCountAllAppend(a[1..], b);
    }
  }

  /** The original text of a sound match is itself an occurrence of a key of the table. */
  lemma SoundOriginalRematches(table: seq<Phrase>, text: string, m: Match)
    requires ValidTable(table) && Sound(table, text, m)
    ensures MatchesUpTo(table, m.original, |table|) != []
  {
    var t :| 0 <= t < |table| && m.end - m.start == |table[t].key|
      && Lower(m.original) == Lower(table[t].key) && m.replacement == table[t].replacement;
    var o := m.original;
    assert o[0..|table[t].key|] == o;
    assert MatchesAt(o, table[t].key, 0);
    NoMatchesIff(table, o, |table|);
  }

  lemma OriginalRematches(text: string, m: Match)
    requires Sound(Table, text, m)
    ensures AllMatches(m.original) != []
  {
    TableWellFormed();
    SoundOriginalRematches(Table, text, m);
  }

  /** A one-node sequence counts what its node counts. */
  lemma Single(x: Node)
    ensures MatchCountAll([x]) == MatchCount(x) && SizeAll([x]) == Size(x)
  {
    assert [x][1..] == [];
  }

  /** One span on the excluded path holds its original text, so one node below it and a match. */
  lemma SkippedSpanCounts(m: Match)
    requires m.original != "" && AllMatches(m.original) != []
    ensures MatchCountAll([Span(m, Skipped)]) >= 1
    ensures SizeAll([Span(m, Skipped)]) == 2
  {
    Single(Span(m, Skipped));
    Single(Text(m.original));
  }

  /**
   * On the excluded path every span still holds a phrase, and holds one
   * text child: the pieces hold at least one match and two nodes per match.
   */
  lemma {:induction false} SplicedSkippedGrows(text: string, ms: seq<Match>, from: nat)
    requires InBounds(text, ms) && from <= |text|
    requires forall m :: m in ms ==> m.original != "" && AllMatches(m.original) != []
    ensures MatchCountAll(Spliced(text, ms, from, Skipped)) >= |ms|
    ensures SizeAll(Spliced(text, ms, from, Skipped)) >= 2 * |ms|
  {
    if ms != [] {
      var m := ms[0];
      assert m in ms;
      var gap := Gap(text, m, from);
      var rest := Spliced(text, ms[1..], m.end, Skipped);
      assert forall x :: x in ms[1..] ==> x in ms;
      SplicedSkippedGrows(text, ms[1..], m.end);
      SkippedSpanCounts(m);
      assert Spliced(text, ms, from, Skipped) == gap + [Span(m, Skipped)] + rest;
      MatchCountAllAppend(gap + [Span(m, Skipped)], rest);
      MatchCountAllAppend(gap, [Span(m, Skipped)]);
      SizeAllAppend(gap + [Span(m, Skipped)], rest);
      SizeAllAppend(gap, [Span(m, Skipped)]);
    }
  }

  /** The excluded path on one text node: at least its matches remain, and the node count grows by them. */
  lemma SkippedTextGrows(s: string)
    ensures MatchCountAll(RewriteText(s, Skipped)) >= |AllMatches(s)|
    ensures SizeAll(RewriteText(s, Skipped)) >= 1 + |AllMatches(s)|
  {
    if AllMatches(s) != [] {
      var ms := Discovered(s);
      DiscoveredSound(s);
      assert |ms| == |multiset(ms)| == |AllMatches(s)|;
      forall m | m in ms
        ensures m.original != "" && AllMatches(m.original) != []
      {
        OriginalRematches(s, m);
      }
      SplicedSkippedGrows(s, ms, 0);
    } else {
      Single(Text(s));
    }
  }

  /**
   * The excluded-content walk leaves at least as many matches as it found,
   * and adds at least one node per match.
   */
  lemma {:induction false} SkippedRematches(n: Node)
    ensures MatchCountAll(CountSkipped(n).nodes) >= MatchCount(n)
    ensures SizeAll(CountSkipped(n).nodes) >= Size(n) + MatchCount(n)
  {
    match n
    case Text(s) =>
      SkippedTextGrows(s);
    case Element(tag, cls, attrs, cs) =>
      SkippedRematchesAll(cs);
      var e := Element(tag, cls, attrs, CountSkippedAll(cs).nodes);
      assert CountSkipped(n).nodes == [e];
      Single(e);
    case Other =>
      Single(n);
  }

  lemma {:induction false} SkippedRematchesAll(cs: seq<Node>)
    ensures MatchCountAll(CountSkippedAll(cs).nodes) >= MatchCountAll(cs)
    ensures SizeAll(CountSkippedAll(cs).nodes) >= SizeAll(cs) + MatchCountAll(cs)
  {
    if cs != [] {
      SkippedRematches(cs[0]);
      SkippedRematchesAll(cs[1..]);
      CountSkippedAllCons(cs);
      MatchCountAllAppend(CountSkipped(cs[0]).nodes, CountSkippedAll(cs[1..]).nodes);
      SizeAllAppend(CountSkipped(cs[0]).nodes, CountSkippedAll(cs[1..]).nodes);
    }
  }

  /**
   * Running the walk a second time over an excluded element that held a
   * phrase skips at least as many matches again, and changes the element:
   * the walk is not idempotent on excluded content.
   */
  lemma ExcludedRerunChanges(n: Node, ancestors: seq<Frame>)
    requires n.Element? && Excluded(FrameOf(n), ancestors) && MatchCount(n) > 0
    ensures var once := ReplaceIn(n, ancestors).nodes[0];
            && ReplaceIn(once, ancestors).skipped >= ReplaceIn(n, ancestors).skipped > 0
            && ReplaceIn(once, ancestors).nodes[0] != once
  {
    var once := ReplaceIn(n, ancestors).nodes[0];
    ExcludedSubtree(n, ancestors);
    SkippedRematches(n);
    assert FrameOf(once) == FrameOf(n);
    ExcludedSubtree(once, ancestors);
    SkippedRematches(once);
    Single(once);
    var twice := ReplaceIn(once, ancestors).nodes;
    assert twice == CountSkipped(once).nodes && twice == [twice[0]];
    Single(twice[0]);
  }
}
