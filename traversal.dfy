/**
 * The depth-first walks, as functions from a node to what takes its place
 * among its siblings and how much each counter grows: the replacing walk
 * `replaceInNode` and the excluded-content walk `countSkippedInNode`.
 */
module Traversal {
  import opened Dom
  import opened Phrases
  import opened Matching
  import opened Splice
  import opened Exclusion

  /** The nodes that take a node's place, and how much each counter grows. */
  datatype Rewrite = Rewrite(nodes: seq<Node>, replaced: nat, skipped: nat)

  /** Two walks one after the other: pieces in order, counts added. */
  function Join(a: Rewrite, b: Rewrite): Rewrite
  {
    Rewrite(a.nodes + b.nodes, a.replaced + b.replaced, a.skipped + b.skipped)
  }

  /**
   * What takes a text node's place: the node itself when no phrase occurs in
   * it (the early return), otherwise the splice of its sorted matches.
   */
  function RewriteText(s: string, path: Path): seq<Node>
  {
    if AllMatches(s) == [] then [Text(s)]
    else
      var ms := Discovered(s);
      assert InBounds(s, ms);
      Spliced(s, ms, 0, path)
  }

  /** A text node with a single match becomes the gap before it, its span, and the rest of the text. */
  lemma RewriteTextSingle(s: string, m: Match, path: Path)
    requires AllMatches(s) == [m]
    ensures m.start <= |s| && m.end <= |s|
    ensures RewriteText(s, path) == Gap(s, m, 0) + [Span(m, path)] + (if m.end < |s| then [Text(s[m.end..])] else [])
  {
    assert SortByStart([m]) == InsertByStart(m, SortByStart([]));
    assert m in Discovered(s);
    SplicedOne(s, m, path);
  }

  /** `countSkippedInNode`: every text node below is decorated and counted as skipped. */
  function CountSkipped(n: Node): (r: Rewrite)
    ensures r.replaced == 0
    ensures n.Element? ==>
              |r.nodes| == 1 && r.nodes[0].Element? && FrameOf(r.nodes[0]) == FrameOf(n)
              && r.nodes[0].attrs == n.attrs
    ensures n.Other? ==> r.nodes == [n]
  {
    match n
    case Text(s) => Rewrite(RewriteText(s, Skipped), 0, |AllMatches(s)|)
    case Element(tag, cls, attrs, cs) =>
      var r := CountSkippedAll(cs);
      Rewrite([Element(tag, cls, attrs, r.nodes)], 0, r.skipped)
    case Other => Rewrite([n], 0, 0)
  }

  /** The excluded-content walk over a snapshot of the children, in order. */
  function CountSkippedAll(cs: seq<Node>): (r: Rewrite)
    ensures r.replaced == 0
  {
    if cs == [] then Rewrite([], 0, 0) else Join(CountSkipped(cs[0]), CountSkippedAll(cs[1..]))
  }

  /**
   * `replaceInNode` on a node whose parents, nearest first, are `ancestors`.
   * A text node is left alone if its parent is excluded, and otherwise
   * rewritten on the active path; an element that is not excluded is walked
   * child by child, an excluded one is handed to the excluded-content walk.
   */
  function ReplaceIn(n: Node, ancestors: seq<Frame>): (r: Rewrite)
    requires n.Text? ==> |ancestors| > 0
    ensures n.Element? ==>
              |r.nodes| == 1 && r.nodes[0].Element? && FrameOf(r.nodes[0]) == FrameOf(n)
              && r.nodes[0].attrs == n.attrs
    ensures n.Other? ==> r == Rewrite([n], 0, 0)
  {
    match n
    case Text(s) =>
      if Excluded(ancestors[0], ancestors[1..]) then Rewrite([n], 0, 0)
      else Rewrite(RewriteText(s, Active), |AllMatches(s)|, 0)
    case Element(tag, cls, attrs, cs) =>
      if Excluded(Frame(tag, cls), ancestors) then CountSkipped(n)
      else
        var r := ReplaceInAll(cs, [Frame(tag, cls)] + ancestors);
        Rewrite([Element(tag, cls, attrs, r.nodes)], r.replaced, r.skipped)
    case Other => Rewrite([n], 0, 0)
  }

  /** The replacing walk over a snapshot of the children of the element heading `ancestors`. */
  function ReplaceInAll(cs: seq<Node>, ancestors: seq<Frame>): Rewrite
    requires |ancestors| > 0
  {
    if cs == [] then Rewrite([], 0, 0) else Join(ReplaceIn(cs[0], ancestors), ReplaceInAll(cs[1..], ancestors))
  }

  /** How many matches the text nodes of a subtree hold in all. */
  function MatchCount(n: Node): nat
  {
    match n
    case Text(s) => |AllMatches(s)|
    case Element(_, _, _, cs) => MatchCountAll(cs)
    case Other => 0
  }

  function MatchCountAll(cs: seq<Node>): nat
  {
    if cs == [] then 0 else MatchCount(cs[0]) + MatchCountAll(cs[1..])
  }

  /** The excluded-content walk counts every match below it as skipped, and nothing as replaced. */
  lemma {:induction false} SkippedCountsAll(n: Node)
    ensures CountSkipped(n).skipped == MatchCount(n)
  {
    match n
    case Text(_) =>
    case Element(_, _, _, cs) => SkippedCountsAllOf(cs);
    case Other =>
  }

  lemma {:induction false} SkippedCountsAllOf(cs: seq<Node>)
    ensures CountSkippedAll(cs).skipped == MatchCountAll(cs)
  {
    if cs != [] {
      SkippedCountsAll(cs[0]);
      SkippedCountsAllOf(cs[1..]);
    }
  }

  /**
   * The walk from an element that is not excluded, or from any element at all,
   * counts every match of its subtree exactly once, either as replaced or as
   * skipped: the re-check of the parent before rewriting a text node never
   * drops a text node reached this way.
   */
  lemma {:induction false} CountsPartition(n: Node, ancestors: seq<Frame>)
    requires n.Element?
    ensures ReplaceIn(n, ancestors).replaced + ReplaceIn(n, ancestors).skipped == MatchCount(n)
  {
    if Excluded(FrameOf(n), ancestors) {
      SkippedCountsAll(n);
    } else {
      CountsPartitionAll(n.children, [FrameOf(n)] + ancestors);
    }
  }

  lemma {:induction false} CountsPartitionAll(cs: seq<Node>, ancestors: seq<Frame>)
    requires |ancestors| > 0 && !Excluded(ancestors[0], ancestors[1..])
    ensures ReplaceInAll(cs, ancestors).replaced + ReplaceInAll(cs, ancestors).skipped == MatchCountAll(cs)
  {
    if cs != [] {
      if cs[0].Element? {
        CountsPartition(cs[0], ancestors);
      }
      CountsPartitionAll(cs[1..], ancestors);
    }
  }

  /** No element of the subtree is excluded, given the parents above it. */
  predicate Clear(n: Node, ancestors: seq<Frame>)
  {
    match n
    case Element(tag, cls, _, cs) =>
      !Excluded(Frame(tag, cls), ancestors) && ClearAll(cs, [Frame(tag, cls)] + ancestors)
    case _ => true
  }

  predicate ClearAll(cs: seq<Node>, ancestors: seq<Frame>)
  {
    cs == [] || (Clear(cs[0], ancestors) && ClearAll(cs[1..], ancestors))
  }

  /**
   * Text reached only through elements that are not excluded is counted only
   * as replaced: nothing is skipped, and every match is replaced.
   */
  lemma {:induction false} ClearOnlyReplaces(n: Node, ancestors: seq<Frame>)
    requires n.Element? && Clear(n, ancestors)
    ensures ReplaceIn(n, ancestors).skipped == 0
    ensures ReplaceIn(n, ancestors).replaced == MatchCount(n)
  {
    ClearOnlyReplacesAll(n.children, [FrameOf(n)] + ancestors);
  }

  lemma {:induction false} ClearOnlyReplacesAll(cs: seq<Node>, ancestors: seq<Frame>)
    requires |ancestors| > 0 && !Excluded(ancestors[0], ancestors[1..]) && ClearAll(cs, ancestors)
    ensures ReplaceInAll(cs, ancestors).skipped == 0
    ensures ReplaceInAll(cs, ancestors).replaced == MatchCountAll(cs)
  {
    if cs != [] {
      if cs[0].Element? {
        ClearOnlyReplaces(cs[0], ancestors);
      }
      ClearOnlyReplacesAll(cs[1..], ancestors);
    }
  }

  /** No two sorted matches of the text overlap. */
  predicate NonOverlapping(ms: seq<Match>)
  {
    forall i, j :: 0 <= i < j < |ms| ==> ms[i].end <= ms[j].start
  }

  /** Sound matches that do not overlap, all at or after `from`, tile the text. */
  lemma {:induction false} TilesWhenDisjoint(text: string, ms: seq<Match>, from: nat)
    requires forall m :: m in ms ==> Sound(Table, text, m) && from <= m.start
    requires NonOverlapping(ms)
    ensures Chained(text, ms, from)
  {
    if ms != [] {
      assert ms[0] in ms;
      forall m | m in ms[1..]
        ensures Sound(Table, text, m) && ms[0].end <= m.start
      {
        var j :| 0 <= j < |ms[1..]| && ms[1..][j] == m;
        assert ms[j + 1] == m;
      }
      TilesWhenDisjoint(text, ms[1..], ms[0].end);
    }
  }

  /**
   * A text node on the excluded path keeps its text exactly when its matches
   * do not overlap; on the active path its tooltips give the original back.
   */
  lemma TextRoundTrips(s: string)
    requires NonOverlapping(Discovered(s))
    ensures Content(RewriteText(s, Skipped)) == s
    ensures Restored(RewriteText(s, Active)) == s
  {
    if AllMatches(s) == [] {
      assert Content([Text(s)]) == s;
      assert Restored([Text(s)]) == s;
    } else {
      var ms := Discovered(s);
      DiscoveredSound(s);
      TilesWhenDisjoint(s, ms, 0);
      SkippedKeepsText(s, ms, 0);
      ActiveRestores(s, ms, 0);
      assert s[0..] == s;
    }
  }

  /** Every text node of the subtree has non-overlapping matches. */
  predicate NoOverlaps(n: Node)
  {
    match n
    case Text(s) => NonOverlapping(Discovered(s))
    case Element(_, _, _, cs) => NoOverlapsAll(cs)
    case Other => true
  }

  predicate NoOverlapsAll(cs: seq<Node>)
  {
    cs == [] || (NoOverlaps(cs[0]) && NoOverlapsAll(cs[1..]))
  }

  /**
   * The excluded-content walk preserves the text of the subtree exactly
   * (matches are decorated, never replaced), when no two matches in one text
   * node overlap.
   */
  lemma {:induction false} SkippedKeepsContent(n: Node)
    requires NoOverlaps(n)
    ensures Content(CountSkipped(n).nodes) == NodeContent(n)
  {
    match n
    case Text(s) => TextRoundTrips(s);
    case Element(tag, cls, attrs, cs) =>
      SkippedKeepsContentAll(cs);
      var e := Element(tag, cls, attrs, CountSkippedAll(cs).nodes);
      assert CountSkipped(n).nodes == [e];
      assert Content([e]) == NodeContent(e) + Content([]);
    case Other =>
      assert Content([n]) == NodeContent(n) + Content([]);
  }

  lemma {:induction false} SkippedKeepsContentAll(cs: seq<Node>)
    requires NoOverlapsAll(cs)
    ensures Content(CountSkippedAll(cs).nodes) == Content(cs)
  {
    if cs != [] {
      SkippedKeepsContent(cs[0]);
      SkippedKeepsContentAll(cs[1..]);
      ContentAppend(CountSkipped(cs[0]).nodes, CountSkippedAll(cs[1..]).nodes);
    }
  }

  /**
   * Under an excluded element, text is never replaced: every match is counted
   * as skipped, none as replaced, and the subtree's text stays as it was when
   * no two matches in one text node overlap.
   */
  lemma ExcludedSubtree(n: Node, ancestors: seq<Frame>)
    requires n.Element? && Excluded(FrameOf(n), ancestors)
    ensures ReplaceIn(n, ancestors).replaced == 0
    ensures ReplaceIn(n, ancestors).skipped == MatchCount(n)
    ensures NoOverlaps(n) ==> Content(ReplaceIn(n, ancestors).nodes) == NodeContent(n)
  {
    SkippedCountsAll(n);
    if NoOverlaps(n) {
      SkippedKeepsContent(n);
    }
  }

  /** A subtree in which no phrase occurs comes back as it was, and no counter moves. */
  lemma {:induction false} Untouched(n: Node, ancestors: seq<Frame>)
    requires n.Text? ==> |ancestors| > 0
    requires MatchCount(n) == 0
    ensures ReplaceIn(n, ancestors) == Rewrite([n], 0, 0)
  {
    match n
    case Text(_) =>
    case Element(tag, cls, attrs, cs) =>
      if Excluded(Frame(tag, cls), ancestors) {
        SkippedUntouched(n);
      } else {
        UntouchedAll(cs, [Frame(tag, cls)] + ancestors);
      }
    case Other =>
  }

  lemma {:induction false} UntouchedAll(cs: seq<Node>, ancestors: seq<Frame>)
    requires |ancestors| > 0 && MatchCountAll(cs) == 0
    ensures ReplaceInAll(cs, ancestors) == Rewrite(cs, 0, 0)
  {
    if cs != [] {
      Untouched(cs[0], ancestors);
      UntouchedAll(cs[1..], ancestors);
      HeadTail(cs);
    }
  }

  /** The excluded-content walk, too, leaves a subtree without matches as it was. */
  lemma {:induction false} SkippedUntouched(n: Node)
    requires MatchCount(n) == 0
    ensures CountSkipped(n) == Rewrite([n], 0, 0)
  {
    match n
    case Text(_) =>
    case Element(_, _, _, cs) => SkippedUntouchedAll(cs);
    case Other =>
  }

  lemma {:induction false} SkippedUntouchedAll(cs: seq<Node>)
    requires MatchCountAll(cs) == 0
    ensures CountSkippedAll(cs) == Rewrite(cs, 0, 0)
  {
    if cs != [] {
      SkippedUntouched(cs[0]);
      SkippedUntouchedAll(cs[1..]);
      HeadTail(cs);
    }
  }

  /**
   * When child i is the only child holding a phrase, the nodes that replace it
   * take its position among its siblings, every other sibling stays as it was,
   * and the counts are child i's alone.
   */
  lemma {:induction false} SiblingsUnchanged(cs: seq<Node>, ancestors: seq<Frame>, i: nat)
    requires |ancestors| > 0 && i < |cs|
    requires forall j :: 0 <= j < |cs| && j != i ==> MatchCount(cs[j]) == 0
    ensures ReplaceInAll(cs, ancestors).nodes == cs[..i] + ReplaceIn(cs[i], ancestors).nodes + cs[i + 1..]
    ensures ReplaceInAll(cs, ancestors).replaced == ReplaceIn(cs[i], ancestors).replaced
    ensures ReplaceInAll(cs, ancestors).skipped == ReplaceIn(cs[i], ancestors).skipped
  {
    ReplaceInAllCons(cs, ancestors);
    var tail := cs[1..];
    if i == 0 {
      forall j | 0 <= j < |tail|
        ensures MatchCount(tail[j]) == 0
      {
        assert tail[j] == cs[j + 1];
      }
      MatchCountAllZero(tail);
      UntouchedAll(tail, ancestors);
      assert cs[..0] == [];
    } else {
      Untouched(cs[0], ancestors);
      forall j | 0 <= j < |tail| && j != i - 1
        ensures MatchCount(tail[j]) == 0
      {
        assert tail[j] == cs[j + 1];
      }
      SiblingsUnchanged(tail, ancestors, i - 1);
      PrependAround(cs, i, ReplaceIn(cs[i], ancestors).nodes);
    }
  }

  lemma CountSkippedAllCons(cs: seq<Node>)
    requires cs != []
    ensures CountSkippedAll(cs) == Join(CountSkipped(cs[0]), CountSkippedAll(cs[1..]))
  {
  }

  lemma HeadTail<T>(cs: seq<T>)
    requires cs != []
    ensures [cs[0]] + cs[1..] == cs
  {
  }

  /** Putting the first element back in front of a middle replacement of the rest. */
  lemma PrependAround<T>(cs: seq<T>, i: nat, ns: seq<T>)
    requires 0 < i < |cs|
    ensures [cs[0]] + (cs[1..][..i - 1] + ns + cs[1..][i - 1 + 1..]) == cs[..i] + ns + cs[i + 1..]
  {
    assert cs[1..][..i - 1] == cs[1..i];
    assert cs[1..][i..] == cs[i + 1..];
    assert [cs[0]] + cs[1..i] == cs[..i];
  }

  lemma ReplaceInAllCons(cs: seq<Node>, ancestors: seq<Frame>)
    requires |ancestors| > 0 && cs != []
    ensures ReplaceInAll(cs, ancestors) == Join(ReplaceIn(cs[0], ancestors), ReplaceInAll(cs[1..], ancestors))
  {
  }

  /** A sequence of children each without matches has none in all. */
  lemma {:induction false} MatchCountAllZero(cs: seq<Node>)
    requires forall j :: 0 <= j < |cs| ==> MatchCount(cs[j]) == 0
    ensures MatchCountAll(cs) == 0
  {
    if cs != [] {
      assert forall j :: 0 <= j < |cs[1..]| ==> cs[1..][j] == cs[j + 1];
      MatchCountAllZero(cs[1..]);
    }
  }
}
