/**
 * The running script: the document body it rewrites and the two counters its
 * closure keeps. The walks rebuild each subtree from the pieces its children
 * turn into, in document order, and bump the counters once per match.
 */
module Replacer {
  import opened Wrappers
  import opened Dom
  import opened Phrases
  import opened Matching
  import opened Splice
  import opened Exclusion
  import opened Traversal

  /** Regrouping the pieces built so far with the pieces of one more child. */
  lemma Regroup<T>(done: seq<T>, step: seq<T>, rest: seq<T>)
    ensures done + (step + rest) == (done + step) + rest
  {
  }

  class Page {
    /** `document.body`, absent while the document has none. */
    var body: Option<Node>
    /** The elements above the body, nearest first (the root element). */
    const bodyAncestors: seq<Frame>
    var replacementCount: nat
    var skippedCount: nat

    ghost predicate Valid()
      reads this
    {
      body.Some? ==> body.value.Element?
    }

    constructor (body: Option<Node>, bodyAncestors: seq<Frame>)
      requires body.Some? ==> body.value.Element?
      ensures Valid()
      ensures this.body == body && this.bodyAncestors == bodyAncestors
      ensures replacementCount == 0 && skippedCount == 0
    {
      this.body := body;
      this.bodyAncestors := bodyAncestors;
      replacementCount := 0;
      skippedCount := 0;
    }

    /**
     * The text-node branch shared by both walks: collect every match of every
     * phrase, return the node as it is when there is none, otherwise sort the
     * matches by start and splice them in, counting each span on the counter
     * of the walk.
     */
    method RewriteTextNode(text: string, path: Path) returns (nodes: seq<Node>)
      modifies this`replacementCount, this`skippedCount
      ensures nodes == RewriteText(text, path)
      ensures path == Active ==>
                replacementCount == old(replacementCount) + |AllMatches(text)|
                && skippedCount == old(skippedCount)
      ensures path == Skipped ==>
                skippedCount == old(skippedCount) + |AllMatches(text)|
                && replacementCount == old(replacementCount)
    {
      TableWellFormed();
      var allMatches := FindMatches(Table, text);
      if |allMatches| == 0 {
        return [Text(text)];
      }
      var ms := SortByStart(allMatches);
      SortPermutes(allMatches);
      assert |ms| == |multiset(ms)| == |allMatches|;
      assert ms == Discovered(text);
      nodes := SpliceIn(text, ms, path);
    }

    /**
     * The splice loop: for each sorted match, the text between the cursor and
     * the match if the cursor is behind it, then the match's span; the cursor
     * moves to the match's end; after the last match, the rest of the text.
     */
    method SpliceIn(text: string, ms: seq<Match>, path: Path) returns (nodes: seq<Node>)
      requires InBounds(text, ms)
      modifies this`replacementCount, this`skippedCount
      ensures nodes == Spliced(text, ms, 0, path)
      ensures path == Active ==>
                replacementCount == old(replacementCount) + |ms| && skippedCount == old(skippedCount)
      ensures path == Skipped ==>
                skippedCount == old(skippedCount) + |ms| && replacementCount == old(replacementCount)
    {
      nodes := [];
      var lastIndex: nat := 0;
      var i := 0;
      while i < |ms|
        invariant 0 <= i <= |ms| && lastIndex <= |text|
        invariant nodes + Spliced(text, ms[i..], lastIndex, path) == Spliced(text, ms, 0, path)
        invariant replacementCount == old(replacementCount) + (if path == Active then i else 0)
        invariant skippedCount == old(skippedCount) + (if path == Skipped then i else 0)
      {
        var m := ms[i];
        SpliceAdvance(text, ms, i, lastIndex, nodes, path);
        if m.start > lastIndex {
          nodes := nodes + [Text(text[lastIndex..m.start])];
        }
        nodes := nodes + [Span(m, path)];
        lastIndex := m.end;
        CountOne(path);
        i := i + 1;
      }
      SpliceFinish(text, ms, lastIndex, nodes, path);
      if lastIndex < |text| {
        nodes := nodes + [Text(text[lastIndex..])];
      }
    }

    /** One more span: `replacementCount++` on the active path, `skippedCount++` on the excluded one. */
    method CountOne(path: Path)
      modifies this`replacementCount, this`skippedCount
      ensures replacementCount == old(replacementCount) + (if path == Active then 1 else 0)
      ensures skippedCount == old(skippedCount) + (if path == Skipped then 1 else 0)
    {
      if path == Active {
        replacementCount := replacementCount + 1;
      } else {
        skippedCount := skippedCount + 1;
      }
    }

    /** `countSkippedInNode`: decorate and count every match below an excluded element. */
    method CountSkippedInNode(n: Node) returns (nodes: seq<Node>)
      modifies this`replacementCount, this`skippedCount
      ensures nodes == CountSkipped(n).nodes
      ensures skippedCount == old(skippedCount) + CountSkipped(n).skipped
      ensures replacementCount == old(replacementCount)
      decreases n, 1
    {
      match n
      case Text(s) =>
        nodes := RewriteTextNode(s, Skipped);
      case Element(tag, cls, attrs, cs) =>
        var rebuilt := CountSkippedInChildren(n);
        nodes := [Element(tag, cls, attrs, rebuilt)];
      case Other =>
        nodes := [n];
    }

    /** The excluded-content walk over a snapshot of an element's children, in order. */
    method CountSkippedInChildren(n: Node) returns (rebuilt: seq<Node>)
      requires n.Element?
      modifies this`replacementCount, this`skippedCount
      ensures rebuilt == CountSkippedAll(n.children).nodes
      ensures skippedCount == old(skippedCount) + CountSkippedAll(n.children).skipped
      ensures replacementCount == old(replacementCount)
      decreases n, 0
    {
      var children := n.children;
      rebuilt := [];
      var i := 0;
      while i < |children|
        invariant 0 <= i <= |children|
        invariant rebuilt + CountSkippedAll(children[i..]).nodes == CountSkippedAll(children).nodes
        invariant skippedCount + CountSkippedAll(children[i..]).skipped
                  == old(skippedCount) + CountSkippedAll(children).skipped
        invariant replacementCount == old(replacementCount)
      {
        CountSkippedAllCons(children[i..]);
        assert children[i..][1..] == children[i + 1..];
        var pieces := CountSkippedInNode(children[i]);
        Regroup(rebuilt, pieces, CountSkippedAll(children[i + 1..]).nodes);
        rebuilt := rebuilt + pieces;
        i := i + 1;
      }
      assert children[i..] == [];
    }

    /**
     * `replaceInNode` for a node whose parents, nearest first, are
     * `ancestors`: rewrite a text node unless its parent is excluded, walk the
     * children of an element that is not excluded, and hand an excluded one to
     * `CountSkippedInNode`.
     */
    method ReplaceInNode(n: Node, ancestors: seq<Frame>) returns (nodes: seq<Node>)
      requires n.Text? ==> |ancestors| > 0
      modifies this`replacementCount, this`skippedCount
      ensures nodes == ReplaceIn(n, ancestors).nodes
      ensures replacementCount == old(replacementCount) + ReplaceIn(n, ancestors).replaced
      ensures skippedCount == old(skippedCount) + ReplaceIn(n, ancestors).skipped
      decreases n, 1
    {
      match n
      case Text(s) =>
        var parentExcluded := IsExcluded(ancestors[0], ancestors[1..]);
        if parentExcluded {
          return [n];
        }
        nodes := RewriteTextNode(s, Active);
      case Element(tag, cls, attrs, cs) =>
        var excluded := IsExcluded(Frame(tag, cls), ancestors);
        if excluded {
          nodes := CountSkippedInNode(n);
        } else {
          var rebuilt := ReplaceInChildren(n, [Frame(tag, cls)] + ancestors);
          nodes := [Element(tag, cls, attrs, rebuilt)];
        }
      case Other =>
        nodes := [n];
    }

    /** The replacing walk over a snapshot of the children of the element heading `chain`. */
    method ReplaceInChildren(n: Node, chain: seq<Frame>) returns (rebuilt: seq<Node>)
      requires n.Element? && |chain| > 0
      modifies this`replacementCount, this`skippedCount
      ensures rebuilt == ReplaceInAll(n.children, chain).nodes
      ensures replacementCount == old(replacementCount) + ReplaceInAll(n.children, chain).replaced
      ensures skippedCount == old(skippedCount) + ReplaceInAll(n.children, chain).skipped
      decreases n, 0
    {
      var children := n.children;
      rebuilt := [];
      var i := 0;
      while i < |children|
        invariant 0 <= i <= |children|
        invariant rebuilt + ReplaceInAll(children[i..], chain).nodes == ReplaceInAll(children, chain).nodes
        invariant replacementCount + ReplaceInAll(children[i..], chain).replaced
                  == old(replacementCount) + ReplaceInAll(children, chain).replaced
        invariant skippedCount + ReplaceInAll(children[i..], chain).skipped
                  == old(skippedCount) + ReplaceInAll(children, chain).skipped
      {
        ReplaceInAllCons(children[i..], chain);
        assert children[i..][1..] == children[i + 1..];
        var pieces := ReplaceInNode(children[i], chain);
        Regroup(rebuilt, pieces, ReplaceInAll(children[i + 1..], chain).nodes);
        rebuilt := rebuilt + pieces;
        i := i + 1;
      }
      assert children[i..] == [];
    }

    /**
     * `replaceDoubleNegatives`: reset both counters, then walk the body if
     * there is one. Every match in the body ends up counted exactly once, as
     * replaced or as skipped, and the body keeps its tag and attributes.
     */
    method ReplaceDoubleNegatives()
      requires Valid()
      modifies this
      ensures Valid()
      ensures old(body).None? ==> body.None? && replacementCount == 0 && skippedCount == 0
      ensures old(body).Some? ==>
                var r := ReplaceIn(old(body).value, bodyAncestors);
                && body == Some(r.nodes[0])
                && replacementCount == r.replaced
                && skippedCount == r.skipped
      ensures old(body).Some? ==>
                replacementCount + skippedCount == MatchCount(old(body).value)
                && FrameOf(body.value) == FrameOf(old(body).value)
                && body.value.attrs == old(body).value.attrs
    {
      replacementCount := 0;
      skippedCount := 0;
      if body.Some? {
        var b := body.value;
        CountsPartition(b, bodyAncestors);
        var nodes := ReplaceInNode(b, bodyAncestors);
        body := Some(nodes[0]);
      }
    }
  }
}
