/**
 * The splice: the text node is cut into plain pieces and one marker span per
 * match, walking the sorted matches with a `lastIndex` cursor. The active path
 * shows the replacement with the original in a tooltip; the excluded path
 * shows the original, underlined.
 */
module Splice {
  import opened Wrappers
  import opened Dom
  import opened Matching

  /** Which walk reached the text node: the replacing walk or the excluded-content walk. */
  datatype Path = Active | Skipped

  /** Inline style of a replacement span (an opaque constant). */
  const ActiveStyle := "background-color: #F5F1E1; font-weight: bold; padding: 2px 4px; border-radius: 3px; cursor: help;"
  /** Inline style of an underlined span on excluded content (an opaque constant). */
  const SkippedStyle := "text-decoration-line: underline; text-decoration-color: #FAA754; text-decoration-style: wavy;"
  const TitlePrefix := "Original text: '"

  /**
   * The tooltip of a replacement span. It keeps the original text recoverable,
   * whatever its characters: `TitleOriginal` reads it back.
   */
  function Title(original: string): (r: string)
    ensures TitleOriginal(r) == Some(original)
  {
    var t := TitlePrefix + original + "'";
    assert t[..|TitlePrefix|] == TitlePrefix;
    assert t[|TitlePrefix|..|t| - 1] == original;
    t
  }

  /** Reads the original text back out of a tooltip, if it has the tooltip's shape. */
  function TitleOriginal(title: string): Option<string>
  {
    if |title| > |TitlePrefix| && title[..|TitlePrefix|] == TitlePrefix && title[|title| - 1] == '\''
    then Some(title[|TitlePrefix|..|title| - 1])
    else None
  }

  /** `span.textContent = s`: one text child, or none for the empty string. */
  function TextChildren(s: string): seq<Node>
  {
    if s == "" then [] else [Text(s)]
  }

  /**
   * The marker span created for one match on the given path: a `span` showing
   * the replacement, with the original in its tooltip, on the active path; a
   * `span` showing the original, without a tooltip, on the excluded one.
   */
  function Span(m: Match, path: Path): (r: Node)
    ensures r.Element? && r.tag == "span"
    ensures r.children == TextChildren(if path == Active then m.replacement else m.original)
    ensures path == Active ==> "title" in r.attrs && r.attrs["title"] == Title(m.original)
    ensures path == Skipped ==> "title" !in r.attrs
  {
    match path
    case Active =>
      Element("span", StrClass(""), map["title" := Title(m.original), "style" := ActiveStyle], TextChildren(m.replacement))
    case Skipped =>
      Element("span", StrClass(""), map["style" := SkippedStyle], TextChildren(m.original))
  }

  /** Every match starts and ends inside the text. */
  predicate InBounds(text: string, ms: seq<Match>)
  {
    forall m :: m in ms ==> m.start <= |text| && m.end <= |text|
  }

  /** The piece of text before a match, if the cursor is still behind it. */
  function Gap(text: string, m: Match, from: nat): seq<Node>
    requires from <= |text| && m.start <= |text|
  {
    if m.start > from then [Text(text[from..m.start])] else []
  }

  /**
   * The pieces the splice loop appends to the fragment, the cursor standing at
   * `from`: for each match, the text between the cursor and the match if that
   * is non-empty, then the match's span, the cursor moving to the match's end;
   * finally what is left after the cursor, if anything.
   */
  function Spliced(text: string, ms: seq<Match>, from: nat, path: Path): seq<Node>
    requires InBounds(text, ms) && from <= |text|
  {
    if ms == [] then
      if from < |text| then [Text(text[from..])] else []
    else
      assert ms[0] in ms;
      Gap(text, ms[0], from) + [Span(ms[0], path)] + Spliced(text, ms[1..], ms[0].end, path)
  }

  /** One step of the splice: the first match's gap and span, then the rest. */
  lemma SplicedStep(text: string, ms: seq<Match>, from: nat, path: Path)
    requires InBounds(text, ms) && from <= |text| && ms != []
    ensures ms[0].start <= |text| && ms[0].end <= |text| && InBounds(text, ms[1..])
    ensures Spliced(text, ms, from, path)
      == Gap(text, ms[0], from) + [Span(ms[0], path)] + Spliced(text, ms[1..], ms[0].end, path)
  {
    assert ms[0] in ms;
  }

  /** A single match: the gap before it, its span, and the rest of the text after it, if any. */
  lemma SplicedOne(text: string, m: Match, path: Path)
    requires m.start <= |text| && m.end <= |text|
    ensures InBounds(text, [m])
    ensures Spliced(text, [m], 0, path)
      == Gap(text, m, 0) + [Span(m, path)] + (if m.end < |text| then [Text(text[m.end..])] else [])
  {
    assert [m][1..] == [];
    SplicedStep(text, [m], 0, path);
  }

  /**
   * The splice loop's invariant survives one match: the pieces built so far,
   * the gap and the span, then the splice of the remaining matches from the
   * match's end, make up the whole splice.
   */
  lemma SpliceAdvance(text: string, ms: seq<Match>, i: nat, from: nat, done: seq<Node>, path: Path)
    requires InBounds(text, ms) && from <= |text| && i < |ms|
    requires done + Spliced(text, ms[i..], from, path) == Spliced(text, ms, 0, path)
    ensures ms[i].start <= |text| && ms[i].end <= |text|
    ensures ms[i].start > from ==>
      (done + [Text(text[from..ms[i].start])] + [Span(ms[i], path)]) + Spliced(text, ms[i + 1..], ms[i].end, path)
      == Spliced(text, ms, 0, path)
    ensures ms[i].start <= from ==>
      (done + [Span(ms[i], path)]) + Spliced(text, ms[i + 1..], ms[i].end, path) == Spliced(text, ms, 0, path)
  {
    var tail := ms[i..];
    assert tail[0] == ms[i] && tail[1..] == ms[i + 1..];
    assert InBounds(text, tail) by {
      forall m | m in tail
        ensures m.start <= |text| && m.end <= |text|
      {
        assert m in ms;
      }
    }
    SplicedStep(text, tail, from, path);
    var g, sp, rest := Gap(text, ms[i], from), [Span(ms[i], path)], Spliced(text, ms[i + 1..], ms[i].end, path);
    Regroup3(done, g, sp, rest);
    if ms[i].start <= from {
      assert done + g == done;
    }
  }

  /** Regrouping the pieces built so far with one more gap, span and rest. */
  lemma Regroup3<T>(done: seq<T>, g: seq<T>, sp: seq<T>, rest: seq<T>)
    ensures done + (g + sp + rest) == (done + g + sp) + rest
  {
  }

  /** The splice loop ends with the rest of the text after the last match, if any. */
  lemma SpliceFinish(text: string, ms: seq<Match>, from: nat, done: seq<Node>, path: Path)
    requires InBounds(text, ms) && from <= |text|
    requires done + Spliced(text, ms[|ms|..], from, path) == Spliced(text, ms, 0, path)
    ensures done + (if from < |text| then [Text(text[from..])] else []) == Spliced(text, ms, 0, path)
  {
    assert ms[|ms|..] == [];
  }

  /** The marker spans among the pieces, in order. */
  function Spans(ns: seq<Node>): seq<Node>
  {
    if ns == [] then []
    else (if ns[0].Text? then [] else [ns[0]]) + Spans(ns[1..])
  }

  lemma SpansAppend(a: seq<Node>, b: seq<Node>)
    ensures Spans(a + b) == Spans(a) + Spans(b)
  {
    if a == [] {
      assert a + b == b;
    } else {
      assert (a + b)[0] == a[0];
      assert (a + b)[1..] == a[1..] + b;
      SpansAppend(a[1..], b);
    }
  }

  /**
   * Plain pieces are emitted only when non-empty, and every piece is either
   * plain text or a span.
   */
  lemma {:induction false} PlainPiecesNonEmpty(text: string, ms: seq<Match>, from: nat, path: Path)
    requires InBounds(text, ms) && from <= |text|
    ensures forall k :: 0 <= k < |Spliced(text, ms, from, path)| ==>
      var n := Spliced(text, ms, from, path)[k];
      (n.Text? && n.s != "") || n.Element?
  {
    if ms != [] {
      PlainPiecesNonEmpty(text, ms[1..], ms[0].end, path);
    }
  }

  /** A gap holds no span, and a span is its own only span. */
  lemma GapSpans(text: string, m: Match, from: nat, path: Path)
    requires from <= |text| && m.start <= |text|
    ensures Spans(Gap(text, m, from)) == []
    ensures Spans([Span(m, path)]) == [Span(m, path)]
  {
    assert [Span(m, path)][1..] == [];
  }

  /**
   * One span per match, in match order, overlapping or not: span k is the span
   * of match k, showing its replacement (active path) or its original text
   * (excluded path).
   */
  lemma {:induction false} SpanPerMatch(text: string, ms: seq<Match>, from: nat, path: Path)
    requires InBounds(text, ms) && from <= |text|
    ensures |Spans(Spliced(text, ms, from, path))| == |ms|
    ensures forall k :: 0 <= k < |ms| ==> Spans(Spliced(text, ms, from, path))[k] == Span(ms[k], path)
  {
    if ms != [] {
      var m := ms[0];
      var gap, span := Gap(text, m, from), [Span(m, path)];
      var rest := Spliced(text, ms[1..], m.end, path);
      SplicedStep(text, ms, from, path);
      SpanPerMatch(text, ms[1..], m.end, path);
      SpansAppend(gap + span, rest);
      SpansAppend(gap, span);
      GapSpans(text, m, from, path);
      var sr := Spans(rest);
      assert Spans(Spliced(text, ms, from, path)) == span + sr;
      forall k | 0 <= k < |ms|
        ensures (span + sr)[k] == Span(ms[k], path)
      {
        if k > 0 {
          assert ms[1..][k - 1] == ms[k];
        }
      }
    }
  }

  /** Both paths emit the same plain pieces in the same places; they differ only in the spans. */
  lemma {:induction false} PathsAgreeOnGaps(text: string, ms: seq<Match>, from: nat)
    requires InBounds(text, ms) && from <= |text|
    ensures |Spliced(text, ms, from, Active)| == |Spliced(text, ms, from, Skipped)|
    ensures forall k :: 0 <= k < |Spliced(text, ms, from, Active)| ==>
      (Spliced(text, ms, from, Active)[k].Text? <==> Spliced(text, ms, from, Skipped)[k].Text?) &&
      (Spliced(text, ms, from, Active)[k].Text? ==> Spliced(text, ms, from, Active)[k] == Spliced(text, ms, from, Skipped)[k])
  {
    if ms != [] {
      PathsAgreeOnGaps(text, ms[1..], ms[0].end);
    }
  }

  /**
   * The matches tile the text from `from` on: each starts at or after the end
   * of the one before, lies inside the text, and records the text's own
   * characters as its original.
   */
  predicate Chained(text: string, ms: seq<Match>, from: nat)
  {
    ms == [] ||
    (&& from <= ms[0].start <= ms[0].end <= |text|
     && ms[0].original == text[ms[0].start..ms[0].end]
     && Chained(text, ms[1..], ms[0].end))
  }

  /** A slice of the text splits at two inner offsets. */
  lemma SliceSplit(text: string, i: nat, j: nat, k: nat)
    requires i <= j <= k <= |text|
    ensures text[i..] == text[i..j] + text[j..k] + text[k..]
  {
  }

  /** The text content of a gap is the text between the cursor and the match. */
  lemma GapContent(text: string, m: Match, from: nat)
    requires from <= |text| && m.start <= |text|
    ensures Content(Gap(text, m, from)) == if m.start > from then text[from..m.start] else ""
  {
    if m.start > from {
      assert Content([Text(text[from..m.start])]) == text[from..m.start] + Content([]);
    }
  }

  /** The text content of an underlined span is the match's original text. */
  lemma SkippedSpanContent(m: Match)
    ensures Content([Span(m, Skipped)]) == m.original
  {
    assert Content(TextChildren(m.original)) == m.original;
    assert Content([Span(m, Skipped)]) == NodeContent(Span(m, Skipped)) + Content([]);
  }

  /**
   * On the excluded path, when no two matches overlap, the pieces' text is the
   * original text exactly: plain pieces and underlined originals in order.
   */
  lemma {:induction false} SkippedKeepsText(text: string, ms: seq<Match>, from: nat)
    requires InBounds(text, ms) && from <= |text| && Chained(text, ms, from)
    ensures Content(Spliced(text, ms, from, Skipped)) == text[from..]
  {
    if ms == [] {
      if from < |text| {
        assert Content([Text(text[from..])]) == text[from..];
      }
    } else {
      var m := ms[0];
      var gap, span := Gap(text, m, from), [Span(m, Skipped)];
      var rest := Spliced(text, ms[1..], m.end, Skipped);
      SplicedStep(text, ms, from, Skipped);
      SkippedKeepsText(text, ms[1..], m.end);
      ContentAppend(gap + span, rest);
      ContentAppend(gap, span);
      SkippedSpanContent(m);
      GapContent(text, m, from);
      SliceSplit(text, from, m.start, m.end);
    }
  }

  /**
   * What a reader recovers from the pieces: plain text as it stands, and for a
   * span with a tooltip, the original text the tooltip carries.
   */
  function Restored(ns: seq<Node>): string
  {
    if ns == [] then "" else RestoredPiece(ns[0]) + Restored(ns[1..])
  }

  function RestoredPiece(n: Node): string
  {
    match n
    case Text(s) => s
    case Element(_, _, attrs, cs) =>
      if "title" in attrs && TitleOriginal(attrs["title"]).Some? then TitleOriginal(attrs["title"]).value
      else Content(cs)
    case Other => ""
  }

  lemma RestoredAppend(a: seq<Node>, b: seq<Node>)
    ensures Restored(a + b) == Restored(a) + Restored(b)
  {
    if a == [] {
      assert a + b == b;
    } else {
      assert (a + b)[0] == a[0];
      assert (a + b)[1..] == a[1..] + b;
      RestoredAppend(a[1..], b);
    }
  }

  /** A gap restores to the text it holds, and an active span to the original in its tooltip. */
  lemma GapSpanRestored(text: string, m: Match, from: nat)
    requires from <= |text| && m.start <= |text|
    ensures Restored(Gap(text, m, from)) == if m.start > from then text[from..m.start] else ""
    ensures Restored([Span(m, Active)]) == m.original
  {
    if m.start > from {
      assert Restored([Text(text[from..m.start])]) == text[from..m.start] + Restored([]);
    }
    assert RestoredPiece(Span(m, Active)) == m.original;
    assert Restored([Span(m, Active)]) == RestoredPiece(Span(m, Active)) + Restored([]);
  }

  /**
   * On the active path, when no two matches overlap, the gaps are the original
   * text unchanged and each tooltip carries what its span replaced: reading
   * the tooltips back gives the original text exactly.
   */
  lemma {:induction false} ActiveRestores(text: string, ms: seq<Match>, from: nat)
    requires InBounds(text, ms) && from <= |text| && Chained(text, ms, from)
    ensures Restored(Spliced(text, ms, from, Active)) == text[from..]
  {
    if ms == [] {
      if from < |text| {
        assert Restored([Text(text[from..])]) == text[from..];
      }
    } else {
      var m := ms[0];
      var gap, span := Gap(text, m, from), [Span(m, Active)];
      var rest := Spliced(text, ms[1..], m.end, Active);
      SplicedStep(text, ms, from, Active);
      ActiveRestores(text, ms[1..], m.end);
      RestoredAppend(gap + span, rest);
      RestoredAppend(gap, span);
      GapSpanRestored(text, m, from);
      SliceSplit(text, from, m.start, m.end);
    }
  }
}
