/**
 * The exclusion classifier `isExcluded`: whether an element holds code-like
 * content whose text must be decorated but never replaced. It reads the
 * element's own tag and class, then walks up its parents.
 */
module Exclusion {
  import opened Dom
  import opened Strings

  /** Class markers of syntax-highlighted code; matched as case-sensitive substrings. */
  const CodeClasses: seq<string> := ["code", "syntax", "highlight", "codehilite", "sourceCode", "hljs"]
  /** Class markers of the inline link preview widget. */
  const IntralinkClasses: seq<string> := ["intralink-content", "intralink-content-preview"]
  /** Tags that exclude the element itself. */
  const OwnTags: seq<string> := ["pre", "code", "script", "style"]
  /** The shorter list of tags that exclude an element when one of its parents has them. */
  const ParentTags: seq<string> := ["pre", "code"]

  /** `markers.some(c => s.includes(c))`. */
  predicate HasAny(s: string, markers: seq<string>)
  {
    exists k :: 0 <= k < |markers| && Contains(s, markers[k])
  }

  /** The class attribute is a string holding a code marker or a link-preview marker. */
  predicate MarkedClass(cls: ClassAttr)
  {
    cls.StrClass? && (HasAny(cls.s, CodeClasses) || HasAny(cls.s, IntralinkClasses))
  }

  /** The element excludes itself, by its own lower-cased tag or its class. */
  predicate SelfExcludes(e: Frame)
  {
    Lower(e.tag) in OwnTags || MarkedClass(e.cls)
  }

  /** A parent excludes every element below it, by the shorter tag list or its class. */
  predicate ParentExcludes(p: Frame)
  {
    Lower(p.tag) in ParentTags || MarkedClass(p.cls)
  }

  /**
   * The classifier's answer for an element whose parents, nearest first, are
   * `ancestors`: the element excludes itself, or one of its parents does.
   */
  predicate Excluded(e: Frame, ancestors: seq<Frame>)
  {
    SelfExcludes(e) || exists k :: 0 <= k < |ancestors| && ParentExcludes(ancestors[k])
  }

  /** `isExcluded`: the own-tag and class tests, then the walk up the parents. */
  method IsExcluded(e: Frame, ancestors: seq<Frame>) returns (r: bool)
    ensures r == Excluded(e, ancestors)
  {
    var tagName := Lower(e.tag);
    if tagName == "pre" || tagName == "code" || tagName == "script" || tagName == "style" {
      return true;
    }
    if e.cls.StrClass? && HasAny(e.cls.s, CodeClasses) {
      return true;
    }
    if e.cls.StrClass? {
      if Contains(e.cls.s, "intralink-content") || Contains(e.cls.s, "intralink-content-preview") {
        assert Contains(e.cls.s, IntralinkClasses[0]) || Contains(e.cls.s, IntralinkClasses[1]);
        return true;
      }
      assert !HasAny(e.cls.s, IntralinkClasses);
    }
    var k := 0;
    while k < |ancestors|
      invariant 0 <= k <= |ancestors|
      invariant forall j :: 0 <= j < k ==> !ParentExcludes(ancestors[j])
    {
      var parent := ancestors[k];
      var parentTag := Lower(parent.tag);
      if parentTag == "pre" || parentTag == "code" {
        return true;
      }
      if parent.cls.StrClass? {
        if HasAny(parent.cls.s, CodeClasses) {
          return true;
        }
        if Contains(parent.cls.s, "intralink-content") || Contains(parent.cls.s, "intralink-content-preview") {
          assert Contains(parent.cls.s, IntralinkClasses[0]) || Contains(parent.cls.s, IntralinkClasses[1]);
          return true;
        }
        assert !HasAny(parent.cls.s, IntralinkClasses);
      }
      k := k + 1;
    }
    return false;
  }

  /**
   * Two of the eight markers are redundant: "codehilite" holds "code", and
   * "intralink-content-preview" holds "intralink-content". A string class is
   * marked exactly when it holds one of the other six.
   */
  lemma MarkedClassIff(s: string)
    ensures MarkedClass(StrClass(s)) <==>
      Contains(s, "code") || Contains(s, "syntax") || Contains(s, "highlight") ||
      Contains(s, "sourceCode") || Contains(s, "hljs") || Contains(s, "intralink-content")
  {
    assert OccursAt("codehilite", "code", 0);
    assert OccursAt("intralink-content-preview", "intralink-content", 0);
    if Contains(s, "codehilite") {
      ContainsTrans(s, "codehilite", "code");
    }
    if Contains(s, "intralink-content-preview") {
      ContainsTrans(s, "intralink-content-preview", "intralink-content");
    }
    assert HasAny(s, CodeClasses) <==>
      Contains(s, CodeClasses[0]) || Contains(s, CodeClasses[1]) || Contains(s, CodeClasses[2]) ||
      Contains(s, CodeClasses[3]) || Contains(s, CodeClasses[4]) || Contains(s, CodeClasses[5]);
    assert HasAny(s, IntralinkClasses) <==>
      Contains(s, IntralinkClasses[0]) || Contains(s, IntralinkClasses[1]);
  }

  /** The class test is a substring test: "decode" is marked, since it holds "code". */
  lemma ClassTestSubstring()
    ensures MarkedClass(StrClass("decode"))
  {
    assert OccursAt("decode", "code", 2);
    assert Contains("decode", CodeClasses[0]);
  }

  /**
   * A class holding no lower-case 's', 'h' or 'i', and whose only lower-case
   * 'c' (at offset k) is not followed by 'o', holds no marker.
   */
  lemma NoMarkerLetters(s: string, k: nat)
    requires k + 1 < |s| && 'c' !in s[..k] && 'c' !in s[k + 1..] && s[k + 1] != 'o'
    requires 's' !in s && 'h' !in s && 'i' !in s
    ensures !MarkedClass(StrClass(s))
  {
    OnlyAt(s, "code", k);
    AbsentHead(s, "syntax");
    AbsentHead(s, "highlight");
    AbsentHead(s, "sourceCode");
    AbsentHead(s, "hljs");
    AbsentHead(s, "intralink-content");
    MarkedClassIff(s);
  }

  /**
   * The class test is case-sensitive: "SourceCode" is not marked, since it
   * holds neither "code" nor "sourceCode" nor any other marker.
   */
  lemma ClassTestCaseSensitive()
    ensures !MarkedClass(StrClass("SourceCode"))
  {
    NoMarkerLetters("SourceCode", 4);
  }

  /** A class that is not a string never excludes: only the tags count then. */
  lemma NonStringClassIgnored(tag: string, ancestors: seq<Frame>)
    requires forall k :: 0 <= k < |ancestors| ==> ancestors[k].cls == NonStringClass
    ensures Excluded(Frame(tag, NonStringClass), ancestors) <==>
      Lower(tag) in OwnTags || exists k :: 0 <= k < |ancestors| && Lower(ancestors[k].tag) in ParentTags
  {
  }

  /**
   * The parent walk uses the shorter tag list: an element excludes itself by a
   * script or style tag, but a script or style parent does not exclude it.
   */
  lemma ScriptExcludesOnlyItself(e: Frame, p: Frame)
    requires Lower(p.tag) == "script" || Lower(p.tag) == "style"
    requires !SelfExcludes(e) && !MarkedClass(p.cls)
    ensures Excluded(p, [])
    ensures !Excluded(e, [p])
  {
  }
}
