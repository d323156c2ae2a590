/**
 * The part of the host document the rewrite engine sees: elements with a tag,
 * a class attribute and ordered children; text nodes with their characters;
 * and every other kind of node (comments, processing instructions), which the
 * engine passes over.
 */
module Dom {
  /**
   * `element.className`: a string on HTML elements; on SVG elements it is an
   * object, which the classifier ignores.
   */
  datatype ClassAttr = StrClass(s: string) | NonStringClass

  datatype Node =
    | Element(tag: string, cls: ClassAttr, attrs: map<string, string>, children: seq<Node>)
    | Text(s: string)
    | Other

  /** What the exclusion classifier reads of one element: its tag and its class. */
  datatype Frame = Frame(tag: string, cls: ClassAttr)

  function FrameOf(n: Node): Frame
    requires n.Element?
  {
    Frame(n.tag, n.cls)
  }

  /** `textContent`: the characters of every text node in the nodes, in document order. */
  function Content(ns: seq<Node>): string
  {
    if ns == [] then "" else NodeContent(ns[0]) + Content(ns[1..])
  }

  function NodeContent(n: Node): string
  {
    match n
    case Element(_, _, _, cs) => Content(cs)
    case Text(s) => s
    case Other => ""
  }

  lemma ContentAppend(a: seq<Node>, b: seq<Node>)
    ensures Content(a + b) == Content(a) + Content(b)
  {
    if a == [] {
      assert a + b == b;
    } else {
      assert (a + b)[0] == a[0];
      assert (a + b)[1..] == a[1..] + b;
      ContentAppend(a[1..], b);
    }
  }
}
