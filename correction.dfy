/*
 * The correction tree of the xml-annotation crate: text nodes, fixes and
 * revisions (each with an original and a corrected branch and nested
 * children) and segments; reconstructing the original or the corrected
 * text with its punctuation-aware spacing rule, and searching the tree by
 * explanation.
 */
module Correction {
  import opened Text

  datatype Node =
    | TextNode(text: string)
    | Fix(original: seq<Node>, corrected: seq<Node>, explanation: Option<string>, children: seq<Node>)
    | Revision(original: seq<Node>, corrected: seq<Node>, explanation: Option<string>, children: seq<Node>)
    | Segment(nodes: seq<Node>)

  datatype Document = Document(root: seq<Node>)

  // ---------------------------------------------------------------------
  // Text nodes

  /** Every character that is not whitespace, in order. */
  function StripWhitespace(text: string): (r: string)
    ensures NoSpace(Rust, r)
  {
    Filter(text, Visible)
  }

  /** Text without whitespace is kept as it is. */
  lemma StripUnchanged(text: string)
    requires NoSpace(Rust, text)
    ensures StripWhitespace(text) == text
  {
    FilterAllKept(text, Visible);
  }

  /** What a parsed XML text child becomes: nothing when it is blank,
      otherwise a text node holding its characters without whitespace. */
  function ParseText(text: string): Option<Node>
  {
    if Trim(Rust, text) == [] then None
    else
      var stripped := StripWhitespace(text);
      if stripped != [] then Some(TextNode(stripped)) else None
  }

  /** A text child yields a node exactly when it holds a non-whitespace
      character, and that node is non-empty and free of whitespace. */
  lemma ParseTextNode(text: string)
    ensures ParseText(text).Some? <==> exists i :: 0 <= i < |text| && Visible(text[i])
    ensures ParseText(text).Some? ==>
      ParseText(text).value.TextNode? && ParseText(text).value.text != [] && NoSpace(Rust, ParseText(text).value.text)
  {
    TrimEmpty(Rust, text);
    if exists i :: 0 <= i < |text| && Visible(text[i]) {
      var i :| 0 <= i < |text| && Visible(text[i]);
      VisibleKept(text, i);
    }
  }

  lemma {:induction false} VisibleKept(s: string, i: nat)
    requires i < |s| && Visible(s[i])
    ensures Filter(s, Visible) != []
  {
    if i > 0 {
      VisibleKept(s[1..], i - 1);
    }
  }

  /** The line-break element's text node. */
  const LineBreak: Node := TextNode("\n")

  // ---------------------------------------------------------------------
  // Reconstruction

  /** The branch a fix or revision contributes. */
  function Branch(original: seq<Node>, corrected: seq<Node>, useCorrected: bool): seq<Node>
  {
    if useCorrected then corrected else original
  }

  /** The text of one node. */
  function Reconstruct(node: Node, useCorrected: bool): string
    decreases node, 1
  {
    match node
    case TextNode(text) => text
    case Fix(original, corrected, _, children) =>
      ReconstructList(Branch(original, corrected, useCorrected), useCorrected)
      + (if children != [] then ReconstructList(children, useCorrected) else "")
    case Revision(original, corrected, _, children) =>
      ReconstructList(Branch(original, corrected, useCorrected), useCorrected)
      + (if children != [] then ReconstructList(children, useCorrected) else "")
    case Segment(nodes) => ReconstructList(nodes, useCorrected)
  }

  /** The texts of a node list, one per node. */
  function Texts(nodes: seq<Node>, useCorrected: bool): (r: seq<string>)
    ensures |r| == |nodes|
    ensures forall i :: 0 <= i < |nodes| ==> r[i] == Reconstruct(nodes[i], useCorrected)
    decreases nodes, 0
  {
    if nodes == [] then [] else [Reconstruct(nodes[0], useCorrected)] + Texts(nodes[1..], useCorrected)
  }

  /** The text of a node list: the node texts with the spacing rule
      applied between neighbours. */
  function ReconstructList(nodes: seq<Node>, useCorrected: bool): (r: string)
    ensures nodes == [] ==> r == ""
    decreases nodes, 1
  {
    Joined(Texts(nodes, useCorrected))
  }

  /** A closing or trailing punctuation mark: no space goes before it. */
  predicate Closing(c: char)
  {
    c == '.' || c == ',' || c == ';' || c == ':' || c == '!' || c == '?' || c == ')' || c == ']' || c == '}'
    || c == '"' || c == '\'' || c == '…'
  }

  /** An opening punctuation mark: no space goes after it. */
  predicate Opening(c: char)
  {
    c == '(' || c == '[' || c == '{' || c == '"' || c == '\''
  }

  /** What goes between two neighbouring texts. */
  function Spacing(current: string, next: string): string
  {
    if current == [] || next == [] || next == "\n" || current == "\n" then ""
    else if Closing(next[0]) || Opening(current[|current| - 1]) then ""
    else " "
  }

  /** The spacing after the text at `i`: none after the last. */
  function SpacingAfter(texts: seq<string>, i: nat): string
    requires i < |texts|
  {
    if i + 1 < |texts| then Spacing(texts[i], texts[i + 1]) else ""
  }

  /** The first `k` texts, each followed by its spacing. */
  function JoinedUpTo(texts: seq<string>, k: nat): string
    requires k <= |texts|
  {
    if k == 0 then "" else JoinedUpTo(texts, k - 1) + texts[k - 1] + SpacingAfter(texts, k - 1)
  }

  function Joined(texts: seq<string>): string
  {
    JoinedUpTo(texts, |texts|)
  }

  /** The text of a node list, as the loop builds it: each node's text,
      then a space when the next text needs one. */
  method ReconstructNodes(nodes: seq<Node>, useCorrected: bool) returns (result: string)
    ensures result == ReconstructList(nodes, useCorrected)
  {
    if nodes == [] {
      return "";
    }
    ghost var texts := Texts(nodes, useCorrected);
    result := "";
    for i := 0 to |nodes|
      invariant result == JoinedUpTo(texts, i)
    {
      var nodeText := Reconstruct(nodes[i], useCorrected);
      assert JoinedUpTo(texts, i + 1) == result + nodeText + SpacingAfter(texts, i);
      result := result + nodeText;
      if i < |nodes| - 1 {
        var nextNodeText := Reconstruct(nodes[i + 1], useCorrected);
        if nodeText == [] {
          continue;
        }
        if nextNodeText == [] {
          continue;
        }
        if nextNodeText == "\n" {
          continue;
        }
        if nodeText == "\n" {
          continue;
        }
        if Closing(nextNodeText[0]) {
          continue;
        }
        if Opening(nodeText[|nodeText| - 1]) {
          continue;
        }
        result := result + " ";
      }
    }
  }

  function ReconstructOriginal(doc: Document): (r: string)
    ensures doc.root == [] ==> r == ""
  {
    ReconstructList(doc.root, false)
  }

  function ReconstructCorrected(doc: Document): (r: string)
    ensures doc.root == [] ==> r == ""
  {
    ReconstructList(doc.root, true)
  }

  // ---------------------------------------------------------------------
  // Properties of reconstruction

  /** Spacing only ever adds spaces: dropping the spaces of the joined
      text and of the plain concatenation gives the same string. */
  lemma {:induction false} JoinedAddsOnlySpaces(texts: seq<string>, k: nat)
    requires k <= |texts|
    ensures Filter(JoinedUpTo(texts, k), NotBlank) == Filter(Concat(texts[..k]), NotBlank)
  {
    if k > 0 {
      JoinedAddsOnlySpaces(texts, k - 1);
      var before, t, sp := JoinedUpTo(texts, k - 1), texts[k - 1], SpacingAfter(texts, k - 1);
      assert Filter(sp, NotBlank) == [] by {
        FilterNoneKept(sp, NotBlank);
      }
      assert Filter(before + t + sp, NotBlank) == Filter(before, NotBlank) + Filter(t, NotBlank) by {
        FilterAppend(before + t, sp, NotBlank);
        FilterAppend(before, t, NotBlank);
      }
      assert Filter(Concat(texts[..k]), NotBlank) == Filter(Concat(texts[..k - 1]), NotBlank) + Filter(t, NotBlank) by {
        SnocPrefix(texts, k);
        FilterAppend(Concat(texts[..k - 1]), t, NotBlank);
      }
    }
  }

  /** At most one space goes into each gap. */
  lemma {:induction false} JoinedLength(texts: seq<string>, k: nat)
    requires k <= |texts|
    ensures |Concat(texts[..k])| <= |JoinedUpTo(texts, k)| <= |Concat(texts[..k])| + k
  {
    if k > 0 {
      JoinedLength(texts, k - 1);
      SnocPrefix(texts, k);
    }
  }

  lemma SnocPrefix(texts: seq<string>, k: nat)
    requires 0 < k <= |texts|
    ensures Concat(texts[..k]) == Concat(texts[..k - 1]) + texts[k - 1]
  {
    assert texts[..k] == texts[..k - 1] + [texts[k - 1]];
    ConcatSnoc(texts[..k - 1], texts[k - 1]);
  }

  predicate NotBlank(c: char)
  {
    c != ' '
  }

  /** A tree without fixes or revisions. */
  predicate Plain(node: Node)
    decreases node, 1
  {
    match node
    case TextNode(_) => true
    case Segment(nodes) => AllPlain(nodes)
    case Fix(_, _, _, _) => false
    case Revision(_, _, _, _) => false
  }

  predicate AllPlain(nodes: seq<Node>)
    decreases nodes, 0
  {
    nodes == [] || (Plain(nodes[0]) && AllPlain(nodes[1..]))
  }

  /** Without fixes and revisions the original and the corrected text are
      the same. */
  lemma {:induction false} PlainReconstructsAlike(node: Node)
    requires Plain(node)
    ensures Reconstruct(node, false) == Reconstruct(node, true)
    decreases node, 1
  {
    if node.Segment? {
      PlainListAlike(node.nodes);
    }
  }

  lemma {:induction false} PlainListAlike(nodes: seq<Node>)
    requires AllPlain(nodes)
    ensures Texts(nodes, false) == Texts(nodes, true)
    ensures ReconstructList(nodes, false) == ReconstructList(nodes, true)
    decreases nodes, 0
  {
    if nodes != [] {
      PlainReconstructsAlike(nodes[0]);
      PlainListAlike(nodes[1..]);
    }
  }

  /** "My", a fix of "favoritest" to "favorite", then "book". */
  const Example: Document := Document([
    TextNode("My"),
    Fix([TextNode("favoritest")], [TextNode("favorite")], None, []),
    TextNode("book")])

  lemma ExampleReconstruction()
    ensures ReconstructOriginal(Example) == "My favoritest book"
    ensures ReconstructCorrected(Example) == "My favorite book"
  {
    ExampleOriginal();
    ExampleCorrected();
  }

  lemma ExampleOriginal()
    ensures ReconstructOriginal(Example) == "My favoritest book"
  {
    ExampleWith(false, "favoritest");
    assert "My " + "favoritest" + " book" == "My favoritest book";
  }

  lemma ExampleCorrected()
    ensures ReconstructCorrected(Example) == "My favorite book"
  {
    ExampleWith(true, "favorite");
    assert "My " + "favorite" + " book" == "My favorite book";
  }

  lemma ExampleWith(useCorrected: bool, word: string)
    requires word == (if useCorrected then "favorite" else "favoritest")
    ensures ReconstructList(Example.root, useCorrected) == "My " + word + " book"
  {
    var t := Texts(Example.root, useCorrected);
    ExampleTexts(useCorrected, word);
    JoinedThree(t);
    assert Spacing("My", word) == " ";
    assert Spacing(word, "book") == " ";
    assert "My" + " " == "My " && " " + "book" == " book";
    AppendAssoc("My " + word, " ", "book");
  }

  lemma ExampleTexts(useCorrected: bool, word: string)
    requires word == (if useCorrected then "favorite" else "favoritest")
    ensures Texts(Example.root, useCorrected) == ["My", word, "book"]
  {
    var fix := Example.root[1];
    assert Reconstruct(fix, useCorrected) == word by {
      JoinedOne(Branch(fix.original, fix.corrected, useCorrected), useCorrected);
    }
  }

  lemma JoinedOne(nodes: seq<Node>, useCorrected: bool)
    requires |nodes| == 1
    ensures ReconstructList(nodes, useCorrected) == Reconstruct(nodes[0], useCorrected)
  {
    assert JoinedUpTo(Texts(nodes, useCorrected), 1) == Reconstruct(nodes[0], useCorrected);
  }

  lemma JoinedThree(texts: seq<string>)
    requires |texts| == 3
    ensures Joined(texts) == texts[0] + Spacing(texts[0], texts[1]) + texts[1] + Spacing(texts[1], texts[2]) + texts[2]
  {
    assert JoinedUpTo(texts, 1) == texts[0] + Spacing(texts[0], texts[1]);
    assert JoinedUpTo(texts, 2) == texts[0] + Spacing(texts[0], texts[1]) + texts[1] + Spacing(texts[1], texts[2]);
    assert JoinedUpTo(texts, 3) == JoinedUpTo(texts, 2) + texts[2];
  }

  // ---------------------------------------------------------------------
  // Search by explanation

  /** A fix or revision whose explanation contains `e`. */
  predicate Matches(node: Node, e: string)
  {
    (node.Fix? || node.Revision?) && node.explanation.Some? && Contains(node.explanation.value, e)
  }

  /** The matches in a node list, in pre-order, looking only through
      children and segments. */
  function Found(nodes: seq<Node>, e: string): (r: seq<Node>)
    ensures forall x :: x in r ==> Matches(x, e)
    decreases nodes, 1
  {
    if nodes == [] then [] else Found(nodes[..|nodes| - 1], e) + FoundIn(nodes[|nodes| - 1], e)
  }

  function FoundIn(node: Node, e: string): (r: seq<Node>)
    ensures forall x :: x in r ==> Matches(x, e)
    decreases node, 0
  {
    match node
    case TextNode(_) => []
    case Segment(nodes) => Found(nodes, e)
    case Fix(_, _, _, children) => (if Matches(node, e) then [node] else []) + Found(children, e)
    case Revision(_, _, _, children) => (if Matches(node, e) then [node] else []) + Found(children, e)
  }

  /** Whether `x` is one of `nodes` or lies below one of them through
      children and segments (not through the original or corrected
      branches). */
  predicate Reaches(nodes: seq<Node>, x: Node)
    decreases nodes, 1
  {
    nodes != [] && (Reaches(nodes[..|nodes| - 1], x) || nodes[|nodes| - 1] == x || ReachesIn(nodes[|nodes| - 1], x))
  }

  predicate ReachesIn(node: Node, x: Node)
    decreases node, 0
  {
    match node
    case TextNode(_) => false
    case Segment(nodes) => Reaches(nodes, x)
    case Fix(_, _, _, children) => Reaches(children, x)
    case Revision(_, _, _, children) => Reaches(children, x)
  }

  /** The search finds exactly the matching nodes reachable through
      children and segments. */
  lemma {:induction false} FoundExactly(nodes: seq<Node>, e: string, x: Node)
    ensures x in Found(nodes, e) <==> Reaches(nodes, x) && Matches(x, e)
    decreases nodes, 1
  {
    if nodes != [] {
      FoundExactly(nodes[..|nodes| - 1], e, x);
      FoundInExactly(nodes[|nodes| - 1], e, x);
    }
  }

  lemma {:induction false} FoundInExactly(node: Node, e: string, x: Node)
    ensures x in FoundIn(node, e) <==> (node == x || ReachesIn(node, x)) && Matches(x, e)
    decreases node, 0
  {
    match node
    case TextNode(_) =>
    case Segment(nodes) =>
      FoundExactly(nodes, e, x);
    case Fix(_, _, _, children) =>
      FoundExactly(children, e, x);
    case Revision(_, _, _, children) =>
      FoundExactly(children, e, x);
  }

  /** The search, as the method accumulates it. */
  method FindNodes(nodes: seq<Node>, e: string) returns (result: seq<Node>)
    ensures result == Found(nodes, e)
    decreases nodes
  {
    result := [];
    for i := 0 to |nodes|
      invariant result == Found(nodes[..i], e)
    {
      assert nodes[..i + 1][..i] == nodes[..i];
      var node := nodes[i];
      match node {
        case TextNode(_) =>
        case Segment(children) =>
          var below := FindNodes(children, e);
          result := result + below;
        case Fix(_, _, explanation, children) =>
          if explanation.Some? && Contains(explanation.value, e) {
            result := result + [node];
          }
          var below := FindNodes(children, e);
          result := result + below;
        case Revision(_, _, explanation, children) =>
          if explanation.Some? && Contains(explanation.value, e) {
            result := result + [node];
          }
          var below := FindNodes(children, e);
          result := result + below;
      }
    }
    assert nodes[..|nodes|] == nodes;
  }

  method FindByExplanation(doc: Document, e: string) returns (result: seq<Node>)
    ensures forall x :: x in result <==> Reaches(doc.root, x) && Matches(x, e)
  {
    result := FindNodes(doc.root, e);
    forall x
      ensures x in result <==> Reaches(doc.root, x) && Matches(x, e)
    {
      FoundExactly(doc.root, e, x);
    }
  }
}
