/*
 * Helpers of the essay processor that work on the language model's replies:
 * pulling the annotated XML document out of a reply that may wrap it in
 * Markdown fences, reading a relevance score out of free text, and
 * counting the corrections of a parsed annotation tree by error type.
 * The model calls themselves and the XML parser are not part of this
 * model: the parser's result is a parameter.
 */
module LlmProcessor {
  import opened Text
  import Annotated

  const DocOpen := "<document>"
  const DocClose := "</document>"
  const Fence := "```"
  const XmlFence := "```xml"

  // ---------------------------------------------------------------------
  // The document between the tags

  /** How the tag branch of the extraction ends, as the code is written. */
  datatype TagOutcome = TagSlice(xml: string) | NoTags | Panics

  /**
   * The tag branch as written: the slice from the first "<document>" to the
   * end of the last "</document>". The slice bounds are not checked against
   * each other, so a closing tag that lies before the opening one gives an
   * empty slice or a panic.
   */
  function TagBranchAsWritten(response: string): (r: TagOutcome)
    ensures r.NoTags? <==> !Contains(response, DocOpen) || !Contains(response, DocClose)
  {
    match Find(response, DocOpen)
    case None => NoTags
    case Some(start) =>
      match RFind(response, DocClose)
      case None => NoTags
      case Some(end) =>
        if start <= end + |DocClose| then TagSlice(Trim(Rust, response[start..end + |DocClose|]))
        else Panics
  }

  /** The first search moves past a position where one character of the pattern differs. */
  lemma FindSkip(s: string, p: string, k: nat, d: nat)
    requires d < |p| && k + |p| <= |s| && s[k + d] != p[d]
    ensures FindFrom(s, p, k) == FindFrom(s, p, k + 1)
  {
    assert s[k..k + |p|][d] == s[k + d];
  }

  /** The backward search moves past a position where one character of the pattern differs. */
  lemma RFindSkip(s: string, p: string, k: nat, d: nat)
    requires d < |p| && 0 < k && k + |p| <= |s| && s[k + d] != p[d]
    ensures RFindUpTo(s, p, k) == RFindUpTo(s, p, k - 1)
  {
    assert s[k..k + |p|][d] == s[k + d];
  }

  /** The first search moves past a stretch where the pattern's first character does not occur. */
  lemma {:induction false} FindSkipRange(s: string, p: string, k: nat, m: nat)
    requires 0 < |p| && k <= m && m + |p| <= |s|
    requires forall j :: k <= j < m ==> s[j] != p[0]
    ensures FindFrom(s, p, k) == FindFrom(s, p, m)
    decreases m - k
  {
    if k < m {
      FindSkip(s, p, k, 0);
      FindSkipRange(s, p, k + 1, m);
    }
  }

  /** The backward search moves past a stretch where the pattern's first character does not occur. */
  lemma {:induction false} RFindSkipRange(s: string, p: string, lo: nat, hi: nat)
    requires 0 < |p| && lo <= hi && hi + |p| <= |s|
    requires forall j :: lo < j <= hi ==> s[j] != p[0]
    ensures RFindUpTo(s, p, hi) == RFindUpTo(s, p, lo)
    decreases hi - lo
  {
    if lo < hi {
      RFindSkip(s, p, hi, 0);
      RFindSkipRange(s, p, lo, hi - 1);
    }
  }

  /** In "</document>" + gap + "<document>" the opening tag is found after the gap and the closing tag at 0. */
  lemma TagsReversed(gap: string)
    requires gap == "" || gap == " "
    ensures Find(DocClose + gap + DocOpen, DocOpen) == Some(11 + |gap|)
    ensures RFind(DocClose + gap + DocOpen, DocClose) == Some(0)
  {
    NoOpenerInside(gap);
    var s := DocClose + gap + DocOpen;
    var n := 11 + |gap|;
    FindSkip(s, DocOpen, 0, 1);
    FindSkipRange(s, DocOpen, 1, n);
    assert |DocClose + gap| == n && s == (DocClose + gap) + DocOpen;
    assert s[n..] == DocOpen && |s| == n + 10;
    assert s[n..n + 10] == DocOpen;
    ReversedClose(gap);
  }

  /** The backward search for the closing tag ends at 0. */
  lemma ReversedClose(gap: string)
    requires gap == "" || gap == " "
    ensures RFind(DocClose + gap + DocOpen, DocClose) == Some(0)
  {
    NoOpenerInside(gap);
    var s := DocClose + gap + DocOpen;
    RFindSkipRange(s, DocClose, 0, 10 + |gap|);
    assert s[0..11] == DocClose;
  }

  /** No `<` between the first character and the opening tag. */
  lemma NoOpenerInside(gap: string)
    requires gap == "" || gap == " "
    ensures forall j :: 1 <= j < 11 + |gap| ==> (DocClose + gap + DocOpen)[j] != '<'
  {
    var s := DocClose + gap + DocOpen;
    var n := 11 + |gap|;
    assert s[1..n] == "/document>" + gap;
    forall j | 1 <= j < n ensures s[j] != '<' {
      assert s[j] == s[1..n][j - 1];
    }
  }

  /** A closing tag right in front of the opening one: the branch yields an empty document. */
  lemma ClosingFirstGivesEmpty()
    ensures TagBranchAsWritten(DocClose + DocOpen) == TagSlice("")
  {
    TagsReversed("");
    assert DocClose + "" + DocOpen == DocClose + DocOpen;
    assert (DocClose + DocOpen)[11..11] == "";
  }

  /** A closing tag well before the opening one: the slice bounds are reversed and the code panics. */
  lemma ClosingFarBeforePanics()
    ensures TagBranchAsWritten(DocClose + " " + DocOpen) == Panics
  {
    TagsReversed(" ");
  }

  /**
   * The tag branch as intended: it applies only when the last closing tag
   * comes after the first opening tag; otherwise the fence branch is tried.
   */
  function TagBranch(response: string): (r: Option<string>)
    ensures r.Some? ==> StartsWith(r.value, DocOpen) && EndsWith(r.value, DocClose)
    ensures r.Some? ==> Trimmed(Rust, r.value)
  {
    match Find(response, DocOpen)
    case None => None
    case Some(start) =>
      match RFind(response, DocClose)
      case None => None
      case Some(end) =>
        if start + |DocOpen| <= end then
          TaggedSlice(response, start, end);
          Some(Trim(Rust, response[start..end + |DocClose|]))
        else None
  }

  /** The slice from an opening tag to the end of a later closing tag is already trimmed. */
  lemma TaggedSlice(response: string, start: nat, end: nat)
    requires OccursAt(response, DocOpen, start) && OccursAt(response, DocClose, end)
    requires start + |DocOpen| <= end
    ensures Trim(Rust, response[start..end + |DocClose|]) == response[start..end + |DocClose|]
    ensures StartsWith(response[start..end + |DocClose|], DocOpen)
    ensures EndsWith(response[start..end + |DocClose|], DocClose)
  {
    var slice := response[start..end + |DocClose|];
    assert slice[..|DocOpen|] == response[start..start + |DocOpen|];
    assert slice[|slice| - |DocClose|..] == response[end..end + |DocClose|];
    assert slice[0] == slice[..|DocOpen|][0] == '<';
    assert slice[|slice| - 1] == slice[|slice| - |DocClose|..][|DocClose| - 1] == '>';
    TrimUnchanged(Rust, slice);
  }

  /** Whenever the closing tag follows the opening one, the written and the intended branch agree. */
  lemma TagBranchAgrees(response: string)
    requires TagBranch(response).Some?
    ensures TagBranchAsWritten(response) == TagSlice(TagBranch(response).value)
  {
  }

  // ---------------------------------------------------------------------
  // The lines inside fences

  /** A line whose trimmed text starts with three backticks. */
  predicate IsFenceLine(line: string)
  {
    var t := Trim(Rust, line);
    |t| >= 3 && t[0] == '`' && t[1] == '`' && t[2] == '`'
  }

  /** IsFenceLine is the test `line.trim().starts_with("```")`. */
  lemma FenceLineStartsWithFence(line: string)
    ensures IsFenceLine(line) <==> StartsWith(Trim(Rust, line), Fence)
  {
    BackticksStart(Trim(Rust, line));
  }

  lemma BackticksStart(t: string)
    ensures (|t| >= 3 && t[0] == '`' && t[1] == '`' && t[2] == '`') <==> StartsWith(t, Fence)
  {
    if |t| >= 3 {
      assert t[..3] == [t[0], t[1], t[2]];
    }
  }

  /**
   * The fence loop: a fence line toggles whether the loop is inside a
   * block, and every other line inside a block is kept with a newline.
   * The result is the state after the lines and the text kept.
   */
  function Scan(lines: seq<string>, isFence: string -> bool): (r: (bool, string))
  {
    if lines == [] then (false, "")
    else
      var line := lines[|lines| - 1];
      ScanStep(Scan(lines[..|lines| - 1], isFence), line, isFence(line))
  }

  /** One turn of the fence loop; `fence` tells whether the line is a fence line. */
  function ScanStep(state: (bool, string), line: string, fence: bool): (bool, string)
  {
    if fence then (!state.0, state.1)
    else if state.0 then (state.0, state.1 + line + "\n")
    else state
  }

  /** The number of fence lines. */
  function FenceCount(lines: seq<string>, isFence: string -> bool): (n: nat)
    ensures n <= |lines|
  {
    if lines == [] then 0
    else FenceCount(lines[..|lines| - 1], isFence) + (if isFence(lines[|lines| - 1]) then 1 else 0)
  }

  /** Line i lies inside a block: it is no fence and an odd number of fences precede it. */
  predicate Inside(lines: seq<string>, isFence: string -> bool, i: nat)
    requires i < |lines|
  {
    !isFence(lines[i]) && FenceCount(lines[..i], isFence) % 2 == 1
  }

  /** The inside lines of the first n, each followed by a newline. */
  function InsideText(lines: seq<string>, isFence: string -> bool, n: nat): string
    requires n <= |lines|
  {
    if n == 0 then ""
    else InsideText(lines, isFence, n - 1) + (if Inside(lines, isFence, n - 1) then lines[n - 1] + "\n" else "")
  }

  /** The toggling loop keeps exactly the lines preceded by an odd number of fences. */
  lemma {:induction false} ScanKeepsInside(lines: seq<string>, isFence: string -> bool)
    ensures Scan(lines, isFence).0 <==> FenceCount(lines, isFence) % 2 == 1
    ensures Scan(lines, isFence).1 == InsideText(lines, isFence, |lines|)
  {
    if lines != [] {
      var n := |lines| - 1;
      var prefix := lines[..n];
      ScanKeepsInside(prefix, isFence);
      InsideTextPrefix(lines, isFence, n);
      ScanStepKeeps(Scan(prefix, isFence), lines[n], isFence(lines[n]), FenceCount(prefix, isFence), InsideText(lines, isFence, n));
    }
  }

  /** One turn of the loop keeps the fence parity and the inside text. */
  lemma ScanStepKeeps(state: (bool, string), line: string, fence: bool, before: nat, text: string)
    requires state.0 <==> before % 2 == 1
    requires state.1 == text
    ensures ScanStep(state, line, fence).0 <==> (before + (if fence then 1 else 0)) % 2 == 1
    ensures ScanStep(state, line, fence).1 == text + (if !fence && before % 2 == 1 then line + "\n" else "")
  {
  }

  /** InsideText of a prefix depends only on the prefix. */
  lemma {:induction false} InsideTextPrefix(lines: seq<string>, isFence: string -> bool, n: nat)
    requires n <= |lines|
    ensures InsideText(lines[..n], isFence, n) == InsideText(lines, isFence, n)
  {
    if n > 0 {
      InsideTextPrefix(lines, isFence, n - 1);
      InsideTextSame(lines[..n], lines, isFence, n - 1);
      assert lines[..n][..n - 1] == lines[..n - 1];
      assert lines[..n][n - 1] == lines[n - 1];
    }
  }

  /** Two line lists with a common prefix of n lines have the same InsideText up to n. */
  lemma {:induction false} InsideTextSame(a: seq<string>, b: seq<string>, isFence: string -> bool, n: nat)
    requires n <= |a| && n <= |b| && a[..n] == b[..n]
    ensures InsideText(a, isFence, n) == InsideText(b, isFence, n)
  {
    if n > 0 {
      assert a[..n - 1] == a[..n][..n - 1] == b[..n][..n - 1] == b[..n - 1];
      assert a[n - 1] == a[..n][n - 1] == b[..n][n - 1] == b[n - 1];
      InsideTextSame(a, b, isFence, n - 1);
    }
  }

  /** Without fence lines nothing is kept. */
  lemma {:induction false} NoFenceNothingKept(lines: seq<string>, isFence: string -> bool)
    requires forall i :: 0 <= i < |lines| ==> !isFence(lines[i])
    ensures Scan(lines, isFence) == (false, "")
  {
    if lines != [] {
      var prefix := lines[..|lines| - 1];
      assert forall i :: 0 <= i < |prefix| ==> prefix[i] == lines[i];
      NoFenceNothingKept(prefix, isFence);
    }
  }

  /** The fence loop over the reply's lines. */
  method ScanFences(lines: seq<string>) returns (content: string)
    ensures content == Scan(lines, IsFenceLine).1
  {
    var inBlock := false;
    content := "";
    for i := 0 to |lines|
      invariant (inBlock, content) == Scan(lines[..i], IsFenceLine)
    {
      assert lines[..i + 1][..i] == lines[..i];
      var line := lines[i];
      if IsFenceLine(line) {
        inBlock := !inBlock;
        continue;
      }
      if inBlock && Contains(line, DocOpen) {
        content := content + line + "\n";
      } else if inBlock {
        content := content + line + "\n";
      }
    }
    assert lines[..|lines|] == lines;
  }

  // ---------------------------------------------------------------------
  // The extraction

  /** A reply containing "```xml" contains "```", so the second test alone decides. */
  lemma XmlFenceIsFence(response: string)
    requires Contains(response, XmlFence)
    ensures Contains(response, Fence)
  {
    var i :| 0 <= i <= |response| && OccursAt(response, XmlFence, i);
    assert response[i..i + 3] == response[i..i + 6][..3];
    assert OccursAt(response, Fence, i);
  }

  const NoXml := "Could not extract valid XML content from LLM response"

  /**
   * The fence branch: tried when the reply contains "```xml" or "```"; it
   * yields the trimmed inside lines when any were kept.
   */
  function FenceBranch(response: string): (r: Option<string>)
    ensures r.Some? <==> Contains(response, Fence) && InsideText(RustLines(response), IsFenceLine, |RustLines(response)|) != ""
    ensures r.Some? ==> r.value == Trim(Rust, InsideText(RustLines(response), IsFenceLine, |RustLines(response)|))
  {
    var lines := RustLines(response);
    ScanKeepsInside(lines, IsFenceLine);
    if Contains(response, XmlFence) || Contains(response, Fence) then
      if Contains(response, XmlFence) then XmlFenceIsFence(response); FencedContent(lines)
      else FencedContent(lines)
    else None
  }

  /** The trimmed text kept by the fence loop, unless nothing was kept. */
  function FencedContent(lines: seq<string>): Option<string>
  {
    var content := Scan(lines, IsFenceLine).1;
    if content != "" then Some(Trim(Rust, content)) else None
  }

  /** The XML of a reply: the tagged document, else the fenced lines, else an error. */
  function ExtractXmlContent(response: string): (r: Result<string, string>)
    ensures r.Ok? ==> Trimmed(Rust, r.value)
    ensures r.Err? ==> r.error == NoXml
    ensures TagBranch(response).Some? ==> r == Ok(TagBranch(response).value)
    ensures TagBranch(response).None? ==> (r.Ok? <==> FenceBranch(response).Some?)
  {
    match TagBranch(response)
    case Some(xml) => Ok(xml)
    case None =>
      match FenceBranch(response)
      case Some(xml) => Ok(xml)
      case None => Err(NoXml)
  }

  /** A reply with neither tags nor a fence gives the error. */
  lemma NoTagsNoFenceFails(response: string)
    requires TagBranch(response).None? && !Contains(response, Fence)
    ensures ExtractXmlContent(response) == Err(NoXml)
  {
  }

  /** A reply without tags whose lines include no fence line gives the error, even if "```" occurs inside a line. */
  lemma NoFenceLinesFails(response: string)
    requires TagBranch(response).None?
    requires forall i :: 0 <= i < |RustLines(response)| ==> !IsFenceLine(RustLines(response)[i])
    ensures ExtractXmlContent(response) == Err(NoXml)
  {
    NoFenceNothingKept(RustLines(response), IsFenceLine);
    ScanKeepsInside(RustLines(response), IsFenceLine);
  }

  /** The extraction with its line loop. */
  method ExtractXml(response: string) returns (r: Result<string, string>)
    ensures r == ExtractXmlContent(response)
  {
    var tagged := TagBranch(response);
    if tagged.Some? {
      return Ok(tagged.value);
    }
    if Contains(response, XmlFence) || Contains(response, Fence) {
      var content := ScanFences(RustLines(response));
      if content != "" {
        assert FencedContent(RustLines(response)) == Some(Trim(Rust, content));
        return Ok(Trim(Rust, content));
      }
    }
    return Err(NoXml);
  }

  // ---------------------------------------------------------------------
  // The relevance score

  /** A character of a regex word: ASCII letters and digits and the underscore. */
  predicate WordChar(c: char)
  {
    AsciiAlnum(c) || c == '_'
  }

  /** Whether position k of s is inside a word (false outside the text). */
  predicate WordAt(s: string, k: int)
  {
    0 <= k < |s| && WordChar(s[k])
  }

  /** A word boundary `\b` at position k: a word character on exactly one side. */
  predicate Boundary(s: string, k: nat)
  {
    WordAt(s, k - 1) != WordAt(s, k)
  }

  /** `\b(\d{1,3})\b` matches s[i..j]. */
  predicate MatchAt(s: string, i: nat, j: nat)
  {
    i < j <= |s| && j - i <= 3 && Boundary(s, i) && Boundary(s, j)
    && forall k :: i <= k < j ==> AsciiDigit(s[k])
  }

  /** The match the regex engine reports at i, trying three, two and one digits. */
  function MatchFrom(s: string, i: nat): (r: Option<nat>)
    ensures r.Some? ==> MatchAt(s, i, r.value)
    ensures r.None? ==> forall j :: !MatchAt(s, i, j)
  {
    if MatchAt(s, i, i + 3) then Some(i + 3)
    else if MatchAt(s, i, i + 2) then Some(i + 2)
    else if MatchAt(s, i, i + 1) then Some(i + 1)
    else None
  }

  /** The leftmost match starting at or after `from`. */
  function FirstMatch(s: string, from: nat): (r: Option<(nat, nat)>)
    ensures r.Some? ==> from <= r.value.0 && MatchAt(s, r.value.0, r.value.1)
    ensures r.Some? ==> forall i, j :: from <= i < r.value.0 ==> !MatchAt(s, i, j)
    ensures r.None? ==> forall i, j :: from <= i ==> !MatchAt(s, i, j)
    decreases |s| + 1 - from
  {
    if from > |s| then None
    else
      match MatchFrom(s, from)
      case Some(j) => Some((from, j))
      case None => FirstMatch(s, from + 1)
  }

  /** The value of a string of ASCII digits. */
  function DecimalValue(d: string): (n: nat)
    requires forall k :: 0 <= k < |d| ==> AsciiDigit(d[k])
  {
    if d == [] then 0
    else
      var last := d[|d| - 1];
      assert AsciiDigit(last);
      DecimalValue(d[..|d| - 1]) * 10 + (last as int - '0' as int)
  }

  /** The first number of one to three digits that stands alone in the text, clamped to 0..100. */
  function ParseRelevanceScore(text: string): (r: Result<int, string>)
    ensures r.Ok? ==> 0 <= r.value <= 100
    ensures r.Err? <==> forall i, j :: !MatchAt(text, i, j)
    ensures r.Err? ==> r.error == "No valid score found in the response"
  {
    match FirstMatch(text, 0)
    case None => Err("No valid score found in the response")
    case Some((i, j)) =>
      var score := DecimalValue(text[i..j]);
      Ok(if score > 100 then 100 else score)
  }

  /** A number below 100 standing alone is the score itself. */
  lemma SmallScoreKept(text: string)
    requires FirstMatch(text, 0).Some?
    requires DecimalValue(text[FirstMatch(text, 0).value.0..FirstMatch(text, 0).value.1]) <= 100
    ensures ParseRelevanceScore(text)
      == Ok(DecimalValue(text[FirstMatch(text, 0).value.0..FirstMatch(text, 0).value.1]))
  {
  }

  /** A first number above 100 is clamped to 100. */
  lemma LargeScoreCapped(text: string)
    requires FirstMatch(text, 0).Some?
    requires DecimalValue(text[FirstMatch(text, 0).value.0..FirstMatch(text, 0).value.1]) > 100
    ensures ParseRelevanceScore(text) == Ok(100)
  {
  }

  /** A match starting at a given position has only one end: a boundary cannot fall inside a digit run. */
  lemma MatchEndUnique(s: string, i: nat, j: nat, j': nat)
    requires MatchAt(s, i, j) && MatchAt(s, i, j')
    ensures j == j'
  {
    if j < j' {
      assert AsciiDigit(s[j - 1]) && AsciiDigit(s[j]);
      assert WordAt(s, j - 1) && WordAt(s, j);
    } else if j' < j {
      assert AsciiDigit(s[j' - 1]) && AsciiDigit(s[j']);
      assert WordAt(s, j' - 1) && WordAt(s, j');
    }
  }

  /**
   * The score is the leftmost standalone number of one to three digits,
   * clamped to 100: whichever match no other match precedes decides it.
   */
  lemma LeftmostScore(text: string, i: nat, j: nat)
    requires MatchAt(text, i, j)
    requires forall i': nat, j': nat :: i' < i ==> !MatchAt(text, i', j')
    ensures ParseRelevanceScore(text)
            == Ok(if DecimalValue(text[i..j]) > 100 then 100 else DecimalValue(text[i..j]))
  {
    var m := FirstMatch(text, 0);
    assert m.Some?;
    var (i', j') := m.value;
    assert !(i < i');
    assert i' == i;
    MatchEndUnique(text, i, j, j');
  }

  /** A run of four digits holds no match: no boundary falls inside it and it is too long. */
  lemma FourDigitsNoScore()
    ensures ParseRelevanceScore("1234").Err?
  {
    var s := "1234";
    forall i: nat, j: nat ensures !MatchAt(s, i, j) {
      if MatchAt(s, i, j) {
        assert WordAt(s, 0) && WordAt(s, 1) && WordAt(s, 2) && WordAt(s, 3);
        assert false;
      }
    }
  }

  /** "Score: 250" gives the clamped 100. */
  lemma LargeScoreClamped()
    ensures ParseRelevanceScore("Score: 250") == Ok(100)
  {
    var s := "Score: 250";
    forall i: nat, j: nat | i < 7 ensures !MatchAt(s, i, j) {
    }
    assert MatchAt(s, 7, 10);
    assert FirstMatch(s, 7) == Some((7, 10));
    FirstMatchSkips(s, 0, 7);
    assert s[7..10] == "250";
    DecimalTwoFifty();
  }

  lemma DecimalTwoFifty()
    ensures DecimalValue("250") == 250
  {
    assert DecimalValue("2") == 2;
    assert "25"[..1] == "2";
    assert DecimalValue("25") == 25;
    assert "250"[..2] == "25";
  }

  /** The leftmost search moves over positions where nothing matches. */
  lemma {:induction false} FirstMatchSkips(s: string, from: nat, to: nat)
    requires from <= to <= |s|
    requires forall i, j :: from <= i < to ==> !MatchAt(s, i, j)
    ensures FirstMatch(s, from) == FirstMatch(s, to)
    decreases (to as int) - (from as int)
  {
    if from < to {
      assert MatchFrom(s, from).None?;
      FirstMatchSkips(s, from + 1, to);
    }
  }

  // ---------------------------------------------------------------------
  // Counting corrections

  /** The error types of a correction forest in pre-order: each correction, then its children. */
  function ErrorTypes(corrections: seq<Annotated.Entry>): (r: seq<string>)
    decreases corrections
  {
    if corrections == [] then []
    else [corrections[0].errorType] + ErrorTypes(corrections[0].children) + ErrorTypes(corrections[1..])
  }

  /** The number of corrections in a forest, counting every nesting level. */
  function Size(corrections: seq<Annotated.Entry>): (n: nat)
    decreases corrections
  {
    if corrections == [] then 0
    else 1 + Size(corrections[0].children) + Size(corrections[1..])
  }

  lemma {:induction false} ErrorTypesSize(corrections: seq<Annotated.Entry>)
    ensures |ErrorTypes(corrections)| == Size(corrections)
    decreases corrections
  {
    if corrections != [] {
      ErrorTypesSize(corrections[0].children);
      ErrorTypesSize(corrections[1..]);
    }
  }

  /** The count of a map, zero for an absent key. */
  function Get(m: map<string, int>, t: string): int
  {
    if t in m then m[t] else 0
  }

  /** `*entry(t).or_insert(0) += 1`. */
  function Bump(m: map<string, int>, t: string): (r: map<string, int>)
    ensures r.Keys == m.Keys + {t}
    ensures Get(r, t) == Get(m, t) + 1
    ensures forall u :: u != t ==> Get(r, u) == Get(m, u)
  {
    m[t := Get(m, t) + 1]
  }

  /** The map after bumping every type of the list in order. */
  function BumpAll(m: map<string, int>, types: seq<string>): map<string, int>
    decreases types
  {
    if types == [] then m else BumpAll(Bump(m, types[0]), types[1..])
  }

  lemma {:induction false} BumpAllAppend(m: map<string, int>, a: seq<string>, b: seq<string>)
    ensures BumpAll(m, a + b) == BumpAll(BumpAll(m, a), b)
    decreases a
  {
    if a != [] {
      assert (a + b)[1..] == a[1..] + b;
      BumpAllAppend(Bump(m, a[0]), a[1..], b);
    } else {
      assert a + b == b;
    }
  }

  /** After bumping, each count grew by its number of occurrences, and the keys are the old ones plus the new types. */
  lemma BumpAllCounts(m: map<string, int>, types: seq<string>)
    ensures BumpAll(m, types).Keys == m.Keys + set t | t in types
    ensures forall t :: Get(BumpAll(m, types), t) == Get(m, t) + multiset(types)[t]
  {
    BumpAllKeys(m, types);
    BumpAllGet(m, types);
  }

  lemma {:induction false} BumpAllKeys(m: map<string, int>, types: seq<string>)
    ensures BumpAll(m, types).Keys == m.Keys + set t | t in types
    decreases types
  {
    if types != [] {
      BumpAllKeys(Bump(m, types[0]), types[1..]);
      assert types == [types[0]] + types[1..];
      assert (set t | t in types) == {types[0]} + set t | t in types[1..];
    }
  }

  lemma {:induction false} BumpAllGet(m: map<string, int>, types: seq<string>)
    ensures forall t :: Get(BumpAll(m, types), t) == Get(m, t) + multiset(types)[t]
    decreases types
  {
    if types != [] {
      BumpAllGet(Bump(m, types[0]), types[1..]);
      assert types == [types[0]] + types[1..];
      assert multiset(types) == multiset{types[0]} + multiset(types[1..]);
    }
  }

  /** Bumping the types of [c] + children in turn: the step of the counting loop. */
  lemma ErrorTypesStep(corrections: seq<Annotated.Entry>, i: nat)
    requires i < |corrections|
    ensures ErrorTypes(corrections[..i + 1])
      == ErrorTypes(corrections[..i]) + ([corrections[i].errorType] + ErrorTypes(corrections[i].children))
  {
    ErrorTypesAppend(corrections[..i], [corrections[i]]);
    assert corrections[..i] + [corrections[i]] == corrections[..i + 1];
    assert [corrections[i]][1..] == [];
  }

  lemma {:induction false} ErrorTypesAppend(a: seq<Annotated.Entry>, b: seq<Annotated.Entry>)
    ensures ErrorTypes(a + b) == ErrorTypes(a) + ErrorTypes(b)
  {
    if a != [] {
      assert (a + b)[0] == a[0];
      assert (a + b)[1..] == a[1..] + b;
      ErrorTypesAppend(a[1..], b);
      var head := [a[0].errorType] + ErrorTypes(a[0].children);
      calc {
        ErrorTypes(a + b);
        head + ErrorTypes(a[1..] + b);
        head + (ErrorTypes(a[1..]) + ErrorTypes(b));
        { AppendAssoc(head, ErrorTypes(a[1..]), ErrorTypes(b)); }
        (head + ErrorTypes(a[1..])) + ErrorTypes(b);
      }
    } else {
      assert a + b == b;
    }
  }

  /**
   * `count_nested_corrections`: every descendant of `correction` adds one to
   * the total and one to the count of its error type.
   */
  method CountNested(correction: Annotated.Entry, types: map<string, int>, total: int)
    returns (types': map<string, int>, total': int)
    ensures total' == total + |ErrorTypes(correction.children)|
    ensures types' == BumpAll(types, ErrorTypes(correction.children))
    decreases correction
  {
    types', total' := types, total;
    var children := correction.children;
    for i := 0 to |children|
      invariant total' == total + |ErrorTypes(children[..i])|
      invariant types' == BumpAll(types, ErrorTypes(children[..i]))
    {
      var child := children[i];
      ghost var before := ErrorTypes(children[..i]);
      total' := total' + 1;
      types' := Bump(types', child.errorType);
      types', total' := CountNested(child, types', total');
      ErrorTypesStep(children, i);
      BumpAllAppend(types, before, [child.errorType] + ErrorTypes(child.children));
      BumpAllAppend(BumpAll(types, before), [child.errorType], ErrorTypes(child.children));
    }
    assert children[..|children|] == children;
  }

  /**
   * `count_corrections` over the parser's result: a parse error counts
   * nothing; otherwise the total is the number of corrections at every
   * depth and the map holds, per error type, how many of them carry it.
   */
  method CountCorrections(parsed: Result<Annotated.ParsedText, Annotated.ParserError>)
    returns (total: int, types: map<string, int>)
    ensures parsed.Err? ==> total == 0 && types == map[]
    ensures parsed.Ok? ==> total == |ErrorTypes(parsed.value.corrections)|
    ensures parsed.Ok? ==> types == BumpAll(map[], ErrorTypes(parsed.value.corrections))
  {
    if parsed.Err? {
      return 0, map[];
    }
    var corrections := parsed.value.corrections;
    total, types := 0, map[];
    for i := 0 to |corrections|
      invariant total == |ErrorTypes(corrections[..i])|
      invariant types == BumpAll(map[], ErrorTypes(corrections[..i]))
    {
      var correction := corrections[i];
      ghost var before := ErrorTypes(corrections[..i]);
      total := total + 1;
      types := Bump(types, correction.errorType);
      types, total := CountNested(correction, types, total);
      ErrorTypesStep(corrections, i);
      BumpAllAppend(map[], before, [correction.errorType] + ErrorTypes(correction.children));
      BumpAllAppend(BumpAll(map[], before), [correction.errorType], ErrorTypes(correction.children));
    }
    assert corrections[..|corrections|] == corrections;
  }

  /**
   * What the counts mean: the total is the number of corrections in the
   * whole tree, each error type's count is the number of corrections
   * carrying it, exactly the occurring types are keys, and so the counts
   * add up to the total.
   */
  lemma CountsAreTypeMultiset(corrections: seq<Annotated.Entry>)
    ensures |ErrorTypes(corrections)| == Size(corrections)
    ensures BumpAll(map[], ErrorTypes(corrections)).Keys == set t | t in ErrorTypes(corrections)
    ensures forall t :: Get(BumpAll(map[], ErrorTypes(corrections)), t) == multiset(ErrorTypes(corrections))[t]
    ensures |multiset(ErrorTypes(corrections))| == Size(corrections)
  {
    ErrorTypesSize(corrections);
    BumpAllCounts(map[], ErrorTypes(corrections));
  }
}
