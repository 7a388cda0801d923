/*
 * The flash-card renderer: Markdown events turned into HTML, where in
 * cloze mode every bold or italic span becomes a numbered cloze deletion
 * `{{cN::...}}`, and the text of a fenced code block is collected and
 * written out HTML-escaped when the block ends. The Markdown parser is
 * left out: the renderer is given the event sequence it would produce.
 */
module MarkiWasm {
  import opened Text

  // ---------------------------------------------------------------------
  // HTML escaping

  /** The escape of one character. */
  function EscapeChar(c: char): string
  {
    match c
    case '&' => "&amp;"
    case '<' => "&lt;"
    case '>' => "&gt;"
    case '"' => "&quot;"
    case '\'' => "&#39;"
    case _ => [c]
  }

  /** Each character of `s` replaced by `f` of it. */
  function FlatMap(s: string, f: char -> string): string
  {
    if s == [] then [] else f(s[0]) + FlatMap(s[1..], f)
  }

  lemma {:induction false} FlatMapAppend(a: string, b: string, f: char -> string)
    ensures FlatMap(a + b, f) == FlatMap(a, f) + FlatMap(b, f)
  {
    if a != [] {
      assert (a + b)[1..] == a[1..] + b;
      FlatMapAppend(a[1..], b, f);
      AppendAssoc(f(a[0]), FlatMap(a[1..], f), FlatMap(b, f));
    } else {
      assert a + b == b;
    }
  }

  lemma {:induction false} FlatMapUnchanged(s: string, f: char -> string)
    requires forall i :: 0 <= i < |s| ==> f(s[i]) == [s[i]]
    ensures FlatMap(s, f) == s
  {
    if s != [] {
      FlatMapUnchanged(s[1..], f);
      assert s == [s[0]] + s[1..];
    }
  }

  /** Rust's `str::replace` with a one-character pattern. */
  function ReplaceChar(s: string, c: char, rep: string): string
  {
    if s == [] then [] else (if s[0] == c then rep else [s[0]]) + ReplaceChar(s[1..], c, rep)
  }

  /** The escaper as written: five replacements in a row, `&` first. A
      text holding none of the five characters comes back unchanged. */
  function HtmlEscape(text: string): (r: string)
    ensures '&' !in text && '<' !in text && '>' !in text && '"' !in text && '\'' !in text ==> r == text
  {
    var escaped := ReplaceChar(ReplaceChar(ReplaceChar(ReplaceChar(ReplaceChar(text, '&', "&amp;"), '<', "&lt;"),
      '>', "&gt;"), '"', "&quot;"), '\'', "&#39;");
    if '&' in text || '<' in text || '>' in text || '"' in text || '\'' in text then escaped
    else
      ReplaceCharAbsent(text, '&', "&amp;");
      ReplaceCharAbsent(text, '<', "&lt;");
      ReplaceCharAbsent(text, '>', "&gt;");
      ReplaceCharAbsent(text, '"', "&quot;");
      ReplaceCharAbsent(text, '\'', "&#39;");
      escaped
  }

  lemma {:induction false} ReplaceCharAppend(a: string, b: string, c: char, rep: string)
    ensures ReplaceChar(a + b, c, rep) == ReplaceChar(a, c, rep) + ReplaceChar(b, c, rep)
  {
    if a != [] {
      assert (a + b)[1..] == a[1..] + b;
      ReplaceCharAppend(a[1..], b, c, rep);
      AppendAssoc(if a[0] == c then rep else [a[0]], ReplaceChar(a[1..], c, rep), ReplaceChar(b, c, rep));
    } else {
      assert a + b == b;
    }
  }

  lemma {:induction false} ReplaceCharAbsent(s: string, c: char, rep: string)
    requires c !in s
    ensures ReplaceChar(s, c, rep) == s
  {
    if s != [] {
      assert s[0] in s;
      assert forall x :: x in s[1..] ==> x in s;
      ReplaceCharAbsent(s[1..], c, rep);
      assert s == [s[0]] + s[1..];
    }
  }

  lemma ReplaceCharOne(x: char, c: char, rep: string)
    ensures ReplaceChar([x], c, rep) == if x == c then rep else [x]
  {
    assert [x][1..] == [];
  }

  /** The five replacements of the escaper applied to an already
      replaced piece that contains none of the later characters. */
  lemma LaterReplacementsSkip(s: string)
    requires '<' !in s && '>' !in s && '"' !in s && '\'' !in s
    ensures ReplaceChar(ReplaceChar(ReplaceChar(ReplaceChar(s, '<', "&lt;"), '>', "&gt;"), '"', "&quot;"), '\'', "&#39;") == s
  {
    ReplaceCharAbsent(s, '<', "&lt;");
    ReplaceCharAbsent(s, '>', "&gt;");
    ReplaceCharAbsent(s, '"', "&quot;");
    ReplaceCharAbsent(s, '\'', "&#39;");
  }

  /** The escaper on one character. */
  lemma EscapeOne(c: char)
    ensures HtmlEscape([c]) == EscapeChar(c)
  {
    if c == '&' {
      EscapeAmp();
    } else if c == '<' {
      EscapeLt();
    } else if c == '>' {
      EscapeGt();
    } else if c == '"' {
      EscapeQuot();
    } else if c == '\'' {
      EscapeApos();
    } else {
      EscapeOther(c);
    }
  }

  lemma EscapeAmp()
    ensures HtmlEscape("&") == "&amp;"
  {
    ReplaceCharOne('&', '&', "&amp;");
    LaterReplacementsSkip("&amp;");
  }

  lemma EscapeLt()
    ensures HtmlEscape("<") == "&lt;"
  {
    assert ReplaceChar("<", '&', "&amp;") == "<" by { ReplaceCharOne('<', '&', "&amp;"); }
    assert ReplaceChar("<", '<', "&lt;") == "&lt;" by { ReplaceCharOne('<', '<', "&lt;"); }
    LaterSkip3("&lt;");
  }

  lemma EscapeGt()
    ensures HtmlEscape(">") == "&gt;"
  {
    assert ReplaceChar(">", '&', "&amp;") == ">" by { ReplaceCharOne('>', '&', "&amp;"); }
    assert ReplaceChar(">", '<', "&lt;") == ">" by { ReplaceCharOne('>', '<', "&lt;"); }
    assert ReplaceChar(">", '>', "&gt;") == "&gt;" by { ReplaceCharOne('>', '>', "&gt;"); }
    LaterSkip2("&gt;");
  }

  lemma EscapeQuot()
    ensures HtmlEscape("\"") == "&quot;"
  {
    assert ReplaceChar("\"", '&', "&amp;") == "\"" by { ReplaceCharOne('"', '&', "&amp;"); }
    assert ReplaceChar("\"", '<', "&lt;") == "\"" by { ReplaceCharOne('"', '<', "&lt;"); }
    assert ReplaceChar("\"", '>', "&gt;") == "\"" by { ReplaceCharOne('"', '>', "&gt;"); }
    assert ReplaceChar("\"", '"', "&quot;") == "&quot;" by { ReplaceCharOne('"', '"', "&quot;"); }
    assert ReplaceChar("&quot;", '\'', "&#39;") == "&quot;" by { ReplaceCharAbsent("&quot;", '\'', "&#39;"); }
  }

  lemma EscapeApos()
    ensures HtmlEscape("'") == "&#39;"
  {
    assert ReplaceChar("'", '&', "&amp;") == "'" by { ReplaceCharOne('\'', '&', "&amp;"); }
    assert ReplaceChar("'", '<', "&lt;") == "'" by { ReplaceCharOne('\'', '<', "&lt;"); }
    assert ReplaceChar("'", '>', "&gt;") == "'" by { ReplaceCharOne('\'', '>', "&gt;"); }
    assert ReplaceChar("'", '"', "&quot;") == "'" by { ReplaceCharOne('\'', '"', "&quot;"); }
    assert ReplaceChar("'", '\'', "&#39;") == "&#39;" by { ReplaceCharOne('\'', '\'', "&#39;"); }
  }

  lemma LaterSkip3(s: string)
    requires '>' !in s && '"' !in s && '\'' !in s
    ensures ReplaceChar(ReplaceChar(ReplaceChar(s, '>', "&gt;"), '"', "&quot;"), '\'', "&#39;") == s
  {
    ReplaceCharAbsent(s, '>', "&gt;");
    LaterSkip2(s);
  }

  lemma LaterSkip2(s: string)
    requires '"' !in s && '\'' !in s
    ensures ReplaceChar(ReplaceChar(s, '"', "&quot;"), '\'', "&#39;") == s
  {
    ReplaceCharAbsent(s, '"', "&quot;");
    ReplaceCharAbsent(s, '\'', "&#39;");
  }

  lemma EscapeOther(c: char)
    requires c !in "&<>\"'"
    ensures HtmlEscape([c]) == [c]
  {
    ReplaceCharAbsent([c], '&', "&amp;");
    ReplaceCharAbsent([c], '<', "&lt;");
    ReplaceCharAbsent([c], '>', "&gt;");
    ReplaceCharAbsent([c], '"', "&quot;");
    ReplaceCharAbsent([c], '\'', "&#39;");
  }

  lemma HtmlEscapeAppend(a: string, b: string)
    ensures HtmlEscape(a + b) == HtmlEscape(a) + HtmlEscape(b)
  {
    var s1a, s1b := ReplaceChar(a, '&', "&amp;"), ReplaceChar(b, '&', "&amp;");
    ReplaceCharAppend(a, b, '&', "&amp;");
    var s2a, s2b := ReplaceChar(s1a, '<', "&lt;"), ReplaceChar(s1b, '<', "&lt;");
    ReplaceCharAppend(s1a, s1b, '<', "&lt;");
    var s3a, s3b := ReplaceChar(s2a, '>', "&gt;"), ReplaceChar(s2b, '>', "&gt;");
    ReplaceCharAppend(s2a, s2b, '>', "&gt;");
    var s4a, s4b := ReplaceChar(s3a, '"', "&quot;"), ReplaceChar(s3b, '"', "&quot;");
    ReplaceCharAppend(s3a, s3b, '"', "&quot;");
    ReplaceCharAppend(s4a, s4b, '\'', "&#39;");
  }

  /** The chain of replacements escapes each character on its own: no
      replacement touches what an earlier one wrote. */
  lemma {:induction false} EscapeByChar(text: string)
    ensures HtmlEscape(text) == FlatMap(text, EscapeChar)
  {
    if text == [] {
    } else {
      assert text == [text[0]] + text[1..];
      HtmlEscapeAppend([text[0]], text[1..]);
      EscapeOne(text[0]);
      EscapeByChar(text[1..]);
    }
  }

  /** No raw markup character survives the escaper. */
  lemma {:induction false} EscapedIsInert(text: string)
    ensures forall i :: 0 <= i < |HtmlEscape(text)| ==> HtmlEscape(text)[i] !in "<>\"'"
  {
    EscapeByChar(text);
    InertFlatMap(text);
  }

  lemma {:induction false} InertFlatMap(text: string)
    ensures forall i :: 0 <= i < |FlatMap(text, EscapeChar)| ==> FlatMap(text, EscapeChar)[i] !in "<>\"'"
  {
    if text != [] {
      InertFlatMap(text[1..]);
      var head := EscapeChar(text[0]);
      var rest := FlatMap(text[1..], EscapeChar);
      assert forall i :: 0 <= i < |head| ==> head[i] !in "<>\"'";
      forall i | 0 <= i < |head + rest|
        ensures (head + rest)[i] !in "<>\"'"
      {
        if i >= |head| {
          assert (head + rest)[i] == rest[i - |head|];
        }
      }
    }
  }

  /** Which escaped character an entity at the start of `s` stands for. */
  function EntityAt(s: string): (r: Option<char>)
    ensures r.Some? ==> StartsWith(s, EscapeChar(r.value)) && |EscapeChar(r.value)| > 1
  {
    if |s| < 2 || s[0] != '&' then None
    else if s[1] == 'a' && StartsWith(s, "&amp;") then Some('&')
    else if s[1] == 'l' && StartsWith(s, "&lt;") then Some('<')
    else if s[1] == 'g' && StartsWith(s, "&gt;") then Some('>')
    else if s[1] == 'q' && StartsWith(s, "&quot;") then Some('"')
    else if s[1] == '#' && StartsWith(s, "&#39;") then Some('\'')
    else None
  }

  /** Reading the five entities back. */
  function Unescape(s: string): string
    decreases |s|
  {
    if s == [] then []
    else match EntityAt(s)
      case Some(c) => [c] + Unescape(s[|EscapeChar(c)|..])
      case None => [s[0]] + Unescape(s[1..])
  }

  lemma EntityOfEscape(c: char, rest: string)
    ensures EntityAt(EscapeChar(c) + rest) == if |EscapeChar(c)| > 1 then Some(c) else None
  {
    var s := EscapeChar(c) + rest;
    if |EscapeChar(c)| > 1 {
      assert s[..|EscapeChar(c)|] == EscapeChar(c);
    }
  }

  /** Unescaping gives back exactly what was escaped. */
  lemma {:induction false} UnescapeEscape(text: string)
    ensures Unescape(HtmlEscape(text)) == text
  {
    EscapeByChar(text);
    UnescapeFlatMap(text);
  }

  lemma {:induction false} UnescapeFlatMap(text: string)
    ensures Unescape(FlatMap(text, EscapeChar)) == text
  {
    if text != [] {
      var c := text[0];
      var rest := FlatMap(text[1..], EscapeChar);
      UnescapeCons(c, rest);
      UnescapeFlatMap(text[1..]);
      assert text == [c] + text[1..];
    }
  }

  /** An escaped character followed by anything reads back as that
      character followed by the rest read back. */
  lemma UnescapeCons(c: char, rest: string)
    ensures Unescape(EscapeChar(c) + rest) == [c] + Unescape(rest)
  {
    EntityOfEscape(c, rest);
    var s := EscapeChar(c) + rest;
    assert s[|EscapeChar(c)|..] == rest;
  }

  // ---------------------------------------------------------------------
  // Events

  datatype HeadingLevel = H1 | H2 | H3 | H4 | H5 | H6

  function HeadingTag(level: HeadingLevel): string
  {
    match level
    case H1 => "h1"
    case H2 => "h2"
    case H3 => "h3"
    case H4 => "h4"
    case H5 => "h5"
    case H6 => "h6"
  }

  datatype CodeBlockKind = Fenced(lang: string) | Indented

  /** The Markdown parser's events, as far as the renderer tells them
      apart; `Other` stands for every event it ignores. */
  datatype Event =
    | StartStrong | EndStrong
    | StartEmphasis | EndEmphasis
    | StartCodeBlock(kind: CodeBlockKind) | EndCodeBlock
    | Text(text: string)
    | SoftBreak | HardBreak
    | StartParagraph | EndParagraph
    | StartHeading(level: HeadingLevel) | EndHeading(level: HeadingLevel)
    | StartList(ordered: bool) | EndList(ordered: bool)
    | StartItem | EndItem
    | StartBlockQuote | EndBlockQuote
    | StartLink(destUrl: string) | EndLink
    | Code(code: string)
    | Rule
    | Other

  /** The locals of one render and the cloze counter. */
  datatype RenderState = RenderState(output: string, inCodeBlock: bool, codeBuffer: string, codeLang: string,
                                     counter: nat)

  function ClozeOpen(n: nat): string
  {
    "{{c" + NatToString(n) + "::"
  }

  const ClozeClose := "}}"

  function CodeHtml(lang: string, escaped: string): string
  {
    "<pre class=\"code\"><code class=\"language-" + lang + "\">" + escaped + "</code></pre>"
  }

  predicate OpensSpan(e: Event)
  {
    e.StartStrong? || e.StartEmphasis?
  }

  predicate ClosesSpan(e: Event)
  {
    e.EndStrong? || e.EndEmphasis?
  }

  /** The fixed markup of the events that only write a tag; nothing for
      a horizontal rule (the divider between the two sides of a card)
      and for the ignored events. */
  function Markup(e: Event): string
  {
    match e
    case StartParagraph => "<p>"
    case EndParagraph => "</p>"
    case StartHeading(level) => "<" + HeadingTag(level) + ">"
    case EndHeading(level) => "</" + HeadingTag(level) + ">"
    case StartList(ordered) => if ordered then "<ol>" else "<ul>"
    case EndList(ordered) => if ordered then "</ol>" else "</ul>"
    case StartItem => "<li>"
    case EndItem => "</li>"
    case StartBlockQuote => "<blockquote>"
    case EndBlockQuote => "</blockquote>"
    case StartLink(dest) => "<a href=\"" + dest + "\">"
    case EndLink => "</a>"
    case Code(code) => "<code>" + code + "</code>"
    case _ => ""
  }

  /** What one event does to the render state. */
  function Step(isCloze: bool, st: RenderState, e: Event): RenderState
  {
    match e
    case StartStrong =>
      if isCloze then st.(counter := st.counter + 1, output := st.output + ClozeOpen(st.counter + 1))
      else st.(output := st.output + "<strong>")
    case EndStrong => st.(output := st.output + if isCloze then ClozeClose else "</strong>")
    case StartEmphasis =>
      if isCloze then st.(counter := st.counter + 1, output := st.output + ClozeOpen(st.counter + 1))
      else st.(output := st.output + "<em>")
    case EndEmphasis => st.(output := st.output + if isCloze then ClozeClose else "</em>")
    case StartCodeBlock(Fenced(lang)) => st.(inCodeBlock := true, codeLang := lang, codeBuffer := "")
    case StartCodeBlock(Indented) => st
    case EndCodeBlock =>
      if st.inCodeBlock then st.(output := st.output + CodeHtml(st.codeLang, HtmlEscape(st.codeBuffer)),
                                 inCodeBlock := false)
      else st
    case Text(text) =>
      if st.inCodeBlock then st.(codeBuffer := st.codeBuffer + text) else st.(output := st.output + text)
    case SoftBreak => if st.inCodeBlock then st.(codeBuffer := st.codeBuffer + "\n") else st.(output := st.output + "<br>")
    case HardBreak => if st.inCodeBlock then st.(codeBuffer := st.codeBuffer + "\n") else st.(output := st.output + "<br>")
    case _ => st.(output := st.output + Markup(e))
  }

  /** The state after a sequence of events. */
  function Run(isCloze: bool, st: RenderState, events: seq<Event>): RenderState
  {
    if events == [] then st else Step(isCloze, Run(isCloze, st, events[..|events| - 1]), events[|events| - 1])
  }

  lemma RunStep(isCloze: bool, st: RenderState, events: seq<Event>, i: nat)
    requires i < |events|
    ensures Run(isCloze, st, events[..i + 1]) == Step(isCloze, Run(isCloze, st, events[..i]), events[i])
  {
    assert events[..i + 1][..i] == events[..i];
  }

  /** The number of bold and italic spans opened. */
  function Openings(events: seq<Event>): nat
  {
    if events == [] then 0 else Openings(events[..|events| - 1]) + if OpensSpan(events[|events| - 1]) then 1 else 0
  }

  // ---------------------------------------------------------------------
  // The renderer

  class MarkdownRenderer {
    var isCloze: bool
    var clozeCounter: nat

    constructor(isCloze: bool)
      ensures this.isCloze == isCloze && clozeCounter == 0
    {
      this.isCloze := isCloze;
      clozeCounter := 0;
    }

    /** Renders the events; the cloze counter carries over to the next
        render on the same renderer. */
    method Render(events: seq<Event>) returns (output: string)
      modifies this
      ensures isCloze == old(isCloze)
      ensures var st := Run(isCloze, RenderState("", false, "", "", old(clozeCounter)), events);
              output == st.output && clozeCounter == st.counter
    {
      output := "";
      var inCodeBlock := false;
      var codeBuffer := "";
      var codeLang := "";
      ghost var start := RenderState("", false, "", "", clozeCounter);
      for i := 0 to |events|
        invariant isCloze == old(isCloze)
        invariant RenderState(output, inCodeBlock, codeBuffer, codeLang, clozeCounter) == Run(isCloze, start, events[..i])
      {
        RunStep(isCloze, start, events, i);
        match events[i] {
          case StartStrong =>
            if isCloze {
              clozeCounter := clozeCounter + 1;
              output := output + ClozeOpen(clozeCounter);
            } else {
              output := output + "<strong>";
            }
          case EndStrong =>
            if isCloze {
              output := output + ClozeClose;
            } else {
              output := output + "</strong>";
            }
          case StartEmphasis =>
            if isCloze {
              clozeCounter := clozeCounter + 1;
              output := output + ClozeOpen(clozeCounter);
            } else {
              output := output + "<em>";
            }
          case EndEmphasis =>
            if isCloze {
              output := output + ClozeClose;
            } else {
              output := output + "</em>";
            }
          case StartCodeBlock(Fenced(lang)) =>
            inCodeBlock := true;
            codeLang := lang;
            codeBuffer := "";
          case EndCodeBlock =>
            if inCodeBlock {
              output := output + CodeHtml(codeLang, HtmlEscape(codeBuffer));
              inCodeBlock := false;
            }
          case Text(text) =>
            if inCodeBlock {
              codeBuffer := codeBuffer + text;
            } else {
              output := output + text;
            }
          case SoftBreak =>
            if inCodeBlock {
              codeBuffer := codeBuffer + "\n";
            } else {
              output := output + "<br>";
            }
          case HardBreak =>
            if inCodeBlock {
              codeBuffer := codeBuffer + "\n";
            } else {
              output := output + "<br>";
            }
          case _ => output := output + Markup(events[i]);
        }
      }
      assert events[..|events|] == events;
    }
  }

  /** What `render_markdown` returns: the output of a fresh renderer. */
  function RenderedMarkdown(events: seq<Event>, isCloze: bool): string
  {
    Run(isCloze, RenderState("", false, "", "", 0), events).output
  }

  method RenderMarkdown(events: seq<Event>, isCloze: bool) returns (html: string)
    ensures html == RenderedMarkdown(events, isCloze)
  {
    var renderer := new MarkdownRenderer(isCloze);
    html := renderer.Render(events);
  }

  // ---------------------------------------------------------------------
  // What the renderer guarantees

  /** Rendering never takes back output: each event only appends. */
  lemma {:induction false} OutputOnlyGrows(isCloze: bool, st: RenderState, events: seq<Event>)
    ensures StartsWith(Run(isCloze, st, events).output, st.output)
  {
    if events != [] {
      var before := Run(isCloze, st, events[..|events| - 1]);
      OutputOnlyGrows(isCloze, st, events[..|events| - 1]);
      var after := Step(isCloze, before, events[|events| - 1]);
      assert after.output[..|before.output|] == before.output;
      assert before.output[..|st.output|] == st.output;
      assert after.output[..|st.output|] == before.output[..|st.output|];
    }
  }

  /** In cloze mode the counter counts the opened spans; otherwise it
      stays where it was. */
  lemma {:induction false} CounterCountsSpans(isCloze: bool, st: RenderState, events: seq<Event>)
    ensures Run(isCloze, st, events).counter == st.counter + if isCloze then Openings(events) else 0
  {
    if events != [] {
      CounterCountsSpans(isCloze, st, events[..|events| - 1]);
    }
  }

  /** The span opened by event `i` is cloze number one more than the
      spans opened before it, and a closing event writes "}}". */
  lemma ClozeNumbering(st: RenderState, events: seq<Event>, i: nat)
    requires i < |events|
    ensures OpensSpan(events[i]) ==> Run(true, st, events[..i + 1]).output
                                     == Run(true, st, events[..i]).output + ClozeOpen(st.counter + Openings(events[..i]) + 1)
    ensures ClosesSpan(events[i]) ==> Run(true, st, events[..i + 1]).output == Run(true, st, events[..i]).output + ClozeClose
  {
    assert events[..i + 1][..i] == events[..i];
    CounterCountsSpans(true, st, events[..i]);
  }

  /** Outside cloze mode the spans are plain HTML tags. */
  lemma PlainSpans(st: RenderState, e: Event)
    ensures e.StartStrong? ==> Step(false, st, e).output == st.output + "<strong>"
    ensures e.EndStrong? ==> Step(false, st, e).output == st.output + "</strong>"
    ensures e.StartEmphasis? ==> Step(false, st, e).output == st.output + "<em>"
    ensures e.EndEmphasis? ==> Step(false, st, e).output == st.output + "</em>"
    ensures Step(false, st, e).counter == st.counter
  {
  }

  /** A fresh renderer numbers its first cloze 1. */
  lemma FirstClozeIsOne(e: Event, events: seq<Event>)
    requires OpensSpan(e)
    ensures StartsWith(RenderedMarkdown([e] + events, true), ClozeOpen(1))
  {
    var all := [e] + events;
    var st0 := RenderState("", false, "", "", 0);
    assert all[..1] == [e];
    assert [e][..0] == [];
    assert Run(true, st0, [e]).output == ClozeOpen(1);
    var k := Run(true, st0, [e]);
    assert k.output == ClozeOpen(1);
    assert all[1..] == events;
    RunAppend(true, st0, [e], events);
    assert all == [e] + events;
    OutputOnlyGrows(true, k, events);
  }

  lemma {:induction false} RunAppend(isCloze: bool, st: RenderState, a: seq<Event>, b: seq<Event>)
    ensures Run(isCloze, st, a + b) == Run(isCloze, Run(isCloze, st, a), b)
    decreases |b|
  {
    if b == [] {
      assert a + b == a;
    } else {
      assert (a + b)[..|a + b| - 1] == a + b[..|b| - 1];
      RunAppend(isCloze, st, a, b[..|b| - 1]);
    }
  }

  /** Removing the horizontal rules changes nothing. */
  function WithoutRules(events: seq<Event>): (r: seq<Event>)
    ensures forall i :: 0 <= i < |r| ==> !r[i].Rule?
  {
    if events == [] then []
    else WithoutRules(events[..|events| - 1]) + if events[|events| - 1].Rule? then [] else [events[|events| - 1]]
  }

  lemma {:induction false} RulesInvisible(isCloze: bool, st: RenderState, events: seq<Event>)
    ensures Run(isCloze, st, WithoutRules(events)) == Run(isCloze, st, events)
  {
    if events != [] {
      var init := events[..|events| - 1];
      var last := events[|events| - 1];
      RulesInvisible(isCloze, st, init);
      if !last.Rule? {
        var w := WithoutRules(init) + [last];
        assert w[..|w| - 1] == WithoutRules(init);
      } else {
        assert WithoutRules(events) == WithoutRules(init);
      }
    }
  }

  /** Text and line breaks, as the code inside a block collects them. */
  predicate CodeContent(e: Event)
  {
    e.Text? || e.SoftBreak? || e.HardBreak?
  }

  function CodeText(body: seq<Event>): string
    requires forall i :: 0 <= i < |body| ==> CodeContent(body[i])
  {
    if body == [] then ""
    else
      var last := body[|body| - 1];
      CodeText(body[..|body| - 1]) + if last.Text? then last.text else "\n"
  }

  /** Inside a fenced block the text only collects; the output is
      untouched until the block ends. */
  lemma {:induction false} CodeCollects(isCloze: bool, st: RenderState, body: seq<Event>)
    requires st.inCodeBlock
    requires forall i :: 0 <= i < |body| ==> CodeContent(body[i])
    ensures Run(isCloze, st, body) == st.(codeBuffer := st.codeBuffer + CodeText(body))
  {
    if body != [] {
      CodeCollects(isCloze, st, body[..|body| - 1]);
      var last := body[|body| - 1];
      AppendAssoc(st.codeBuffer, CodeText(body[..|body| - 1]), if last.Text? then last.text else "\n");
    }
  }

  /** A fenced block comes out whole, escaped, when it ends. */
  lemma FencedBlock(isCloze: bool, st: RenderState, lang: string, body: seq<Event>)
    requires forall i :: 0 <= i < |body| ==> CodeContent(body[i])
    ensures var after := Run(isCloze, st, [StartCodeBlock(Fenced(lang))] + body + [EndCodeBlock]);
            after.output == st.output + CodeHtml(lang, HtmlEscape(CodeText(body))) && !after.inCodeBlock
  {
    var open := [StartCodeBlock(Fenced(lang))];
    assert open[..|open| - 1] == [];
    assert Run(isCloze, st, []) == st;
    var st1 := Run(isCloze, st, open);
    assert st1 == st.(inCodeBlock := true, codeLang := lang, codeBuffer := "");
    RunAppend(isCloze, st, open, body);
    CodeCollects(isCloze, st1, body);
    var st2 := Run(isCloze, st, open + body);
    assert st2 == st1.(codeBuffer := CodeText(body));
    var all := open + body + [EndCodeBlock];
    assert all[..|all| - 1] == open + body;
    assert Run(isCloze, st, all) == Step(isCloze, st2, EndCodeBlock);
  }
}
