// The `<file>` block that wrap_codeblocks.py prints for one source file:
// the header attributes, the file's lines inside a CDATA section, and the
// escape that keeps the section well formed.  An XML 1.0 CDATA section
// (section 2.7 of XML 1.0, Fifth Edition) runs from `<![CDATA[` to the
// first `]]>`, so a `]]>` inside a line is split across two sections.

module Cdata {
  import opened Text
  import Filetypes

  const Terminator: string := "]]>"
  const Opener: string := "<![CDATA["
  /** What a `]]>` of the file becomes: `]]` ends the section, `>` starts the next. */
  const Reopened: string := "]]]]><![CDATA[>"

  /** A `]]>` starts here. */
  predicate AtTerminator(s: string)
  {
    |s| >= 3 && s[0] == ']' && s[1] == ']' && s[2] == '>'
  }

  /** A `<![CDATA[` starts here. */
  predicate AtOpener(s: string)
  {
    |s| >= 9 && s[0] == '<' && s[..9] == Opener
  }

  /** The escape applied to each line before it is printed: every `]]>`,
      scanning left to right, becomes `]]]]><![CDATA[>`. */
  function Escape(line: string): (r: string)
    ensures |r| >= |line|
  {
    if line == [] then []
    else if AtTerminator(line) then Reopened + Escape(line[3..])
    else [line[0]] + Escape(line[1..])
  }

  /** The escape is Python's `str.replace("]]>", "]]]]><![CDATA[>")`. */
  lemma {:induction false} EscapeIsReplace(line: string)
    ensures Escape(line) == ReplaceAll(line, Terminator, Reopened)
    decreases |line|
  {
    if line != [] {
      assert StartsWith(line, Terminator) <==> AtTerminator(line) by {
        if |line| >= 3 {
          assert line[..3] == [line[0], line[1], line[2]];
        }
      }
      if AtTerminator(line) {
        EscapeIsReplace(line[3..]);
      } else {
        EscapeIsReplace(line[1..]);
      }
    }
  }

  /** How an XML reader reads element content that is a run of adjacent
      CDATA sections (the first `<![CDATA[` already consumed): the text of
      each section up to its first `]]>`, concatenated.  `None` when the
      content is not such a run: a section is never closed, or something
      other than a new section follows a `]]>`. */
  function Sections(t: string): (r: Option<string>)
    ensures r.Some? ==> |r.value| < |t|
    decreases |t|
  {
    if t == [] then None
    else if AtTerminator(t) then
      var rest := t[3..];
      if rest == [] then Some([])
      else if AtOpener(rest) then Sections(rest[9..])
      else None
    else match Sections(t[1..])
      case None => None
      case Some(c) => Some([t[0]] + c)
  }

  // ---------------------------------------------------------------------
  // The escape is undone by the reader

  /** A line without `]]>` is printed as it is. */
  lemma EscapeAbsent(line: string)
    requires !Contains(line, Terminator)
    ensures Escape(line) == line
  {
    EscapeIsReplace(line);
    ReplaceAllAbsent(line, Terminator, Reopened);
  }

  /** `Some` of `s` followed by what was read, or `None`. */
  function Prepend(s: string, o: Option<string>): (r: Option<string>)
    ensures r.Some? <==> o.Some?
  {
    match o
    case None => None
    case Some(c) => Some(s + c)
  }

  lemma PrependTwice(a: string, b: string, o: Option<string>)
    ensures Prepend(a, Prepend(b, o)) == Prepend(a + b, o)
  {
    if o.Some? {
      assert a + (b + o.value) == a + b + o.value;
    }
  }

  /** One step of the reader inside a section. */
  lemma SectionsChar(t: string)
    requires t != [] && !AtTerminator(t)
    ensures Sections(t) == Prepend([t[0]], Sections(t[1..]))
  {
  }

  /** The reader passes from one section to the next. */
  lemma SectionsNext(t: string)
    requires AtTerminator(t) && AtOpener(t[3..])
    ensures Sections(t) == Sections(t[12..])
  {
    assert t[3..][9..] == t[12..];
  }

  /** The reader takes a `]]>` written as `]]]]><![CDATA[>` back as `]]>`. */
  lemma ReopenedReads(e: string)
    ensures Sections(Reopened + e) == Prepend(Terminator, Sections(e))
  {
    ReopenedHead(e);
    ReopenedTail(e);
    PrependTwice("]]", ">", Sections(e));
    assert "]]" + ">" == Terminator;
  }

  /** The first two `]` stay in the section being read. */
  lemma ReopenedHead(e: string)
    ensures Sections(Reopened + e) == Prepend("]]", Sections((Reopened + e)[2..]))
  {
    var t := Reopened + e;
    assert t[0] == ']' && t[1] == ']' && t[2] == ']' && t[3] == ']' && t[4] == '>';
    SectionsChar(t);
    assert t[1..][2] == ']';
    SectionsChar(t[1..]);
    assert t[1..][1..] == t[2..];
    assert [t[0]] == "]" && [t[1..][0]] == "]";
    PrependTwice("]", "]", Sections(t[2..]));
    assert "]" + "]" == "]]";
  }

  /** Then `]]><![CDATA[` closes the section and opens the next, which
      starts with `>`. */
  lemma ReopenedTail(e: string)
    ensures Sections((Reopened + e)[2..]) == Prepend(">", Sections(e))
  {
    var t := (Reopened + e)[2..];
    assert t == Terminator + (Opener + (">" + e));
    assert t[3..] == Opener + (">" + e);
    assert t[3..][..9] == Opener;
    SectionsNext(t);
    assert t[12..] == ">" + e;
    SectionsChar(">" + e);
    assert (">" + e)[1..] == e;
    assert [(">" + e)[0]] == ">";
  }

  /** The first character of an escaped text is that of the text. */
  lemma EscapeHead(v: string, w: string)
    requires v != [] || w != []
    ensures (Escape(v) + w)[0] == (v + w)[0]
  {
    if v != [] && AtTerminator(v) {
      assert Escape(v) == Reopened + Escape(v[3..]);
    } else if v != [] {
      assert Escape(v) == [v[0]] + Escape(v[1..]);
    }
  }

  /** What may follow an escaped text without completing a `]]>` begun
      at its end: neither `>` nor `]>` at the start. */
  predicate Safe(w: string)
  {
    w == [] || (w[0] != '>' && !(|w| >= 2 && w[0] == ']' && w[1] == '>'))
  }

  /** A character followed by an escaped text and a safe text never starts
      a `]]>` unless the unescaped text did. */
  lemma NoNewTerminator(s: string, w: string)
    requires s != [] && !AtTerminator(s) && Safe(w)
    ensures !AtTerminator([s[0]] + Escape(s[1..]) + w)
  {
    var u := s[1..];
    var t := [s[0]] + Escape(u) + w;
    assert t[0] == s[0];
    if s[0] == ']' {
      if u == [] {
        assert t == [s[0]] + w;
        if |t| >= 3 { assert t[1] == w[0] && t[2] == w[1]; }
      } else if AtTerminator(u) {
        EscapeTerm(u);
        assert t[2] == ']';
      } else {
        EscapeChar(u);
        assert t[1] == u[0];
        if u[0] == ']' {
          if |u| >= 2 {
            EscapeHead(u[1..], w);
            assert t[2] == (Escape(u[1..]) + w)[0];
            assert s[2] == u[1] && t[2] == u[1];
          } else {
            assert u[1..] == [];
            assert t == [s[0], u[0]] + w;
            if |t| >= 3 { assert t[2] == w[0]; }
          }
        }
      }
    }
  }

  lemma EscapeTerm(s: string)
    requires AtTerminator(s)
    ensures Escape(s) == Reopened + Escape(s[3..])
  {
  }

  lemma EscapeChar(s: string)
    requires s != [] && !AtTerminator(s)
    ensures Escape(s) == [s[0]] + Escape(s[1..])
  {
  }

  /** Reading through an escaped text: whatever follows, the reader gives
      back the text itself, then what it reads of the rest. */
  lemma {:induction false} ReadThrough(s: string, w: string)
    requires Safe(w)
    ensures Sections(Escape(s) + w) == Prepend(s, Sections(w))
    decreases |s|
  {
    if s == [] {
      assert Escape(s) + w == w;
      match Sections(w)
      case None =>
      case Some(c) => assert s + c == c;
    } else if AtTerminator(s) {
      EscapeTerm(s);
      AppendAssoc(Reopened, Escape(s[3..]), w);
      ReopenedReads(Escape(s[3..]) + w);
      ReadThrough(s[3..], w);
      PrependTwice(Terminator, s[3..], Sections(w));
      assert s == Terminator + s[3..];
    } else {
      var u := s[1..];
      EscapeChar(s);
      AppendAssoc([s[0]], Escape(u), w);
      NoNewTerminator(s, w);
      SectionsChar([s[0]] + (Escape(u) + w));
      assert ([s[0]] + (Escape(u) + w))[1..] == Escape(u) + w;
      ReadThrough(u, w);
      PrependTwice([s[0]], u, Sections(w));
      assert [s[0]] + u == s;
    }
  }

  /** The round trip: whatever the line holds, including repeated or
      overlapping `]]>`, the reader gets back exactly the line from the
      escaped line followed by the closing `]]>`. */
  lemma RoundTrip(s: string)
    ensures Sections(Escape(s) + Terminator) == Some(s)
  {
    ReadThrough(s, Terminator);
    assert Terminator[3..] == [];
    assert s + [] == s;
  }

  /** Escaping splits over a concatenation whose second half cannot
      complete a `]]>` begun in the first. */
  lemma {:induction false} EscapeAppend(a: string, b: string)
    requires b == [] || (b[0] != ']' && b[0] != '>')
    ensures Escape(a + b) == Escape(a) + Escape(b)
    decreases |a|
  {
    if a == [] {
      assert a + b == b;
    } else if AtTerminator(a) {
      EscapeAppend(a[3..], b);
      AppendTermStep(a, b);
    } else {
      EscapeAppend(a[1..], b);
      AppendCharStep(a, b);
    }
  }

  lemma AppendTermStep(a: string, b: string)
    requires AtTerminator(a)
    requires Escape(a[3..] + b) == Escape(a[3..]) + Escape(b)
    ensures Escape(a + b) == Escape(a) + Escape(b)
  {
    var ab := a + b;
    assert ab[0] == a[0] && ab[1] == a[1] && ab[2] == a[2];
    EscapeTerm(ab);
    EscapeTerm(a);
    DropAppend(a, b, 3);
    AppendAssoc(Reopened, Escape(a[3..]), Escape(b));
  }

  lemma AppendCharStep(a: string, b: string)
    requires a != [] && !AtTerminator(a) && (b == [] || (b[0] != ']' && b[0] != '>'))
    requires Escape(a[1..] + b) == Escape(a[1..]) + Escape(b)
    ensures Escape(a + b) == Escape(a) + Escape(b)
  {
    var ab := a + b;
    assert ab[0] == a[0];
    assert !AtTerminator(ab) by {
      if |a| >= 3 {
        assert ab[1] == a[1] && ab[2] == a[2];
      } else if |a| == 2 && b != [] {
        assert ab[2] == b[0];
      } else if |a| == 1 && b != [] {
        assert ab[1] == b[0];
      }
    }
    EscapeChar(ab);
    EscapeChar(a);
    DropAppend(a, b, 1);
    AppendAssoc([a[0]], Escape(a[1..]), Escape(b));
  }

  /** A prefix without `]` passes through the escape unchanged. */
  lemma {:induction false} EscapePrefix(p: string, s: string)
    requires forall i :: 0 <= i < |p| ==> p[i] != ']'
    ensures Escape(p + s) == p + Escape(s)
    decreases |p|
  {
    if p == [] {
      assert p + s == s;
    } else {
      assert (p + s)[0] == p[0];
      assert (p + s)[1..] == p[1..] + s;
      EscapePrefix(p[1..], s);
      assert p == [p[0]] + p[1..];
    }
  }

  // ---------------------------------------------------------------------
  // Markup-significant characters in attribute values

  /** `xml.sax.saxutils.escape` with no extra entities: `&`, `<` and `>`. */
  function XmlEscape(s: string): (r: string)
    ensures forall i :: 0 <= i < |r| ==> r[i] != '<' && r[i] != '>'
    ensures |r| >= |s|
  {
    if s == [] then []
    else
      (match s[0]
       case '&' => "&amp;"
       case '<' => "&lt;"
       case '>' => "&gt;"
       case c => [c])
      + XmlEscape(s[1..])
  }

  /** The entity `e` starts here. */
  predicate AtEntity(s: string, e: string)
    requires |e| >= 2
  {
    |s| >= |e| && s[0] == e[0] && s[1] == e[1] && s[..|e|] == e
  }

  /** How a reader resolves the three entities. */
  function XmlUnescape(s: string): (r: string)
    ensures |r| <= |s|
  {
    if s == [] then []
    else if AtEntity(s, "&amp;") then "&" + XmlUnescape(s[5..])
    else if AtEntity(s, "&lt;") then "<" + XmlUnescape(s[4..])
    else if AtEntity(s, "&gt;") then ">" + XmlUnescape(s[4..])
    else [s[0]] + XmlUnescape(s[1..])
  }

  lemma {:induction false} XmlEscapeRoundTrip(s: string)
    ensures XmlUnescape(XmlEscape(s)) == s
    decreases |s|
  {
    if s != [] {
      var rest := XmlEscape(s[1..]);
      XmlEscapeRoundTrip(s[1..]);
      var t := XmlEscape(s);
      if s[0] == '&' {
        assert t == "&amp;" + rest && t[5..] == rest;
      } else if s[0] == '<' {
        assert t == "&lt;" + rest && t[4..] == rest;
      } else if s[0] == '>' {
        assert t == "&gt;" + rest && t[4..] == rest;
      } else {
        assert t == [s[0]] + rest && t[1..] == rest;
      }
      assert s == [s[0]] + s[1..];
    }
  }

  // ---------------------------------------------------------------------
  // The printed block

  /** What `os.stat` gave: the formatted modification time and the size. */
  datatype Stat = Stat(modified: string, size: nat)

  /** What reading the file gave: the lines `for line in f` yielded before
      the end of the file or before an error, and that error's message. */
  datatype Contents = Contents(lines: seq<string>, error: Option<string>)

  /** Python's `str.rstrip("\n")`. */
  function RStripNewlines(s: string): (r: string)
    ensures |r| <= |s| && r == s[..|r|] && (r == [] || r[|r| - 1] != '\n')
    ensures forall i :: |r| <= i < |s| ==> s[i] == '\n'
  {
    if s != [] && s[|s| - 1] == '\n' then
      var r := RStripNewlines(s[..|s| - 1]);
      assert forall i :: |r| <= i < |s| - 1 ==> s[i] == s[..|s| - 1][i];
      r
    else s
  }

  /** One printed content line. */
  function CdataLine(line: string): string
  {
    "      " + Escape(RStripNewlines(line))
  }

  function CdataLines(lines: seq<string>): (r: seq<string>)
    ensures |r| == |lines|
  {
    if lines == [] then [] else CdataLines(lines[..|lines| - 1]) + [CdataLine(lines[|lines| - 1])]
  }

  const ErrorPrefix: string := "      Error reading file: "

  /** The `<file ...>` line; the language is printed unescaped. */
  function Header(path: string, language: string, stat: Stat): string
  {
    "  <file name=\"" + XmlEscape(path) + "\" language=\"" + language
      + "\" modified=\"" + XmlEscape(stat.modified) + "\" size=\""
      + XmlEscape(NatToString(stat.size)) + "\">"
  }

  /** The lines between `<![CDATA[` and `]]>` as written: the error
      message goes into the section unescaped. */
  function BodyAsWritten(contents: Contents): seq<string>
  {
    CdataLines(contents.lines) + (if contents.error.Some? then [ErrorPrefix + contents.error.value] else [])
  }

  /** The same lines with the error message escaped like a content line. */
  function Body(contents: Contents): seq<string>
  {
    CdataLines(contents.lines) + (if contents.error.Some? then [ErrorPrefix + Escape(contents.error.value)] else [])
  }

  /** What the section is meant to hold: the lines as read, indented, and
      the error line. */
  function Intended(contents: Contents): seq<string>
  {
    Indented(contents.lines) + (if contents.error.Some? then [ErrorPrefix + contents.error.value] else [])
  }

  function FileBlock(header: string, body: seq<string>): seq<string>
  {
    [header, "    <![CDATA["] + body + ["    ]]>", "  </file>"]
  }

  /** `process_file`: no output and `false` when the language is unknown or
      the file cannot be stat'ed; otherwise the block, line by line, and
      `true`.  `guess` stands for the lexer lookup, `stat` for `os.stat`
      and `contents` for reading the file. */
  method ProcessFile(path: string, custom: map<string, string>, guess: string -> Option<string>,
                     stat: Option<Stat>, contents: Contents)
    returns (processed: bool, out: seq<string>)
    ensures var language := Filetypes.DetectLanguage(path, custom, guess);
      && (processed <==> language.Some? && stat.Some?)
      && (processed ==> out == FileBlock(Header(path, language.value, stat.value), Body(contents)))
      && (!processed ==> out == [])
  {
    var language := Filetypes.DetectLanguage(path, custom, guess);
    if language.None? || stat.None? {
      return false, [];
    }
    var header := Header(path, language.value, stat.value);
    var lines := contents.lines;
    out := [header, "    <![CDATA["];
    var i := 0;
    while i < |lines|
      invariant 0 <= i <= |lines|
      invariant out == [header, "    <![CDATA["] + CdataLines(lines[..i])
    {
      OneMoreLine(lines, i);
      AppendAssoc([header, "    <![CDATA["], CdataLines(lines[..i]), [CdataLine(lines[i])]);
      out := out + [CdataLine(lines[i])];
      i := i + 1;
    }
    assert lines[..i] == lines;
    if contents.error.Some? {
      AppendAssoc([header, "    <![CDATA["], CdataLines(lines), [ErrorPrefix + Escape(contents.error.value)]);
      out := out + [ErrorPrefix + Escape(contents.error.value)];
    } else {
      assert CdataLines(lines) + [] == CdataLines(lines);
    }
    assert out == [header, "    <![CDATA["] + Body(contents);
    out := out + ["    ]]>", "  </file>"];
    processed := true;
  }

  lemma OneMoreLine(lines: seq<string>, i: nat)
    requires i < |lines|
    ensures CdataLines(lines[..i + 1]) == CdataLines(lines[..i]) + [CdataLine(lines[i])]
  {
    assert lines[..i + 1][..i] == lines[..i];
  }

  // ---------------------------------------------------------------------
  // Reading the printed section back

  /** The printed lines joined with the newline `print` adds. */
  function Unlines(ls: seq<string>): string
  {
    if ls == [] then [] else ls[0] + "\n" + Unlines(ls[1..])
  }

  /** The content lines with their indentation, unescaped. */
  function Indented(lines: seq<string>): (r: seq<string>)
    ensures |r| == |lines|
  {
    if lines == [] then [] else Indented(lines[..|lines| - 1]) + ["      " + RStripNewlines(lines[|lines| - 1])]
  }

  lemma {:induction false} UnlinesAppend(a: seq<string>, b: seq<string>)
    ensures Unlines(a + b) == Unlines(a) + Unlines(b)
    decreases |a|
  {
    if a == [] {
      assert a + b == b;
    } else {
      assert (a + b)[1..] == a[1..] + b;
      UnlinesAppend(a[1..], b);
    }
  }

  predicate NoBracket(p: string)
  {
    forall i :: 0 <= i < |p| ==> p[i] != ']'
  }

  lemma UnlinesOne(y: string)
    ensures Unlines([y]) == y + "\n"
  {
    assert [y][1..] == [];
  }

  lemma EscapeNewline()
    ensures Escape("\n") == "\n"
  {
    EscapeChar("\n");
    assert "\n"[1..] == [];
  }

  /** One indented, escaped line and its newline are the escape of the
      indented line and its newline. */
  lemma EscapeLine(p: string, x: string)
    requires NoBracket(p) && p != [] && p[0] != '>'
    ensures Unlines([p + Escape(x)]) == Escape(Unlines([p + x]))
  {
    UnlinesOne(p + Escape(x));
    UnlinesOne(p + x);
    EscapeAppend(p + x, "\n");
    EscapePrefix(p, x);
    EscapeNewline();
  }

  /** The escaped lines, joined, are the escape of the joined lines. */
  lemma {:induction false} EscapeLines(lines: seq<string>)
    ensures Unlines(CdataLines(lines)) == Escape(Unlines(Indented(lines)))
    decreases |lines|
  {
    if lines == [] {
      assert Escape([]) == [];
    } else {
      var init := lines[..|lines| - 1];
      var x := RStripNewlines(lines[|lines| - 1]);
      EscapeLines(init);
      UnlinesAppend(CdataLines(init), [CdataLine(lines[|lines| - 1])]);
      UnlinesAppend(Indented(init), ["      " + x]);
      EscapeLine("      ", x);
      EscapeAppend(Unlines(Indented(init)), Unlines(["      " + x]));
    }
  }

  /** The whole body, joined, is the escape of what it is meant to hold. */
  lemma EscapeBody(contents: Contents)
    ensures Unlines(Body(contents)) == Escape(Unlines(Intended(contents)))
  {
    EscapeLines(contents.lines);
    if contents.error.Some? {
      var m := contents.error.value;
      UnlinesAppend(CdataLines(contents.lines), [ErrorPrefix + Escape(m)]);
      UnlinesAppend(Indented(contents.lines), [ErrorPrefix + m]);
      EscapeLine(ErrorPrefix, m);
      EscapeAppend(Unlines(Indented(contents.lines)), Unlines([ErrorPrefix + m]));
    } else {
      assert Body(contents) == CdataLines(contents.lines);
      assert Intended(contents) == Indented(contents.lines);
    }
  }

  /** Text without `]` is read as it is. */
  lemma {:induction false} ReadPlain(p: string, t: string)
    requires NoBracket(p)
    ensures Sections(p + t) == Prepend(p, Sections(t))
    decreases |p|
  {
    if p == [] {
      assert p + t == t;
      match Sections(t)
      case None =>
      case Some(c) => assert p + c == c;
    } else {
      AppendAssoc([p[0]], p[1..], t);
      assert [p[0]] + p[1..] == p;
      SectionsChar(p + t);
      assert (p + t)[1..] == p[1..] + t;
      ReadPlain(p[1..], t);
      PrependTwice([p[0]], p[1..], Sections(t));
    }
  }

  /** The text a reader sees after the `<![CDATA[` of a block whose
      section holds `body`: the newline `print` adds, the body lines, and
      the indented `]]>`. */
  function SectionText(body: seq<string>): string
  {
    "\n" + (Unlines(body) + ("    " + Terminator))
  }

  /** What a reader finds in the section of the printed block: exactly the
      file's lines, each indented by six spaces and followed by a newline,
      then the error line if reading failed, between the newline after
      `<![CDATA[` and the indentation of the closing `]]>`, whatever the
      lines and the message hold. */
  lemma SectionRestores(contents: Contents)
    ensures Sections(SectionText(Body(contents))) == Some("\n" + (Unlines(Intended(contents)) + "    "))
  {
    var u := Unlines(Intended(contents));
    EscapeBody(contents);
    ReadPlain("\n", Escape(u) + ("    " + Terminator));
    ReadThrough(u, "    " + Terminator);
    ReadPlain("    ", Terminator);
    assert Terminator[3..] == [];
    assert Sections(Terminator) == Some([]);
    assert "    " + [] == "    ";
  }

  lemma Regroup(ep: string, m1: string, t: string, m2: string, nl: string, ind: string)
    ensures ((ep + ((m1 + t) + m2)) + nl) + (ind + t) == (ep + m1) + (t + ((m2 + nl) + (ind + t)))
  {
  }

  lemma ErrorPrefixPlain()
    ensures NoBracket(ErrorPrefix)
  {
  }

  lemma NoBracketAppend(a: string, b: string)
    requires NoBracket(a) && NoBracket(b)
    ensures NoBracket(a + b)
  {
    forall i | 0 <= i < |a + b| ensures (a + b)[i] != ']' {
      if i < |a| { assert (a + b)[i] == a[i]; } else { assert (a + b)[i] == b[i - |a|]; }
    }
  }

  /** After a `]]>` that text other than a new section follows, the
      content is not a run of sections. */
  lemma StopAt(r: string)
    requires r != [] && r[0] != '<'
    ensures Sections(Terminator + r) == None
  {
    assert (Terminator + r)[3..] == r;
  }

  lemma StopAfter(p: string, r: string)
    requires NoBracket(p) && r != [] && r[0] != '<'
    ensures Sections(p + (Terminator + r)) == None
  {
    ReadPlain(p, Terminator + r);
    StopAt(r);
  }

  /** The reader stops at a `]]>` inside an unescaped line. */
  lemma LineStops(pre: string, m1: string, m2: string)
    requires NoBracket(pre) && NoBracket(m1) && (m2 == [] || m2[0] != '<')
    ensures Sections(((pre + (m1 + Terminator + m2)) + "\n") + ("    " + Terminator)) == None
  {
    var r := (m2 + "\n") + ("    " + Terminator);
    Regroup(pre, m1, Terminator, m2, "\n", "    ");
    NoBracketAppend(pre, m1);
    assert r[0] != '<';
    StopAfter(pre + m1, r);
  }

  /** As written, an error message holding `]]>` (the text of an `OSError`
      quotes the file name, and a file name may hold `]]>`) ends the section
      early: the reader no longer sees a run of sections. */
  lemma UnescapedErrorBreaksSection(lines: seq<string>, m1: string, m2: string)
    requires NoBracket(m1) && (m2 == [] || m2[0] != '<')
    ensures Sections(SectionText(BodyAsWritten(Contents(lines, Some(m1 + Terminator + m2))))) == None
  {
    var c := Contents(lines, Some(m1 + Terminator + m2));
    var e := ErrorPrefix + (m1 + Terminator + m2);
    var u := Unlines(Indented(lines));
    var z := (e + "\n") + ("    " + Terminator);
    assert BodyAsWritten(c) == CdataLines(lines) + [e];
    EscapeLines(lines);
    UnlinesAppend(CdataLines(lines), [e]);
    UnlinesOne(e);
    assert Unlines(BodyAsWritten(c)) == Escape(u) + (e + "\n");
    AppendAssoc(Escape(u), e + "\n", "    " + Terminator);
    assert SectionText(BodyAsWritten(c)) == "\n" + (Escape(u) + z);
    ReadPlain("\n", Escape(u) + z);
    ReadThrough(u, z);
    ErrorPrefixPlain();
    LineStops(ErrorPrefix, m1, m2);
  }
}
