/*
 * The line wrapper of the receipt printer (recipt-printer, wrapper.rs).
 * In reflow mode words are packed into lines no wider than the printable
 * width, a continuation line starting with the indent; in preserve mode
 * each input line is kept, and a line that is too long is cut and ends
 * with an overflow indicator, the rest returned as overflow.
 */
module Wrapper {
  import opened Text

  /** The default line width in characters (font A). */
  const LineWidth: nat := 42

  /** The printer fonts the wrapper distinguishes; any other font counts as A. */
  datatype Font = FontA | FontB | OtherFont

  datatype WrapMode = Reflow | PreserveLines(overflowIndicator: string)

  /** One printed line, with the text cut off it when it was too long. */
  datatype LineOutput = LineOutput(content: string, overflow: Option<string>)

  function Simple(content: string): LineOutput
  {
    LineOutput(content, None)
  }

  /** The base width of a font. */
  function FontWidth(font: Font): (w: nat)
    ensures font == FontB ==> w == 56
    ensures font != FontB ==> w == LineWidth
  {
    match font
    case FontA => 42
    case FontB => 56
    case OtherFont => 42
  }

  // ---------------------------------------------------------------------
  // Reflow

  /** The line being filled and its width in characters. */
  datatype Cursor = Cursor(line: string, col: nat)

  /** The lines given out so far and where the current line stands. */
  datatype Reflowed = Reflowed(out: seq<LineOutput>, at: Cursor)

  /** The space the width test allows for before a word. */
  function SpaceNeeded(col: nat, indent: string): nat
  {
    if col == 0 || col == |indent| then 0 else 1
  }

  /** Whether the next word starts a new line. */
  predicate Breaks(c: Cursor, indent: string, width: nat, word: string)
  {
    c.col > 0 && c.col + SpaceNeeded(c.col, indent) + |word| > width
  }

  /** One word taken in: when it does not fit (and the line is not empty)
      the line is given out and a new one starts with the indent; a space
      separates it from text beyond the indent; then the word, whole. */
  function Place(r: Reflowed, indent: string, width: nat, word: string): (p: Reflowed)
    ensures r.at.col == |r.at.line| ==> p.at.col == |p.at.line|
  {
    var c := if Breaks(r.at, indent, width, word) then Cursor(indent, |indent|) else r.at;
    var out := if Breaks(r.at, indent, width, word) then r.out + [Simple(r.at.line)] else r.out;
    var spaced := if c.col > |indent| then Cursor(c.line + " ", c.col + 1) else c;
    Reflowed(out, Cursor(spaced.line + word, spaced.col + |word|))
  }

  /** The words taken in one after another. */
  function ReflowWords(r: Reflowed, indent: string, width: nat, words: seq<string>): Reflowed
  {
    if words == [] then r
    else Place(ReflowWords(r, indent, width, words[..|words| - 1]), indent, width, words[|words| - 1])
  }

  /** A word goes to the end of the current line, after nothing, a space,
      or (on a break) the indent; a line is given out only on a break. */
  lemma PlaceAppends(r: Reflowed, indent: string, width: nat, word: string)
    requires r.at.col == |r.at.line|
    ensures var p := Place(r, indent, width, word);
      if Breaks(r.at, indent, width, word) then
        p.out == r.out + [Simple(r.at.line)] && p.at.line == indent + word
      else
        p.out == r.out && (p.at.line == r.at.line + word || p.at.line == r.at.line + " " + word)
  {
  }

  /** The characters given out or pending. */
  function Written(r: Reflowed): string
  {
    Contents(r.out) + r.at.line
  }

  function Contents(out: seq<LineOutput>): string
  {
    if out == [] then [] else Contents(out[..|out| - 1]) + out[|out| - 1].content
  }

  /** Text made only of whitespace, such as an indent of spaces. */
  predicate Blank(s: string)
  {
    forall i :: 0 <= i < |s| ==> RustSpace(s[i])
  }

  /** What goes between the text written so far and the next word. */
  function Gap(c: Cursor, indent: string, width: nat, word: string): string
  {
    if Breaks(c, indent, width, word) then indent else if c.col > |indent| then " " else ""
  }

  /** Taking in a word appends the gap and the word to what is written. */
  lemma PlaceWritten(r: Reflowed, indent: string, width: nat, word: string)
    ensures Written(Place(r, indent, width, word)) == Written(r) + (Gap(r.at, indent, width, word) + word)
  {
    var p := Place(r, indent, width, word);
    if Breaks(r.at, indent, width, word) {
      assert p.out[..|p.out| - 1] == r.out;
    }
  }

  lemma FilterSkip(before: string, gap: string, word: string)
    requires Blank(gap) && NoSpace(Rust, word)
    ensures Filter(before + (gap + word), Visible) == Filter(before, Visible) + word
  {
    assert Filter(gap, Visible) == [] by { FilterNoneKept(gap, Visible); }
    assert Filter(word, Visible) == word by { FilterAllKept(word, Visible); }
    assert Filter(gap + word, Visible) == word by { FilterAppend(gap, word, Visible); }
    FilterAppend(before, gap + word, Visible);
  }

  lemma WrittenStep(r: Reflowed, indent: string, width: nat, word: string)
    requires NoSpace(Rust, word) && Blank(indent)
    ensures Filter(Written(Place(r, indent, width, word)), Visible) == Filter(Written(r), Visible) + word
  {
    PlaceWritten(r, indent, width, word);
    FilterSkip(Written(r), Gap(r.at, indent, width, word), word);
  }

  /** Reflow neither loses nor reorders nor splits words: with an indent
      of whitespace, the visible characters written are those written
      before followed by the words, in order. */
  lemma {:induction false} ReflowKeepsWords(r: Reflowed, indent: string, width: nat, words: seq<string>)
    requires Blank(indent)
    requires forall i :: 0 <= i < |words| ==> NoSpace(Rust, words[i])
    ensures Filter(Written(ReflowWords(r, indent, width, words)), Visible) == Filter(Written(r), Visible) + Concat(words)
  {
    if words == [] {
      assert Filter(Written(r), Visible) + [] == Filter(Written(r), Visible);
    } else {
      var init := words[..|words| - 1];
      var last := words[|words| - 1];
      ReflowKeepsWords(r, indent, width, init);
      WrittenStep(ReflowWords(r, indent, width, init), indent, width, last);
      assert words == init + [last];
      ConcatSnoc(init, last);
      AppendAssoc(Filter(Written(r), Visible), Concat(init), last);
    }
  }

  /** Every line is at most `width` wide while the current line is: when
      the indent and each word fit on a line together, reflow never gives
      out or holds a line wider than the width. */
  predicate WithinWidth(r: Reflowed, width: nat)
  {
    r.at.col <= width && forall i :: 0 <= i < |r.out| ==> |r.out[i].content| <= width
  }

  lemma {:induction false} ReflowWithinWidth(r: Reflowed, indent: string, width: nat, words: seq<string>)
    requires r.at.col == |r.at.line| && WithinWidth(r, width)
    requires forall i :: 0 <= i < |words| ==> |indent| + |words[i]| <= width
    ensures WithinWidth(ReflowWords(r, indent, width, words), width)
    ensures ReflowWords(r, indent, width, words).at.col == |ReflowWords(r, indent, width, words).at.line|
  {
    if words != [] {
      var init := words[..|words| - 1];
      ReflowWithinWidth(r, indent, width, init);
    }
  }

  /** The column always counts the characters of the current line. */
  lemma {:induction false} ReflowKeepsCol(r: Reflowed, indent: string, width: nat, words: seq<string>)
    requires r.at.col == |r.at.line|
    ensures ReflowWords(r, indent, width, words).at.col == |ReflowWords(r, indent, width, words).at.line|
  {
    if words != [] {
      ReflowKeepsCol(r, indent, width, words[..|words| - 1]);
    }
  }

  // ---------------------------------------------------------------------
  // Preserve mode

  /** The indicator is subtracted from the width only for a line that is
      too long, so it must fit whenever some line is too long. */
  predicate IndicatorFits(text: string, indicator: string, width: nat)
  {
    |indicator| <= width || forall i :: 0 <= i < |RustLines(text)| ==> |RustLines(text)[i]| <= width
  }

  /** One input line: as it is when it fits, otherwise cut to leave room
      for the indicator, the rest returned as overflow. */
  function PreserveLine(line: string, indicator: string, width: nat): (o: LineOutput)
    requires |line| > width ==> |indicator| <= width
    ensures |line| <= width ==> o == Simple(line)
    ensures |line| > width ==> |o.content| == width && o.overflow.Some? && EndsWith(o.content, indicator)
  {
    if |line| <= width then Simple(line)
    else
      var truncateAt := width - |indicator|;
      LineOutput(line[..truncateAt] + indicator, Some(line[truncateAt..]))
  }

  /** The line a preserved output came from: the content without the
      indicator, followed by the overflow. */
  function Restore(o: LineOutput, indicator: string): string
  {
    match o.overflow
    case None => o.content
    case Some(rest) => (if |indicator| <= |o.content| then o.content[..|o.content| - |indicator|] else "") + rest
  }

  /** Nothing of a line is lost: the cut part and the overflow put back
      together give the line. */
  lemma PreserveRoundTrip(line: string, indicator: string, width: nat)
    requires |line| > width ==> |indicator| <= width
    ensures Restore(PreserveLine(line, indicator, width), indicator) == line
  {
    if |line| > width {
      var t := width - |indicator|;
      assert (line[..t] + indicator)[..t] == line[..t];
      assert line[..t] + line[t..] == line;
    }
  }

  /** One output per input line, in order. */
  function Preserved(text: string, indicator: string, width: nat): (r: seq<LineOutput>)
    requires IndicatorFits(text, indicator, width)
    ensures |r| == |RustLines(text)|
  {
    var lines := RustLines(text);
    seq(|lines|, i requires 0 <= i < |lines| => PreserveLine(lines[i], indicator, width))
  }

  /** Every preserved output fits the width, and each gives back its
      input line. */
  lemma PreservedLines(text: string, indicator: string, width: nat)
    requires IndicatorFits(text, indicator, width)
    ensures forall i :: 0 <= i < |Preserved(text, indicator, width)| ==>
      |Preserved(text, indicator, width)[i].content| <= width
      && Restore(Preserved(text, indicator, width)[i], indicator) == RustLines(text)[i]
  {
    var lines := RustLines(text);
    forall i | 0 <= i < |lines|
      ensures |Preserved(text, indicator, width)[i].content| <= width
      ensures Restore(Preserved(text, indicator, width)[i], indicator) == lines[i]
    {
      PreserveRoundTrip(lines[i], indicator, width);
    }
  }

  /** A last line that ends in '\r' with no '\n' after it keeps the '\r',
      which counts towards its length: a text that fills the width exactly
      before that '\r' is cut, and the '\r' ends its overflow. */
  lemma PreservedKeepsFinalCr(line: string, indicator: string, width: nat)
    requires line != [] && '\n' !in line && |line| == width && |indicator| <= width
    ensures Preserved(line + "\r", indicator, width)
      == [LineOutput(line[..width - |indicator|] + indicator, Some(line[width - |indicator|..] + "\r"))]
  {
    var text := line + "\r";
    assert '\n' !in text by {
      assert forall i :: 0 <= i < |text| ==> text[i] == if i < |line| then line[i] else '\r';
    }
    RustLinesUnterminated(text);
    assert text[width - |indicator|..] == line[width - |indicator|..] + "\r";
    assert text[..width - |indicator|] == line[..width - |indicator|];
  }

  // ---------------------------------------------------------------------
  // The wrapper

  lemma ReflowStep(r: Reflowed, indent: string, width: nat, words: seq<string>, i: nat)
    requires i < |words|
    ensures ReflowWords(r, indent, width, words[..i + 1]) == Place(ReflowWords(r, indent, width, words[..i]), indent, width, words[i])
  {
    assert words[..i + 1][..i] == words[..i];
  }

  /** The wrapper's settings and the line it is filling. */
  class LineWrapper {
    var baseWidth: nat
    var widthScale: nat
    var indent: string
    var mode: WrapMode
    var currentLine: string
    var col: nat

    /** The column counts the characters of the current line. */
    predicate Valid()
      reads this
    {
      col == |currentLine|
    }

    constructor ()
      ensures Valid()
      ensures baseWidth == LineWidth && widthScale == 1 && indent == "" && mode == Reflow
      ensures currentLine == "" && col == 0
    {
      baseWidth := LineWidth;
      widthScale := 1;
      indent := "";
      mode := Reflow;
      currentLine := "";
      col := 0;
    }

    /** The base width divided by the scale, rounded down. */
    function EffectiveWidth(): (w: nat)
      reads this
      requires widthScale > 0
      ensures w * widthScale <= baseWidth < (w + 1) * widthScale
    {
      var w := baseWidth / widthScale;
      DivBounds(baseWidth, widthScale, w);
      w
    }

    method SetScale(width: nat, height: nat)
      modifies this
      ensures widthScale == width
      ensures baseWidth == old(baseWidth) && indent == old(indent) && mode == old(mode)
      ensures currentLine == old(currentLine) && col == old(col)
    {
      widthScale := width;
    }

    method SetFont(font: Font)
      modifies this
      ensures baseWidth == FontWidth(font)
      ensures widthScale == old(widthScale) && indent == old(indent) && mode == old(mode)
      ensures currentLine == old(currentLine) && col == old(col)
    {
      baseWidth := match font
        case FontA => 42
        case FontB => 56
        case OtherFont => 42;
    }

    method SetIndent(s: string)
      modifies this
      ensures indent == s
      ensures baseWidth == old(baseWidth) && widthScale == old(widthScale) && mode == old(mode)
      ensures currentLine == old(currentLine) && col == old(col)
    {
      indent := s;
    }

    method SetMode(m: WrapMode)
      modifies this
      ensures mode == m
      ensures baseWidth == old(baseWidth) && widthScale == old(widthScale) && indent == old(indent)
      ensures currentLine == old(currentLine) && col == old(col)
    {
      mode := m;
    }

    /** Text in the current mode. */
    method AddText(text: string) returns (lines: seq<LineOutput>)
      requires Valid() && widthScale > 0
      requires mode.PreserveLines? ==> IndicatorFits(text, mode.overflowIndicator, EffectiveWidth())
      modifies this
      ensures Valid()
      ensures baseWidth == old(baseWidth) && widthScale == old(widthScale) && indent == old(indent) && mode == old(mode)
      ensures old(mode).Reflow? ==>
        var r := ReflowWords(Reflowed([], Cursor(old(currentLine), old(col))), indent, EffectiveWidth(), Words(text));
        lines == r.out && currentLine == r.at.line && col == r.at.col
      ensures old(mode).PreserveLines? ==>
        lines == Preserved(text, mode.overflowIndicator, EffectiveWidth())
        && currentLine == old(currentLine) && col == old(col)
    {
      match mode
      case Reflow =>
        lines := AddTextReflow(text);
      case PreserveLines(indicator) =>
        lines := AddTextPreserveLines(text, indicator);
    }

    /** Reflow: the words of the text packed onto lines; the full lines
        are returned and the last stays current. */
    method AddTextReflow(text: string) returns (lines: seq<LineOutput>)
      requires Valid() && widthScale > 0
      modifies this
      ensures Valid()
      ensures baseWidth == old(baseWidth) && widthScale == old(widthScale) && indent == old(indent) && mode == old(mode)
      ensures var r := ReflowWords(Reflowed([], Cursor(old(currentLine), old(col))), indent, EffectiveWidth(), Words(text));
        lines == r.out && currentLine == r.at.line && col == r.at.col
    {
      var words := Words(text);
      var effectiveWidth := EffectiveWidth();
      var ind := indent;
      var start := Reflowed([], Cursor(currentLine, col));
      var line := currentLine;
      var c: nat := col;
      lines := [];
      assert words[..0] == [];
      for i := 0 to |words|
        invariant Reflowed(lines, Cursor(line, c)) == ReflowWords(start, ind, effectiveWidth, words[..i])
        invariant unchanged(this)
      {
        ReflowStep(start, ind, effectiveWidth, words, i);
        var word := words[i];
        var wordLen := |word|;
        var spaceNeeded := if c == 0 || c == |ind| then 0 else 1;
        if c > 0 && c + spaceNeeded + wordLen > effectiveWidth {
          lines := lines + [Simple(line)];
          line := ind;
          c := |ind|;
        }
        if c > |ind| {
          line := line + " ";
          c := c + 1;
        }
        line := line + word;
        c := c + wordLen;
      }
      assert words[..|words|] == words;
      ReflowKeepsCol(start, ind, effectiveWidth, words);
      currentLine := line;
      col := c;
    }

    /** Preserve mode: one output per input line; the current line is not
        touched. */
    method AddTextPreserveLines(text: string, indicator: string) returns (outputs: seq<LineOutput>)
      requires widthScale > 0 && IndicatorFits(text, indicator, EffectiveWidth())
      ensures outputs == Preserved(text, indicator, EffectiveWidth())
    {
      var indicatorLen := |indicator|;
      var effectiveWidth := EffectiveWidth();
      var lines := RustLines(text);
      outputs := [];
      for i := 0 to |lines|
        invariant outputs == Preserved(text, indicator, effectiveWidth)[..i]
      {
        var line := lines[i];
        var lineLen := |line|;
        ghost var all := Preserved(text, indicator, effectiveWidth);
        assert all[..i + 1] == all[..i] + [PreserveLine(line, indicator, effectiveWidth)];
        if lineLen <= effectiveWidth {
          outputs := outputs + [Simple(line)];
        } else {
          var truncateAt := effectiveWidth - indicatorLen;
          var mainPart := line[..truncateAt];
          var overflowPart := line[truncateAt..];
          outputs := outputs + [LineOutput(mainPart + indicator, Some(overflowPart))];
        }
      }
    }

    /** Give out the current line, if it holds anything. */
    method Flush() returns (r: Option<string>)
      requires Valid()
      modifies this
      ensures Valid()
      ensures old(currentLine) == [] ==> r == None && currentLine == old(currentLine) && col == old(col)
      ensures old(currentLine) != [] ==> r == Some(old(currentLine)) && currentLine == [] && col == 0
      ensures baseWidth == old(baseWidth) && widthScale == old(widthScale) && indent == old(indent) && mode == old(mode)
    {
      if currentLine != [] {
        var line := currentLine;
        currentLine := [];
        col := 0;
        return Some(line);
      } else {
        return None;
      }
    }

    /** Start the current line with `prefix`. */
    method StartLineWith(prefix: string)
      modifies this
      ensures Valid() && currentLine == prefix && col == |prefix|
      ensures baseWidth == old(baseWidth) && widthScale == old(widthScale) && indent == old(indent) && mode == old(mode)
    {
      currentLine := prefix;
      col := |prefix|;
    }
  }

  lemma DivBounds(a: nat, b: nat, w: nat)
    requires b > 0 && w == a / b
    ensures w * b <= a < (w + 1) * b
  {
    assert b * (a / b) + a % b == a;
    assert (w + 1) * b == w * b + b;
  }
}
