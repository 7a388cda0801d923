/*
 * The annotated-text parser: a text split into plain segments and
 * correction segments, the original and the corrected text rebuilt from
 * them, the defaults a correction takes when its `<original>` or
 * `<corrected>` tag is missing, and the scan that cuts the content into
 * segments around the correction matches. The regular expressions and the
 * HTML entity decoder are given to the model as their results.
 */
module Annotated {
  import opened Text

  datatype Segment =
    | Plain(text: string)
    | Correction(errorType: string, original: string, correction: string, explanation: Option<string>,
                 children: seq<Segment>, originalSegments: seq<Segment>, correctedSegments: seq<Segment>)

  /** The flat record kept for each correction, beside the segments. */
  datatype Entry = Entry(errorType: string, original: string, correction: string, explanation: Option<string>,
                         children: seq<Entry>)

  datatype ParsedText = ParsedText(text: string, corrections: seq<Entry>, suggestions: Option<string>,
                                   segments: seq<Segment>)

  datatype ParserError = InvalidXml(message: string) | MissingAttribute(name: string) | InvalidErrorType(name: string)

  // ---------------------------------------------------------------------
  // Reconstruction

  /** The original text: plain text and each correction's original. */
  function OriginalText(segments: seq<Segment>): string
  {
    if segments == [] then ""
    else
      var last := segments[|segments| - 1];
      OriginalText(segments[..|segments| - 1]) + (if last.Plain? then last.text else last.original)
  }

  /** The corrected text: plain text and each correction's correction. */
  function CorrectedText(segments: seq<Segment>): string
  {
    if segments == [] then ""
    else
      var last := segments[|segments| - 1];
      CorrectedText(segments[..|segments| - 1]) + (if last.Plain? then last.text else last.correction)
  }

  method ReconstructOriginal(segments: seq<Segment>) returns (result: string)
    ensures result == OriginalText(segments)
  {
    result := "";
    for i := 0 to |segments|
      invariant result == OriginalText(segments[..i])
    {
      assert segments[..i + 1][..i] == segments[..i];
      match segments[i] {
        case Plain(text) =>
          result := result + text;
        case Correction(_, original, _, _, _, _, _) =>
          result := result + original;
      }
    }
    assert segments[..|segments|] == segments;
  }

  method ReconstructCorrected(segments: seq<Segment>) returns (result: string)
    ensures result == CorrectedText(segments)
  {
    result := "";
    for i := 0 to |segments|
      invariant result == CorrectedText(segments[..i])
    {
      assert segments[..i + 1][..i] == segments[..i];
      match segments[i] {
        case Plain(text) =>
          result := result + text;
        case Correction(_, _, correction, _, _, _, _) =>
          result := result + correction;
      }
    }
    assert segments[..|segments|] == segments;
  }

  /** Both reconstructions work segment by segment: the text of two
      segment lists put together is the two texts put together. */
  lemma {:induction false} TextsAppend(a: seq<Segment>, b: seq<Segment>)
    ensures OriginalText(a + b) == OriginalText(a) + OriginalText(b)
    ensures CorrectedText(a + b) == CorrectedText(a) + CorrectedText(b)
    decreases |b|
  {
    if b == [] {
      assert a + b == a;
    } else {
      var b' := b[..|b| - 1];
      assert (a + b)[..|a + b| - 1] == a + b';
      TextsAppend(a, b');
      var last := b[|b| - 1];
      AppendAssoc(OriginalText(a), OriginalText(b'), if last.Plain? then last.text else last.original);
      AppendAssoc(CorrectedText(a), CorrectedText(b'), if last.Plain? then last.text else last.correction);
    }
  }

  /** A correction that leaves its text as it is. */
  predicate Unchanged(s: Segment)
  {
    s.Plain? || s.correction == s.original
  }

  /** When no segment changes anything, in particular when there are no
      correction segments at all, both texts are the same. */
  lemma {:induction false} UnchangedTextsAlike(segments: seq<Segment>)
    requires forall i :: 0 <= i < |segments| ==> Unchanged(segments[i])
    ensures OriginalText(segments) == CorrectedText(segments)
  {
    if segments != [] {
      UnchangedTextsAlike(segments[..|segments| - 1]);
    }
  }

  // ---------------------------------------------------------------------
  // One correction

  /** What the inner content of a correction match yields: the trimmed
      content of its `<original>` tag when that tag is there, the inner
      content with every correction, original and corrected tag removed
      and then trimmed, and the decoded and trimmed `<corrected>` content
      when that tag is there. */
  datatype Inner = Inner(originalContent: Option<string>, untagged: string, correctedTag: Option<string>)

  datatype Extracted = Extracted(original: string, correction: string, originalSegments: seq<Segment>)

  /** The parse of a piece of a correction's inner content. The correction
      regex captures its inner content lazily up to the first
      `</correction>`, so that content, and the `<original>` content inside
      it, hold no `</correction>`: the regex finds no match in them and
      the nested parse is the scan without matches. */
  function NestedSegments(content: string, decode: string -> string): seq<Segment>
  {
    PlainBetween(content, 0, |content|, decode)
  }

  /** A nested parse finds at most the decoded content, as one plain
      segment. */
  lemma NestedPlain(content: string, decode: string -> string)
    ensures NestedSegments(content, decode) == if content == [] then [] else [Plain(decode(content))]
  {
    if content != [] {
      assert content[0..|content|] == content;
    }
  }

  /** The nested segments read as the decoded content. */
  lemma NestedText(content: string, decode: string -> string)
    ensures OriginalText(NestedSegments(content, decode)) == if content == [] then "" else decode(content)
  {
    NestedPlain(content, decode);
    assert NestedSegments(content, decode)[..0] == [];
  }

  /** The nested segments are what the scan gives without matches. */
  lemma NestedIsScan(content: string, decode: string -> string)
    ensures NestedSegments(content, decode) == Segments(content, [], decode)
  {
  }

  /** The original and corrected text of a correction, with their
      defaults: no `<original>` tag means the untagged content, no
      `<corrected>` tag means the original. */
  function Extract(inner: Inner, decode: string -> string): (r: Extracted)
    ensures inner.correctedTag.None? ==> r.correction == r.original
    ensures inner.originalContent.None? ==> r.original == inner.untagged && r.originalSegments == []
  {
    var originalSegments := if inner.originalContent.Some? then NestedSegments(inner.originalContent.value, decode) else [];
    var original := if inner.originalContent.Some? then OriginalText(originalSegments) else inner.untagged;
    var correction := if inner.correctedTag.Some? then inner.correctedTag.value else original;
    Extracted(original, correction, originalSegments)
  }

  /** An `<original>` tag makes the original its decoded content, held as
      at most one plain segment; without one the original is the untagged
      content and there are no segments. A `<corrected>` tag gives the
      correction; without one the correction is the original. */
  lemma ExtractDefaults(inner: Inner, decode: string -> string)
    ensures var r := Extract(inner, decode);
      (inner.originalContent.Some? ==>
        var c := inner.originalContent.value;
        r.originalSegments == (if c == [] then [] else [Plain(decode(c))])
        && r.original == (if c == [] then "" else decode(c)))
      && (inner.originalContent.None? ==> r.originalSegments == [] && r.original == inner.untagged)
      && (inner.correctedTag.Some? ==> r.correction == inner.correctedTag.value)
      && (inner.correctedTag.None? ==> r.correction == r.original)
  {
    if inner.originalContent.Some? {
      NestedPlain(inner.originalContent.value, decode);
      NestedText(inner.originalContent.value, decode);
    }
  }

  /** One regex match of a correction element, as far as the scan needs
      it: where it starts and ends in the content, its type and
      explanation attributes, its inner content and what that inner
      content yields. */
  datatype Match = Match(start: nat, end: nat, errorType: string, explanation: Option<string>, innerContent: string,
                         inner: Inner)

  /** The correction segment of a match; its children are the nested
      parse of the inner content. */
  function SegmentOf(m: Match, decode: string -> string): (s: Segment)
    ensures s.Correction?
  {
    var x := Extract(m.inner, decode);
    Correction(m.errorType, x.original, x.correction, m.explanation, NestedSegments(m.innerContent, decode),
      if x.originalSegments == [] then [Plain(x.original)] else x.originalSegments,
      [Plain(x.correction)])
  }

  /** The flat record of a match: the same texts as its segment, and no
      nested records, since the nested parse finds no correction. */
  function EntryOf(m: Match, decode: string -> string): (e: Entry)
    ensures e.original == SegmentOf(m, decode).original && e.correction == SegmentOf(m, decode).correction
    ensures e.children == []
  {
    var x := Extract(m.inner, decode);
    Entry(m.errorType, x.original, x.correction, m.explanation, [])
  }

  /** The children of a correction segment are at most one plain
      segment, never a correction, and they read as the decoded inner
      content. */
  lemma SegmentChildren(m: Match, decode: string -> string)
    ensures var s := SegmentOf(m, decode);
      |s.children| <= 1 && (forall i :: 0 <= i < |s.children| ==> s.children[i].Plain?)
      && OriginalText(s.children) == if m.innerContent == [] then "" else decode(m.innerContent)
  {
    NestedPlain(m.innerContent, decode);
    NestedText(m.innerContent, decode);
  }

  /** A correction segment whose nested original and corrected segments
      rebuild exactly its own original and correction. */
  predicate Coherent(s: Segment)
  {
    s.Correction? ==> OriginalText(s.originalSegments) == s.original && CorrectedText(s.correctedSegments) == s.correction
  }

  /** Every correction segment the parser builds is coherent, whichever
      tags were present. */
  lemma SegmentCoherent(m: Match, decode: string -> string)
    ensures Coherent(SegmentOf(m, decode))
  {
    var x := Extract(m.inner, decode);
    assert OriginalText([Plain(x.original)]) == x.original by {
      assert [Plain(x.original)][..0] == [];
    }
    assert CorrectedText([Plain(x.correction)]) == x.correction by {
      assert [Plain(x.correction)][..0] == [];
    }
  }

  /** A correction without a `<corrected>` tag leaves its text unchanged. */
  lemma MissingCorrectedUnchanged(m: Match, decode: string -> string)
    requires m.inner.correctedTag.None?
    ensures Unchanged(SegmentOf(m, decode)) && SegmentOf(m, decode).correction == SegmentOf(m, decode).original
  {
  }

  // ---------------------------------------------------------------------
  // Cutting the content into segments

  /** The matches in the order the regex finds them: inside the content
      and not overlapping. */
  predicate Ordered(content: string, matches: seq<Match>)
  {
    (forall i :: 0 <= i < |matches| ==> matches[i].start <= matches[i].end <= |content|)
    && (forall i, j :: 0 <= i < j < |matches| ==> matches[i].end <= matches[j].start)
  }

  datatype ScanState = ScanState(segments: seq<Segment>, entries: seq<Entry>, pos: nat)

  /** The plain segment for the text between two positions, if it is
      not empty. */
  function PlainBetween(content: string, from: nat, to: nat, decode: string -> string): seq<Segment>
    requires from <= |content| && to <= |content|
  {
    if to > from && content[from..to] != [] then [Plain(decode(content[from..to]))] else []
  }

  /** The segments, the records and the position after the first `k`
      matches. */
  function Scan(content: string, matches: seq<Match>, decode: string -> string, k: nat): (st: ScanState)
    requires Ordered(content, matches) && k <= |matches|
    ensures st.pos <= |content| && |st.entries| == k
    ensures k > 0 ==> st.pos == matches[k - 1].end
    ensures st.entries == MatchEntries(matches, decode, k)
  {
    if k == 0 then ScanState([], [], 0)
    else
      var st := Scan(content, matches, decode, k - 1);
      var m := matches[k - 1];
      ScanState(st.segments + PlainBetween(content, st.pos, m.start, decode) + [SegmentOf(m, decode)],
                st.entries + [EntryOf(m, decode)], m.end)
  }

  /** The segments of the whole content: the scan, then the rest as a
      plain segment. */
  function Segments(content: string, matches: seq<Match>, decode: string -> string): seq<Segment>
    requires Ordered(content, matches)
  {
    var st := Scan(content, matches, decode, |matches|);
    st.segments + PlainBetween(content, st.pos, |content|, decode)
  }

  lemma ScanStep(content: string, matches: seq<Match>, decode: string -> string, k: nat)
    requires Ordered(content, matches) && k < |matches|
    ensures var st := Scan(content, matches, decode, k);
      Scan(content, matches, decode, k + 1)
      == ScanState(st.segments + PlainBetween(content, st.pos, matches[k].start, decode) + [SegmentOf(matches[k], decode)],
                   st.entries + [EntryOf(matches[k], decode)], matches[k].end)
  {
  }

  /** The scan as a loop: plain text before each match, then the match's
      correction segment and record. */
  method ParseContent(content: string, matches: seq<Match>, decode: string -> string)
    returns (segments: seq<Segment>, entries: seq<Entry>)
    requires Ordered(content, matches)
    ensures segments == Segments(content, matches, decode)
    ensures entries == Scan(content, matches, decode, |matches|).entries
    decreases |matches|, 1
  {
    segments := [];
    entries := [];
    var currentPos: nat := 0;
    for k := 0 to |matches|
      invariant Scan(content, matches, decode, k) == ScanState(segments, entries, currentPos)
    {
      var m := matches[k];
      ScanStep(content, matches, decode, k);
      ghost var before := segments + PlainBetween(content, currentPos, m.start, decode);
      if m.start > currentPos {
        var plainText := content[currentPos..m.start];
        if plainText != [] {
          segments := segments + [Plain(decode(plainText))];
        }
      }
      assert segments == before;
      var segment, entry := ParseMatch(m, decode);
      entries := entries + [entry];
      segments := segments + [segment];
      currentPos := m.end;
    }
    ghost var scanned := segments;
    assert currentPos <= |content|;
    assert currentPos < |content| ==> content[currentPos..|content|] == content[currentPos..];
    if currentPos < |content| {
      var plainText := content[currentPos..];
      if plainText != [] {
        segments := segments + [Plain(decode(plainText))];
      }
    }
    assert segments == scanned + PlainBetween(content, currentPos, |content|, decode);
  }

  /** One match: its original and correction, the nested parse of its
      inner content, its correction segment and its record. */
  method ParseMatch(m: Match, decode: string -> string) returns (segment: Segment, entry: Entry)
    ensures segment == SegmentOf(m, decode) && entry == EntryOf(m, decode)
    decreases 1, 0
  {
    var x := Extract(m.inner, decode);
    var childSegments, _ := ParseContent(m.innerContent, [], decode);
    NestedIsScan(m.innerContent, decode);
    var correctedSegments := [Plain(x.correction)];
    segment := Correction(m.errorType, x.original, x.correction, m.explanation, childSegments,
      if x.originalSegments == [] then [Plain(x.original)] else x.originalSegments, correctedSegments);
    entry := Entry(m.errorType, x.original, x.correction, m.explanation, []);
  }

  /** The correction segments of a segment list, in order. */
  function CorrectionsIn(segments: seq<Segment>): (r: seq<Segment>)
    ensures forall i :: 0 <= i < |r| ==> r[i].Correction?
  {
    if segments == [] then []
    else
      var last := segments[|segments| - 1];
      CorrectionsIn(segments[..|segments| - 1]) + (if last.Correction? then [last] else [])
  }

  lemma {:induction false} CorrectionsInAppend(a: seq<Segment>, b: seq<Segment>)
    ensures CorrectionsIn(a + b) == CorrectionsIn(a) + CorrectionsIn(b)
    decreases |b|
  {
    if b == [] {
      assert a + b == a;
    } else {
      var b' := b[..|b| - 1];
      assert (a + b)[..|a + b| - 1] == a + b';
      CorrectionsInAppend(a, b');
      AppendAssoc(CorrectionsIn(a), CorrectionsIn(b'), if b[|b| - 1].Correction? then [b[|b| - 1]] else []);
    }
  }

  /** The correction segments of the first `k` matches, in match order. */
  function MatchSegments(matches: seq<Match>, decode: string -> string, k: nat): (r: seq<Segment>)
    requires k <= |matches|
    ensures |r| == k && forall i :: 0 <= i < k ==> r[i] == SegmentOf(matches[i], decode)
  {
    if k == 0 then []
    else
      var before := MatchSegments(matches, decode, k - 1);
      var r := before + [SegmentOf(matches[k - 1], decode)];
      assert forall i :: 0 <= i < k - 1 ==> r[i] == before[i];
      r
  }

  /** The correction segments are the matches' segments, one per match
      in match order. */
  lemma {:induction false} ScanCorrections(content: string, matches: seq<Match>, decode: string -> string, k: nat)
    requires Ordered(content, matches) && k <= |matches|
    ensures CorrectionsIn(Scan(content, matches, decode, k).segments) == MatchSegments(matches, decode, k)
  {
    if k > 0 {
      ScanCorrections(content, matches, decode, k - 1);
      ScanCorrectionsStep(content, matches, decode, k);
      SnocSame(CorrectionsIn(Scan(content, matches, decode, k).segments), CorrectionsIn(Scan(content, matches, decode, k - 1).segments),
        SegmentOf(matches[k - 1], decode), MatchSegments(matches, decode, k - 1), MatchSegments(matches, decode, k));
    }
  }

  lemma SnocSame(a: seq<Segment>, b: seq<Segment>, x: Segment, c: seq<Segment>, d: seq<Segment>)
    requires a == b + [x] && b == c && d == c + [x]
    ensures a == d
  {
  }

  /** One match adds its own correction segment after the earlier ones. */
  lemma ScanCorrectionsStep(content: string, matches: seq<Match>, decode: string -> string, k: nat)
    requires Ordered(content, matches) && 0 < k <= |matches|
    ensures CorrectionsIn(Scan(content, matches, decode, k).segments)
      == CorrectionsIn(Scan(content, matches, decode, k - 1).segments) + [SegmentOf(matches[k - 1], decode)]
  {
    var st := Scan(content, matches, decode, k - 1);
    var m := matches[k - 1];
    var plain := PlainBetween(content, st.pos, m.start, decode);
    assert CorrectionsIn(st.segments + plain) == CorrectionsIn(st.segments) by {
      CorrectionsInAppend(st.segments, plain);
      assert plain[..0] == [];
    }
    assert CorrectionsIn(st.segments + plain + [SegmentOf(m, decode)]) == CorrectionsIn(st.segments + plain) + [SegmentOf(m, decode)] by {
      assert (st.segments + plain + [SegmentOf(m, decode)])[..|st.segments + plain|] == st.segments + plain;
    }
  }

  /** The records of the first `k` matches, in match order. */
  function MatchEntries(matches: seq<Match>, decode: string -> string, k: nat): (r: seq<Entry>)
    requires k <= |matches|
    ensures |r| == k && forall i :: 0 <= i < k ==> r[i] == EntryOf(matches[i], decode)
  {
    if k == 0 then []
    else
      var before := MatchEntries(matches, decode, k - 1);
      var r := before + [EntryOf(matches[k - 1], decode)];
      assert forall i :: 0 <= i < k - 1 ==> r[i] == before[i];
      r
  }

  lemma SegmentsCorrections(content: string, matches: seq<Match>, decode: string -> string)
    requires Ordered(content, matches)
    ensures CorrectionsIn(Segments(content, matches, decode)) == MatchSegments(matches, decode, |matches|)
  {
    var st := Scan(content, matches, decode, |matches|);
    var rest := PlainBetween(content, st.pos, |content|, decode);
    ScanCorrections(content, matches, decode, |matches|);
    CorrectionsInAppend(st.segments, rest);
    assert CorrectionsIn(rest) == [] by {
      assert rest[..0] == [];
    }
  }

  /** A decoder that never turns text into nothing. */
  ghost predicate KeepsText(decode: string -> string)
  {
    forall s :: s != [] ==> decode(s) != []
  }

  /** No plain segment is empty. */
  lemma {:induction false} ScanPlainNonEmpty(content: string, matches: seq<Match>, decode: string -> string, k: nat)
    requires Ordered(content, matches) && k <= |matches| && KeepsText(decode)
    ensures forall i :: 0 <= i < |Scan(content, matches, decode, k).segments| ==>
      (Scan(content, matches, decode, k).segments[i].Plain? ==> Scan(content, matches, decode, k).segments[i].text != [])
  {
    if k > 0 {
      ScanPlainNonEmpty(content, matches, decode, k - 1);
      var st := Scan(content, matches, decode, k - 1);
      var m := matches[k - 1];
      var plain := PlainBetween(content, st.pos, m.start, decode);
      var all := st.segments + plain + [SegmentOf(m, decode)];
      assert Scan(content, matches, decode, k).segments == all;
      forall i | 0 <= i < |all| && all[i].Plain?
        ensures all[i].text != []
      {
        if i < |st.segments| {
          assert all[i] == st.segments[i];
        } else {
          assert all[i] == plain[i - |st.segments|];
        }
      }
    }
  }

  lemma PlainSegmentsNonEmpty(content: string, matches: seq<Match>, decode: string -> string)
    requires Ordered(content, matches) && KeepsText(decode)
    ensures forall i :: 0 <= i < |Segments(content, matches, decode)| ==>
      (Segments(content, matches, decode)[i].Plain? ==> Segments(content, matches, decode)[i].text != [])
  {
    ScanPlainNonEmpty(content, matches, decode, |matches|);
  }

  // ---------------------------------------------------------------------
  // The whole document

  /** Parse a document, given the `<content>` capture (None when the tag
      is missing), the decoded `<suggestions>` capture and the correction
      matches inside the trimmed content. */
  function Parse(contentCapture: Option<string>, suggestions: Option<string>, matches: seq<Match>,
                 decode: string -> string): (r: Result<ParsedText, ParserError>)
    requires contentCapture.Some? ==> Ordered(Trim(Rust, contentCapture.value), matches)
    ensures r.Err? <==> contentCapture.None?
    ensures r.Err? ==> r.error == InvalidXml("Missing content tag")
    ensures r.Ok? ==> r.value.text == OriginalText(r.value.segments) && r.value.suggestions == suggestions
  {
    match contentCapture
    case None => Err(InvalidXml("Missing content tag"))
    case Some(capture) =>
      var content := Trim(Rust, capture);
      var segments := Segments(content, matches, decode);
      Ok(ParsedText(OriginalText(segments), Scan(content, matches, decode, |matches|).entries, suggestions, segments))
  }

  /** A parsed text has one record per correction segment at the top
      level, in the same order and with the same texts, and no record
      holds nested records. */
  lemma ParsedRecords(contentCapture: Option<string>, suggestions: Option<string>, matches: seq<Match>,
                      decode: string -> string)
    requires contentCapture.Some? && Ordered(Trim(Rust, contentCapture.value), matches)
    ensures var p := Parse(contentCapture, suggestions, matches, decode).value;
      |p.corrections| == |CorrectionsIn(p.segments)|
      && forall i :: 0 <= i < |p.corrections| ==>
        p.corrections[i].original == CorrectionsIn(p.segments)[i].original
        && p.corrections[i].correction == CorrectionsIn(p.segments)[i].correction
        && p.corrections[i].children == []
  {
    var content := Trim(Rust, contentCapture.value);
    SegmentsCorrections(content, matches, decode);
  }
}
