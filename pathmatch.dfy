/** The ignore matcher the bundler builds from its pattern list, specified
    directly after the "PATTERN FORMAT" rules of gitignore(5) as the
    gitwildmatch dialect applies them to root-relative POSIX paths:
    a line is stripped of surrounding whitespace first (a trailing space
    escaped by `\` stays), a blank line is no pattern, a `#` line is a
    comment, a leading `!` re-includes, a leading `/` (or a slash in the
    middle) anchors the pattern, a single name matches at any depth, a
    trailing `/` restricts the pattern to what lies beneath a directory,
    `*` and `?` stay within one path segment, `**` spans zero or more
    segments, a pattern that matches a directory also matches everything
    beneath it, and the last matching pattern decides. */
module PathMatch {
  import opened Text

  /** One token of a single-segment glob. */
  datatype Tok = Lit(c: char) | AnyChar | Star

  /** A path segment pattern: a glob for exactly one segment, or `**`. */
  datatype Seg = Glob(toks: seq<Tok>) | AnyDepth

  /** A compiled pattern line. */
  datatype Pattern = Pattern(negated: bool, segs: seq<Seg>)

  /** Tokens of one segment; `\c` stands for the character c itself.
      Character classes `[...]` are read as literal characters. */
  function Tokenize(s: string): (r: seq<Tok>)
    ensures (forall i :: 0 <= i < |s| ==> s[i] != '*' && s[i] != '?' && s[i] != '\\') ==>
              r == seq(|s|, i requires 0 <= i < |s| => Lit(s[i]))
  {
    if s == [] then []
    else if s[0] == '*' then [Star] + Tokenize(s[1..])
    else if s[0] == '?' then [AnyChar] + Tokenize(s[1..])
    else if s[0] == '\\' && |s| >= 2 then [Lit(s[1])] + Tokenize(s[2..])
    else [Lit(s[0])] + Tokenize(s[1..])
  }

  function ToSeg(s: string): Seg
  {
    if s == "**" then AnyDepth else Glob(Tokenize(s))
  }

  /** One segment pattern per name, in order. */
  function ToSegs(names: seq<string>): (r: seq<Seg>)
    ensures |r| == |names| && forall i :: 0 <= i < |names| ==> r[i] == ToSeg(names[i])
  {
    seq(|names|, i requires 0 <= i < |names| => ToSeg(names[i]))
  }

  /** A pattern line is stripped of whitespace before it is compiled; a
      line ending in a backslash-escaped space is stripped on the left only,
      so that space stays part of the pattern. */
  function StripPattern(line: string): (r: string)
    ensures |r| <= |line|
    ensures Trimmed(Python, line) ==> r == line
    ensures Trim(Python, line) == [] ==> r == []
    ensures !EndsWith(line, "\\ ") ==> r == Trim(Python, line)
  {
    if EndsWith(line, "\\ ") then
      TrimKeepsVisible(line, |line| - 2);
      TrimStart(Python, line)
    else Trim(Python, line)
  }

  /** A line with a visible character does not trim to nothing. */
  lemma TrimKeepsVisible(line: string, i: nat)
    requires i < |line| && !PySpace(line[i])
    ensures Trim(Python, line) != [] && TrimStart(Python, line) != []
  {
    TrimEmpty(Python, line);
    TrimStartEmpty(Python, line);
  }

  /** A line whose ends are visible is left as it is by the stripping. */
  lemma StripKept(line: string)
    requires line != [] && !PySpace(line[0]) && !PySpace(line[|line| - 1])
    ensures StripPattern(line) == line
  {
    assert Trimmed(Python, line);
  }

  /** A line whose ends are visible compiles as it stands. */
  lemma CompileKept(line: string)
    requires line != [] && !PySpace(line[0]) && !PySpace(line[|line| - 1])
    ensures Compile(line) == CompileStripped(line)
  {
    StripKept(line);
  }

  /** Compile one pattern line: strip it, then compile what remains. */
  function Compile(line: string): (r: Option<Pattern>)
    ensures r.Some? ==> r.value.segs != []
    ensures var pat := StripPattern(line);
      r.Some? ==> pat != [] && (r.value.negated <==> pat[0] == '!')
    ensures Trim(Python, line) == [] ==> r.None?
  {
    CompileStripped(StripPattern(line))
  }

  /** Compile a stripped line; None for lines that match nothing (empty,
      comment, a lone `/`, a lone `!`). */
  function CompileStripped(pat: string): (r: Option<Pattern>)
    ensures r.Some? ==> r.value.segs != []
    ensures r.Some? ==> pat != [] && (r.value.negated <==> pat[0] == '!')
    ensures pat == [] || pat[0] == '#' || pat == "/" || pat == "!" ==> r.None?
  {
    if pat == [] || pat[0] == '#' || pat == "/" then None
    else
      var negated := pat[0] == '!';
      CompileBody(negated, if negated then pat[1..] else pat)
  }

  /** The pattern of a line without its `!`. */
  function CompileBody(negated: bool, body: string): (r: Option<Pattern>)
    ensures r.Some? ==> r.value.segs != [] && r.value.negated == negated
    ensures body == [] ==> r.None?
  {
    if body == [] then None
    else
      var anchoredParts := Anchor(Split(body, '/'));
      if anchoredParts == [] then None
      else Some(Pattern(negated, ToSegs(DirTail(anchoredParts))))
  }

  /** A leading slash anchors the pattern; a single name (optionally
      followed by one slash) matches at any depth. */
  function Anchor(parts: seq<string>): seq<string>
    requires parts != []
  {
    if parts[0] == [] then parts[1..]
    else if (|parts| == 1 || (|parts| == 2 && parts[1] == [])) && parts[0] != "**" then ["**"] + parts
    else parts
  }

  /** A trailing slash: only what lies beneath a directory. */
  function DirTail(parts: seq<string>): (r: seq<string>)
    requires parts != []
    ensures r != []
  {
    var last := |parts| - 1;
    if parts[last] == [] && last > 0 then parts[..last] + ["**"] else parts
  }

  /** Glob tokens against one path segment. */
  predicate GlobMatch(t: seq<Tok>, s: string)
    decreases |t| + |s|
  {
    if t == [] then s == []
    else match t[0]
      case Lit(c) => s != [] && s[0] == c && GlobMatch(t[1..], s[1..])
      case AnyChar => s != [] && GlobMatch(t[1..], s[1..])
      case Star => GlobMatch(t[1..], s) || (s != [] && GlobMatch(t, s[1..]))
  }

  /** Segment patterns against exactly these path segments. */
  predicate SegsMatch(segs: seq<Seg>, parts: seq<string>)
    decreases |segs| + |parts|
  {
    if segs == [] then parts == []
    else match segs[0]
      case AnyDepth => SegsMatch(segs[1..], parts) || (parts != [] && SegsMatch(segs, parts[1..]))
      case Glob(t) => parts != [] && GlobMatch(t, parts[0]) && SegsMatch(segs[1..], parts[1..])
  }

  /** A pattern matches a path when it matches some leading run of its
      segments: the path itself or one of its ancestor directories. A
      trailing `**` after other segments needs at least one segment beneath. */
  predicate Matches(p: Pattern, parts: seq<string>)
  {
    parts != [] &&
    if p.segs == [AnyDepth] then true
    else if |p.segs| > 1 && p.segs[|p.segs| - 1] == AnyDepth then
      exists k :: 1 <= k < |parts| && SegsMatch(p.segs[..|p.segs| - 1], parts[..k])
    else
      exists k :: 1 <= k <= |parts| && SegsMatch(p.segs, parts[..k])
  }

  /** A root-relative POSIX path as its segments. */
  function PathParts(path: string): seq<string>
  {
    Split(path, '/')
  }

  predicate LineMatches(line: string, path: string)
  {
    Compile(line).Some? && Matches(Compile(line).value, PathParts(path))
  }

  /** The verdict of a pattern list on a path: the last pattern that
      matches decides, and a path no pattern matches is not ignored. */
  predicate IsIgnored(lines: seq<string>, path: string)
  {
    if lines == [] then false
    else
      var last := lines[|lines| - 1];
      if LineMatches(last, path) then !Compile(last).value.negated
      else IsIgnored(lines[..|lines| - 1], path)
  }

  // ---------------------------------------------------------------------
  // Properties of the matcher

  /** The last matching pattern decides: appending a matching pattern
      sets the verdict to its polarity, appending one that does not match
      leaves the verdict unchanged. */
  lemma LastMatchDecides(lines: seq<string>, line: string, path: string)
    ensures LineMatches(line, path) ==> (IsIgnored(lines + [line], path) <==> StripPattern(line)[0] != '!')
    ensures !LineMatches(line, path) ==> (IsIgnored(lines + [line], path) <==> IsIgnored(lines, path))
  {
    assert (lines + [line])[..|lines|] == lines;
  }

  /** A blank pattern line decides nothing: the verdict stays what the
      earlier lines give. */
  lemma BlankLineInert(lines: seq<string>, line: string, path: string)
    requires Trim(Python, line) == []
    ensures !LineMatches(line, path)
    ensures IsIgnored(lines + [line], path) == IsIgnored(lines, path)
  {
    LastMatchDecides(lines, line, path);
  }

  /** An unescaped trailing space is not part of the pattern: `p ` compiles
      as `p` does, while `p\ ` keeps the space. */
  lemma TrailingSpaceDropped(p: string)
    requires p != [] && Trimmed(Python, p) && p[|p| - 1] != '\\'
    ensures Compile(p + " ") == Compile(p)
    ensures StripPattern(p + "\\ ") == p + "\\ "
  {
    StripTrailingSpace(p);
    StripKept(p);
    StripEscapedSpace(p);
  }

  lemma StripTrailingSpace(p: string)
    requires p != [] && Trimmed(Python, p) && p[|p| - 1] != '\\'
    ensures StripPattern(p + " ") == p
  {
    var q := p + " ";
    assert !EndsWith(q, "\\ ") by {
      assert q[|q| - 2] == p[|p| - 1];
    }
    assert TrimStart(Python, q) == q by {
      assert q[0] == p[0];
    }
    assert q[..|q| - 1] == p;
    assert TrimEnd(Python, p) == p;
  }

  lemma StripEscapedSpace(p: string)
    requires p != [] && !PySpace(p[0])
    ensures StripPattern(p + "\\ ") == p + "\\ "
  {
    var e := p + "\\ ";
    assert EndsWith(e, "\\ ") by {
      assert e[|e| - 2..] == "\\ ";
    }
    assert e[0] == p[0];
  }

  /** A later `!` pattern re-includes a path an earlier pattern ignored. */
  lemma NegationReincludes(lines: seq<string>, p: string, path: string)
    requires p != [] && p[0] != '!' && p != "/" && Trimmed(Python, p)
    requires LineMatches(p, path)
    ensures LineMatches("!" + p, path)
    ensures !IsIgnored(lines + ["!" + p], path)
  {
    CompileNegation(p);
    LastMatchDecides(lines, "!" + p, path);
  }

  /** `!p` compiles to the pattern `p` compiles to, negated. */
  lemma CompileNegation(p: string)
    requires p != [] && p[0] != '!' && p[0] != '#' && p != "/" && Trimmed(Python, p)
    ensures Compile("!" + p) == if Compile(p).Some? then Some(Compile(p).value.(negated := true)) else None
  {
    CompileKept("!" + p);
    CompileKept(p);
    NegatedBody(p);
  }

  lemma NegatedBody(p: string)
    requires p != [] && p[0] != '!' && p[0] != '#' && p != "/"
    ensures CompileStripped("!" + p) == CompileBody(true, p)
    ensures CompileStripped(p) == CompileBody(false, p)
    ensures CompileBody(true, p) == if CompileBody(false, p).Some? then Some(CompileBody(false, p).value.(negated := true)) else None
  {
    assert ("!" + p)[1..] == p;
  }

  /** Segment patterns made of globs only consume exactly one path segment
      each: `*` and `?` never reach across a `/`. */
  lemma {:induction false} GlobsStayInSegments(segs: seq<Seg>, parts: seq<string>)
    requires forall i :: 0 <= i < |segs| ==> segs[i].Glob?
    requires SegsMatch(segs, parts)
    ensures |parts| == |segs|
    ensures forall i :: 0 <= i < |segs| ==> GlobMatch(segs[i].toks, parts[i])
    decreases |segs|
  {
    if segs != [] {
      GlobsStayInSegments(segs[1..], parts[1..]);
      assert forall i :: 1 <= i < |segs| ==> segs[i] == segs[1..][i - 1] && parts[i] == parts[1..][i - 1];
    }
  }

  /** `**` matches any number (including zero) of whole segments. */
  lemma {:induction false} AnyDepthSpans(segs: seq<Seg>, skipped: seq<string>, parts: seq<string>)
    requires SegsMatch(segs, parts)
    ensures SegsMatch([AnyDepth] + segs, skipped + parts)
    decreases |skipped|
  {
    var ds := [AnyDepth] + segs;
    assert ds[0] == AnyDepth && ds[1..] == segs;
    if skipped == [] {
      assert skipped + parts == parts;
    } else {
      AnyDepthSpans(segs, skipped[1..], parts);
      assert (skipped + parts)[1..] == skipped[1..] + parts;
      assert SegsMatch(ds, (skipped + parts)[1..]);
    }
  }

  lemma {:induction false} SegsMatchAppend(a: seq<Seg>, pa: seq<string>, b: seq<Seg>, pb: seq<string>)
    requires SegsMatch(a, pa) && SegsMatch(b, pb)
    ensures SegsMatch(a + b, pa + pb)
    decreases |a| + |pa|
  {
    if a == [] {
      assert a + b == b && pa + pb == pb;
    } else {
      assert (a + b)[1..] == a[1..] + b;
      match a[0]
      case AnyDepth =>
        if SegsMatch(a[1..], pa) {
          SegsMatchAppend(a[1..], pa, b, pb);
        } else {
          SegsMatchAppend(a, pa[1..], b, pb);
          assert (pa + pb)[1..] == pa[1..] + pb;
        }
      case Glob(t) =>
        SegsMatchAppend(a[1..], pa[1..], b, pb);
        assert (pa + pb)[1..] == pa[1..] + pb;
    }
  }

  /** A pattern that matches a directory also matches everything beneath it. */
  lemma DirectoryCovers(p: Pattern, dir: seq<string>, rest: seq<string>)
    requires Matches(p, dir)
    ensures Matches(p, dir + rest)
  {
    var parts := dir + rest;
    if p.segs == [AnyDepth] {
    } else if |p.segs| > 1 && p.segs[|p.segs| - 1] == AnyDepth {
      var k :| 1 <= k < |dir| && SegsMatch(p.segs[..|p.segs| - 1], dir[..k]);
      assert parts[..k] == dir[..k];
    } else {
      var k :| 1 <= k <= |dir| && SegsMatch(p.segs, dir[..k]);
      assert parts[..k] == dir[..k];
    }
  }

  // `**/name` compiles to the same pattern as the bare `name`.
  lemma CompileAnyDepthName(name: string)
    requires PlainName(name)
    ensures Compile("**/" + name) == Some(Pattern(false, [AnyDepth, Glob(Tokenize(name))]))
  {
    CompileKept("**/" + name);
    CompileAnyDepthNameStripped(name);
  }

  lemma CompileAnyDepthNameStripped(name: string)
    requires PlainName(name)
    ensures CompileStripped("**/" + name) == Some(Pattern(false, [AnyDepth, Glob(Tokenize(name))]))
  {
    var line := "**/" + name;
    assert line == "**" + ['/'] + name;
    SplitCons("**", name, '/');
    SplitNone(name, '/');
    var sp := ["**", name];
    assert Split(line, '/') == sp;
    assert sp[1] != [];
    assert ToSegs(sp) == [ToSeg("**"), ToSeg(name)];
  }

  /** A pattern that is one plain name matches that name at any depth. */
  lemma BareNameAnyDepth(name: string, dirs: seq<string>)
    requires PlainName(name) && name[0] != '#' && name[0] != '!'
    requires forall i :: 0 <= i < |dirs| ==> '/' !in dirs[i]
    ensures LineMatches(name, JoinPath(dirs + [name]))
  {
    CompileBare(name);
    AnyDepthNameMatches(name, dirs);
  }

  lemma AnyDepthNameMatches(name: string, dirs: seq<string>)
    requires PlainName(name)
    requires forall i :: 0 <= i < |dirs| ==> '/' !in dirs[i]
    ensures Matches(Pattern(false, [AnyDepth, Glob(Tokenize(name))]), PathParts(JoinPath(dirs + [name])))
  {
    var g := Glob(Tokenize(name));
    var p := Pattern(false, [AnyDepth, g]);
    LitsMatch(name);
    var tail := [g];
    assert SegsMatch(tail, [name]) by {
      assert tail[1..] == [];
      assert [name][1..] == [];
    }
    AnyDepthSpans(tail, dirs, [name]);
    SplitJoinPath(dirs + [name]);
    var parts := dirs + [name];
    assert parts[..|parts|] == parts;
    assert [AnyDepth] + tail == p.segs;
  }

  /** A pattern that is one anchored name matches exactly the paths whose
      first segment is that name: the entry itself and all beneath it. */
  lemma AnchoredNameMatches(name: string, parts: seq<string>)
    requires PlainName(name) && parts != []
    ensures Matches(Pattern(false, [Glob(Tokenize(name))]), parts) <==> parts[0] == name
  {
    var g := Glob(Tokenize(name));
    LitsExact(name, parts[0]);
    forall k | 1 <= k <= |parts|
      ensures SegsMatch([g], parts[..k]) <==> k == 1 && parts[0] == name
    {
      assert [g][1..] == [];
      assert parts[..k][0] == parts[0];
      assert |parts[..k][1..]| == k - 1;
    }
    if parts[0] == name {
      assert SegsMatch([g], parts[..1]);
    }
  }

  /** `**` followed by globs matches exactly the paths whose last segments
      match those globs, one segment each. */
  lemma {:induction false} AnyDepthThenGlobs(segs: seq<Seg>, ps: seq<string>)
    requires forall i :: 0 <= i < |segs| ==> segs[i].Glob?
    ensures SegsMatch([AnyDepth] + segs, ps) <==> |ps| >= |segs| && SegsMatch(segs, ps[|ps| - |segs|..])
    decreases |ps|
  {
    var ds := [AnyDepth] + segs;
    assert ds[0] == AnyDepth && ds[1..] == segs;
    if SegsMatch(segs, ps) {
      GlobsStayInSegments(segs, ps);
      assert ps[|ps| - |segs|..] == ps;
    }
    if ps != [] {
      AnyDepthThenGlobs(segs, ps[1..]);
      if |ps| > |segs| {
        assert ps[1..][|ps| - 1 - |segs|..] == ps[|ps| - |segs|..];
      }
    }
    if |ps| >= |segs| && SegsMatch(segs, ps[|ps| - |segs|..]) && |ps| == |segs| {
      assert ps[|ps| - |segs|..] == ps;
    }
  }

  /** A pattern that is one plain name matches exactly the paths that have
      a segment of that name. */
  lemma BareNameMatches(name: string, parts: seq<string>)
    requires PlainName(name)
    ensures Matches(Pattern(false, [AnyDepth, Glob(Tokenize(name))]), parts) <==> name in parts
  {
    var g := Glob(Tokenize(name));
    assert [AnyDepth, g] == [AnyDepth] + [g];
    if name in parts {
      var i :| 0 <= i < |parts| && parts[i] == name;
      OneGlobAtEnd(name, parts[..i + 1]);
      AnyDepthThenGlobs([g], parts[..i + 1]);
    }
    forall k | 1 <= k <= |parts| && SegsMatch([AnyDepth, g], parts[..k])
      ensures name in parts
    {
      AnyDepthThenGlobs([g], parts[..k]);
      OneGlobAtEnd(name, parts[..k]);
      assert parts[..k][k - 1] == parts[k - 1];
    }
  }

  lemma OneGlobAtEnd(name: string, ps: seq<string>)
    requires PlainName(name) && ps != []
    ensures SegsMatch([Glob(Tokenize(name))], ps[|ps| - 1..]) <==> ps[|ps| - 1] == name
  {
    var g := Glob(Tokenize(name));
    LitsExact(name, ps[|ps| - 1]);
    assert [g][1..] == [];
    assert ps[|ps| - 1..] == [ps[|ps| - 1]];
    assert [ps[|ps| - 1]][1..] == [];
  }

  /** A pattern `a/b/` matches exactly what lies beneath the directory `a/b`
      at the root. */
  lemma TwoNamesDirMatches(a: string, b: string, parts: seq<string>)
    requires PlainName(a) && PlainName(b)
    ensures Matches(Pattern(false, [Glob(Tokenize(a)), Glob(Tokenize(b)), AnyDepth]), parts)
      <==> |parts| > 2 && parts[0] == a && parts[1] == b
  {
    var ga := Glob(Tokenize(a));
    var gb := Glob(Tokenize(b));
    assert [ga, gb, AnyDepth][..2] == [ga, gb];
    TwoNamesPrefixOnly(a, b, parts);
    if |parts| > 2 && parts[0] == a && parts[1] == b {
      TwoNamesPrefix(a, b, parts);
    }
  }

  /** Only `a` then `b` matches the two names. */
  lemma TwoNamesPrefixOnly(a: string, b: string, parts: seq<string>)
    requires PlainName(a) && PlainName(b)
    ensures forall k :: 1 <= k < |parts| && SegsMatch([Glob(Tokenize(a)), Glob(Tokenize(b))], parts[..k]) ==>
              |parts| > 2 && parts[0] == a && parts[1] == b
  {
    var ga := Glob(Tokenize(a));
    var gb := Glob(Tokenize(b));
    forall k | 1 <= k < |parts| && SegsMatch([ga, gb], parts[..k])
      ensures |parts| > 2 && parts[0] == a && parts[1] == b
    {
      GlobsStayInSegments([ga, gb], parts[..k]);
      LitsExact(a, parts[0]);
      LitsExact(b, parts[1]);
    }
  }

  /** `a` then `b` matches the two names. */
  lemma TwoNamesPrefix(a: string, b: string, parts: seq<string>)
    requires PlainName(a) && PlainName(b)
    requires |parts| > 2 && parts[0] == a && parts[1] == b
    ensures SegsMatch([Glob(Tokenize(a)), Glob(Tokenize(b))], parts[..2])
  {
    var ga := Glob(Tokenize(a));
    var gb := Glob(Tokenize(b));
    LitsExact(a, a);
    LitsExact(b, b);
    assert [ga, gb][1..] == [gb] && [gb][1..] == [];
    assert parts[..2][1..] == [b] && [b][1..] == [];
  }

  /** A pattern `/a/**/b/` matches everything beneath a directory `b` at
      any depth below the top-level directory `a`. */
  lemma SubtreeDirMatches(a: string, b: string, parts: seq<string>, j: nat)
    requires PlainName(a) && PlainName(b)
    requires 1 <= j < |parts| - 1 && parts[0] == a && parts[j] == b
    ensures Matches(Pattern(false, [Glob(Tokenize(a)), AnyDepth, Glob(Tokenize(b)), AnyDepth]), parts)
  {
    var ga := Glob(Tokenize(a));
    var gb := Glob(Tokenize(b));
    var segs := [ga, AnyDepth, gb, AnyDepth];
    var front := parts[..j + 1];
    LitsExact(a, a);
    OneGlobAtEnd(b, front[1..]);
    AnyDepthThenGlobs([gb], front[1..]);
    assert segs[..3] == [ga] + ([AnyDepth] + [gb]);
    assert SegsMatch(segs[..3], front) by {
      assert segs[..3][1..] == [AnyDepth] + [gb];
      assert front[0] == a;
    }
  }

  /** A pattern `d/` matches everything beneath any directory named `d`. */
  lemma DirNameMatches(d: string, parts: seq<string>, j: nat)
    requires PlainName(d)
    requires j < |parts| - 1 && parts[j] == d
    ensures Matches(Pattern(false, [AnyDepth, Glob(Tokenize(d)), AnyDepth]), parts)
  {
    var g := Glob(Tokenize(d));
    var segs := [AnyDepth, g, AnyDepth];
    assert segs[..2] == [AnyDepth] + [g];
    var front := parts[..j + 1];
    OneGlobAtEnd(d, front);
    AnyDepthThenGlobs([g], front);
  }

  // ---------------------------------------------------------------------
  // helpers

  /** A non-empty segment with no separator, wildcard or escape. */
  predicate PlainName(s: string)
  {
    s != [] && !PySpace(s[0]) && !PySpace(s[|s| - 1]) && forall i :: 0 <= i < |s| ==> s[i] != '/' && s[i] != '*' && s[i] != '?' && s[i] != '\\'
  }

  /** A plain name as a glob matches that name and nothing else. */
  lemma {:induction false} LitsExact(s: string, t: string)
    requires forall i :: 0 <= i < |s| ==> s[i] != '*' && s[i] != '?' && s[i] != '\\'
    ensures GlobMatch(Tokenize(s), t) <==> t == s
  {
    if s != [] && t != [] {
      LitsExact(s[1..], t[1..]);
      assert s == [s[0]] + s[1..] && t == [t[0]] + t[1..];
    }
  }

  lemma CompileBare(name: string)
    requires PlainName(name) && name[0] != '#' && name[0] != '!'
    ensures Compile(name) == Some(Pattern(false, [AnyDepth, Glob(Tokenize(name))]))
  {
    CompileKept(name);
    CompileBareStripped(name);
  }

  lemma CompileBareStripped(name: string)
    requires PlainName(name) && name[0] != '#' && name[0] != '!'
    ensures CompileStripped(name) == Some(Pattern(false, [AnyDepth, Glob(Tokenize(name))]))
  {
    assert name != "**" by { assert name[0] != '*'; }
    assert name != "/" by { assert name[0] != '/'; }
    SplitNone(name, '/');
    var sp := ["**", name];
    assert ["**"] + Split(name, '/') == sp;
    assert sp[1] != [];
    assert ToSegs(sp) == [ToSeg("**"), ToSeg(name)];
  }

  lemma CompileRooted(name: string)
    requires PlainName(name)
    ensures Compile("/" + name) == Some(Pattern(false, [Glob(Tokenize(name))]))
  {
    CompileKept("/" + name);
    CompileRootedStripped(name);
  }

  lemma CompileRootedStripped(name: string)
    requires PlainName(name)
    ensures CompileStripped("/" + name) == Some(Pattern(false, [Glob(Tokenize(name))]))
  {
    assert name != "**" by { assert name[0] != '*'; }
    SplitNone(name, '/');
    SplitCons([], name, '/');
    assert [] + ['/'] + name == "/" + name;
    var sp := [name];
    assert ToSegs(sp) == [ToSeg(name)];
  }

  lemma CompileTwoDir(a: string, b: string)
    requires PlainName(a) && PlainName(b) && a[0] != '#' && a[0] != '!'
    ensures Compile(a + "/" + b + "/") == Some(Pattern(false, [Glob(Tokenize(a)), Glob(Tokenize(b)), AnyDepth]))
  {
    CompileKept(a + "/" + b + "/");
    CompileTwoDirStripped(a, b);
  }

  lemma CompileTwoDirStripped(a: string, b: string)
    requires PlainName(a) && PlainName(b) && a[0] != '#' && a[0] != '!'
    ensures CompileStripped(a + "/" + b + "/") == Some(Pattern(false, [Glob(Tokenize(a)), Glob(Tokenize(b)), AnyDepth]))
  {
    var line := a + "/" + b + "/";
    assert a != "**" by { assert a[0] != '*'; }
    assert b != "**" by { assert b[0] != '*'; }
    assert line[0] == a[0];
    assert Split(line, '/') == [a, b, []] by {
      SplitCons(b, [], '/');
      SplitCons(a, b + "/", '/');
      assert line == a + ['/'] + (b + "/");
      assert b + "/" == b + ['/'] + [];
    }
    var sp := [a, b, "**"];
    assert [a, b, []][..2] + ["**"] == sp;
    assert ToSegs(sp) == [ToSeg(a), ToSeg(b), ToSeg("**")];
  }

  lemma CompileSubtreeDir(a: string, b: string)
    requires PlainName(a) && PlainName(b)
    ensures Compile("/" + a + "/**/" + b + "/")
         == Some(Pattern(false, [Glob(Tokenize(a)), AnyDepth, Glob(Tokenize(b)), AnyDepth]))
  {
    CompileKept("/" + a + "/**/" + b + "/");
    CompileSubtreeDirStripped(a, b);
  }

  lemma CompileSubtreeDirStripped(a: string, b: string)
    requires PlainName(a) && PlainName(b)
    ensures CompileStripped("/" + a + "/**/" + b + "/")
         == Some(Pattern(false, [Glob(Tokenize(a)), AnyDepth, Glob(Tokenize(b)), AnyDepth]))
  {
    var line := "/" + a + "/**/" + b + "/";
    assert a != "**" by { assert a[0] != '*'; }
    assert b != "**" by { assert b[0] != '*'; }
    assert line[0] == '/' && |line| > 1;
    assert CompileStripped(line) == CompileBody(false, line);
    SplitSubtreeDir(a, b);
    var ap := [a, "**", b, []];
    assert Anchor([[], a, "**", b, []]) == ap by {
      assert [[], a, "**", b, []][1..] == ap;
    }
    var sp := [a, "**", b, "**"];
    assert DirTail(ap) == sp by {
      assert ap[..3] + ["**"] == sp;
    }
    assert ToSegs(sp) == [ToSeg(a), ToSeg("**"), ToSeg(b), ToSeg("**")];
  }

  lemma SplitSubtreeDir(a: string, b: string)
    requires PlainName(a) && PlainName(b)
    ensures Split("/" + a + "/**/" + b + "/", '/') == [[], a, "**", b, []]
  {
    var t1 := b + "/";
    var t2 := "**" + "/" + t1;
    var t3 := a + "/" + t2;
    assert "/" + a + "/**/" + b + "/" == [] + ['/'] + t3;
    SplitCons(b, [], '/');
    assert t1 == b + ['/'] + [];
    SplitCons("**", t1, '/');
    SplitCons(a, t2, '/');
    SplitCons([], t3, '/');
  }

  lemma CompileDirName(d: string)
    requires PlainName(d) && d[0] != '#' && d[0] != '!'
    ensures Compile(d + "/") == Some(Pattern(false, [AnyDepth, Glob(Tokenize(d)), AnyDepth]))
  {
    CompileKept(d + "/");
    CompileDirNameStripped(d);
  }

  lemma CompileDirNameStripped(d: string)
    requires PlainName(d) && d[0] != '#' && d[0] != '!'
    ensures CompileStripped(d + "/") == Some(Pattern(false, [AnyDepth, Glob(Tokenize(d)), AnyDepth]))
  {
    assert d != "**" by { assert d[0] != '*'; }
    assert (d + "/")[0] == d[0] && d + "/" != "/";
    assert Split(d + "/", '/') == [d, []] by {
      assert d + "/" == d + ['/'] + [];
      SplitCons(d, [], '/');
    }
    var sp := ["**", d, "**"];
    assert ["**"] + [d, []] == ["**", d, []];
    assert ["**", d, []][..2] + ["**"] == sp;
    assert ToSegs(sp) == [ToSeg("**"), ToSeg(d), ToSeg("**")];
  }

  lemma PathOfFour(a: string, b: string, c: string, d: string)
    requires '/' !in a && '/' !in b && '/' !in c && '/' !in d
    ensures PathParts(a + "/" + b + "/" + c + "/" + d) == [a, b, c, d]
  {
    var cd := c + "/" + d;
    var bcd := b + "/" + cd;
    assert a + "/" + b + "/" + c + "/" + d == a + ['/'] + bcd;
    PathOfTwo(c, d);
    SplitCons(b, cd, '/');
    SplitCons(a, bcd, '/');
  }

  lemma PathOfTwo(a: string, b: string)
    requires '/' !in a && '/' !in b
    ensures PathParts(a + "/" + b) == [a, b]
  {
    SplitCons(a, b, '/');
    SplitNone(b, '/');
  }

  function JoinPath(parts: seq<string>): string
  {
    Join(parts, "/")
  }

  lemma {:induction false} LitsMatch(s: string)
    requires forall i :: 0 <= i < |s| ==> s[i] != '*' && s[i] != '?' && s[i] != '\\'
    ensures GlobMatch(Tokenize(s), s)
  {
    if s != [] {
      LitsMatch(s[1..]);
    }
  }

  lemma {:induction false} SplitJoinPath(parts: seq<string>)
    requires parts != []
    requires forall i :: 0 <= i < |parts| ==> '/' !in parts[i]
    ensures PathParts(JoinPath(parts)) == parts
  {
    if |parts| == 1 {
      SplitNone(parts[0], '/');
    } else {
      SplitJoinPath(parts[1..]);
      SplitCons(parts[0], JoinPath(parts[1..]), '/');
      assert parts == [parts[0]] + parts[1..];
    }
  }
}
