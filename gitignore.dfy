/** Rewriting the lines of every `.gitignore` in a repository into one list
    of root-relative patterns (wrap_codeblocks.py).

    `TransformPattern` is the rewrite exactly as the program performs it.
    `TransformPatternFixed` is the rewrite the loaders of this model use: it
    keeps the anchoring and the any-depth meaning the gitignore(5) rules give
    a line (see the lemmas `RootAnchorLost`, `TrailingSlashDepthLost` and
    `LoneSlashIgnoresDirectory` for inputs where the two differ). */
module Gitignore {
  import opened Text
  import opened PathMatch

  /** A line that survived the blank / comment / lone-`!` checks: whether it
      was negated, and the (non-empty) pattern after the `!`. */
  datatype Line = Line(negative: bool, body: string)

  /** The first half of the rewrite: strip, drop blank and comment lines,
      split off a leading `!` (and strip again after it). */
  function ParseLine(line: string): (r: Option<Line>)
    ensures r.Some? ==> r.value.body != [] && (r.value.body[0] != '#' || r.value.negative)
    ensures r.Some? ==> Trimmed(Python, r.value.body)
  {
    var pat := Trim(Python, line);
    if pat == [] || pat[0] == '#' then None
    else if pat[0] == '!' then
      var rest := Trim(Python, pat[1..]);
      if rest == [] then None else Some(Line(true, rest))
    else Some(Line(false, pat))
  }

  /** The relocation of a pattern body found in the `.gitignore` of `dirRel`
      ("." for the repository root), as the program writes it. */
  function Rewrite(dirRel: string, body: string): string
    requires body != []
  {
    var anchored := body[0] == '/';
    var p := if anchored then body[1..] else body;
    if anchored || '/' in p then (if dirRel != "." then dirRel + "/" + p else p)
    else if dirRel != "." then dirRel + "/**/" + p
    else "**/" + p
  }

  /** One `.gitignore` line of directory `dirRel` as a root-relative pattern;
      None for lines the program skips. */
  function TransformPattern(dirRel: string, line: string): (r: Option<string>)
    ensures r.Some? <==> ParseLine(line).Some?
    ensures r.Some? ==> var l := ParseLine(line).value;
      EndsWith(r.value, if l.body[0] == '/' then l.body[1..] else l.body) && (l.negative ==> StartsWith(r.value, "!"))
  {
    match ParseLine(line)
    case None => None
    case Some(l) =>
      var q := Rewrite(dirRel, l.body);
      RewriteEnds(dirRel, l.body);
      Prefixed(l.negative, q, if l.body[0] == '/' then l.body[1..] else l.body);
      Some(if l.negative then "!" + q else q)
  }

  /** The relocation only puts the directory, and `**` for a bare name, in front. */
  lemma RewriteEnds(dirRel: string, body: string)
    requires body != []
    ensures EndsWith(Rewrite(dirRel, body), if body[0] == '/' then body[1..] else body)
  {
  }

  /** Putting `!` in front keeps what a pattern ends with. */
  lemma Prefixed(negative: bool, q: string, p: string)
    requires EndsWith(q, p)
    ensures var r := if negative then "!" + q else q;
      EndsWith(r, p) && (negative ==> StartsWith(r, "!"))
  {
    if negative {
      assert ("!" + q)[|"!" + q| - |p|..] == q[|q| - |p|..];
    }
  }

  /** Blank lines, comment lines and a lone `!` yield None; every other line
      yields a pattern. */
  lemma TransformSkips(dirRel: string, line: string)
    ensures var pat := Trim(Python, line);
      TransformPattern(dirRel, line).None? <==>
        (pat == [] || pat[0] == '#' || (pat[0] == '!' && Trim(Python, pat[1..]) == []))
  {
  }

  /** A negated line stays negated; below the root (in a directory whose name
      does not itself start with `!`) a line that was not negated does not
      become negated either. */
  lemma TransformNegation(dirRel: string, line: string)
    requires TransformPattern(dirRel, line).Some?
    ensures var pat := Trim(Python, line); var r := TransformPattern(dirRel, line).value;
      pat[0] == '!' ==> r != [] && r[0] == '!'
    ensures var pat := Trim(Python, line); var r := TransformPattern(dirRel, line).value;
      dirRel != "." && dirRel != [] && dirRel[0] != '!' ==> r != [] && (r[0] == '!' <==> pat[0] == '!')
  {
    ParseLineNegative(line);
    var l := ParseLine(line).value;
    if dirRel != "." && dirRel != [] {
      RewriteHead(dirRel, l.body);
    }
  }

  /** Below the root the rewrite starts with the directory's first character. */
  lemma RewriteHead(dirRel: string, body: string)
    requires dirRel != "." && dirRel != [] && body != []
    ensures Rewrite(dirRel, body) != [] && Rewrite(dirRel, body)[0] == dirRel[0]
  {
  }

  // The three relocation rules: an anchored body `/p` becomes `dirRel/p`
  // (plain `p` at the root); a body with a slash anywhere, a trailing one
  // included, is prefixed with `dirRel/` (unchanged at the root); a bare
  // name becomes `dirRel/**/name` (`**/name` at the root).
  lemma TransformCases(dirRel: string, line: string)
    requires ParseLine(line).Some?
    ensures var l := ParseLine(line).value; var r := TransformPattern(dirRel, line).value;
      var q := if l.negative then r[1..] else r;
      && (l.negative ==> r == "!" + q)
      && (l.body[0] == '/' ==> q == if dirRel == "." then l.body[1..] else dirRel + "/" + l.body[1..])
      && (l.body[0] != '/' && '/' in l.body ==> q == if dirRel == "." then l.body else dirRel + "/" + l.body)
      && ('/' !in l.body ==> q == if dirRel == "." then "**/" + l.body else dirRel + "/**/" + l.body)
  {
    var l := ParseLine(line).value;
    var r := TransformPattern(dirRel, line).value;
    if l.negative {
      assert ("!" + Rewrite(dirRel, l.body))[1..] == Rewrite(dirRel, l.body);
    }
  }

  // ---------------------------------------------------------------------
  // The corrected rewrite

  /** The directory part of a relocated pattern: empty at the root,
      otherwise `/dirRel`, which both anchors the pattern and keeps a
      directory name starting with `!` or `#` from being read as a negation
      or a comment. */
  function Base(dirRel: string): (r: string)
    ensures r == [] || r[0] == '/'
  {
    if dirRel == "." then [] else "/" + dirRel
  }

  /** A slash before the last character anchors a body; a trailing slash
      alone does not (it only restricts the pattern to directories). */
  predicate AnchorsBody(body: string)
  {
    body != [] && (body[0] == '/' || '/' in body[..|body| - 1])
  }

  function RewriteFixed(dirRel: string, body: string): (r: Option<string>)
    requires body != []
    ensures r.Some? ==> |r.value| >= 2 && (r.value[0] == '/' || r.value[0] == '*')
    ensures r.None? <==> body == "/"
    ensures r.Some? ==> r.value[|r.value| - 1] == body[|body| - 1]
  {
    var p := if body[0] == '/' then body[1..] else body;
    if body == "/" then None
    else if AnchorsBody(body) then Some(Base(dirRel) + "/" + p)
    else if dirRel == "." then Some("**/" + p)
    else Some(Base(dirRel) + "/**/" + p)
  }

  /** The rewrite the loaders use. */
  function TransformPatternFixed(dirRel: string, line: string): Option<string>
  {
    match ParseLine(line)
    case None => None
    case Some(l) =>
      match RewriteFixed(dirRel, l.body)
      case None => None
      case Some(q) => Some(if l.negative then "!" + q else q)
  }

  /** The corrected rewrite skips exactly the lines the program skips, and
      a lone `/`; what it yields is never empty, starts with `!` exactly when
      the line did, and is never read as a comment. */
  lemma FixedShape(dirRel: string, line: string)
    ensures var r := TransformPatternFixed(dirRel, line);
      && (r.None? <==> ParseLine(line).None? || ParseLine(line).value.body == "/")
      && (r.Some? ==> r.value != [] && r.value[0] != '#')
      && (r.Some? ==> (r.value[0] == '!' <==> Trim(Python, line)[0] == '!'))
  {
    var pl := ParseLine(line);
    if pl.Some? {
      ParseLineNegative(line);
      var q := RewriteFixed(dirRel, pl.value.body);
      if q.Some? {
        assert q.value[0] != '!';
      }
    }
  }

  /** A parsed line is negated exactly when its stripped text starts with `!`. */
  lemma ParseLineNegative(line: string)
    requires ParseLine(line).Some?
    ensures Trim(Python, line) != [] && (ParseLine(line).value.negative <==> Trim(Python, line)[0] == '!')
  {
  }

  /** Every corrected pattern compiles, with the polarity of its line. */
  lemma FixedCompiles(dirRel: string, line: string)
    requires TransformPatternFixed(dirRel, line).Some?
    ensures var r := TransformPatternFixed(dirRel, line).value;
      Compile(r).Some? && (Compile(r).value.negated <==> Trim(Python, line)[0] == '!')
  {
    var negative, q := FixedValue(dirRel, line);
    CompileRewritten(negative, q, TransformPatternFixed(dirRel, line).value);
  }

  /** The corrected line is the rewritten body `q`, behind a `!` when the
      line was negated. */
  predicate RewrittenFrom(negative: bool, q: string, r: string)
  {
    |q| >= 2 && (q[0] == '/' || q[0] == '*') && !IsSpace(Python, q[|q| - 1])
    && r == if negative then "!" + q else q
  }

  lemma FixedValue(dirRel: string, line: string) returns (negative: bool, q: string)
    requires TransformPatternFixed(dirRel, line).Some?
    ensures RewrittenFrom(negative, q, TransformPatternFixed(dirRel, line).value)
    ensures Trim(Python, line) != [] && (negative <==> Trim(Python, line)[0] == '!')
  {
    var l := ParseLine(line).value;
    negative := l.negative;
    q := RewriteFixed(dirRel, l.body).value;
    ParseLineNegative(line);
  }

  lemma CompileRewritten(negative: bool, q: string, r: string)
    requires RewrittenFrom(negative, q, r)
    ensures Compile(r).Some? && (Compile(r).value.negated <==> negative)
  {
    assert r[|r| - 1] == q[|q| - 1];
    assert negative ==> r[1..] == q;
    assert !PySpace(r[|r| - 1]);
    CompileNonEmpty(r);
  }

  /** Below the root the two rewrites differ only by the leading `/` of the
      corrected one (which anchors the pattern without changing what an
      already anchored pattern matches), as long as the body is a bare name
      or holds a slash before its last character. */
  lemma FixedAgreesBelowRoot(dirRel: string, line: string)
    requires dirRel != "." && ParseLine(line).Some?
    requires var b := ParseLine(line).value.body; b != "/" && (AnchorsBody(b) || '/' !in b)
    ensures var l := ParseLine(line).value; var q := Rewrite(dirRel, l.body);
      && TransformPattern(dirRel, line) == Some(if l.negative then "!" + q else q)
      && TransformPatternFixed(dirRel, line) == Some(if l.negative then "!/" + q else "/" + q)
  {
    var l := ParseLine(line).value;
    RewritesAgree(dirRel, l.body);
    var q := Rewrite(dirRel, l.body);
    assert "!" + ("/" + q) == "!/" + q;
  }

  lemma RewritesAgree(dirRel: string, b: string)
    requires dirRel != "." && b != [] && b != "/" && (AnchorsBody(b) || '/' !in b)
    ensures RewriteFixed(dirRel, b) == Some("/" + Rewrite(dirRel, b))
  {
    var p := if b[0] == '/' then b[1..] else b;
    if AnchorsBody(b) {
      if b[0] != '/' {
        InPrefix(b, '/');
      }
      assert Rewrite(dirRel, b) == dirRel + "/" + p;
      assert Base(dirRel) + "/" + p == "/" + (dirRel + "/" + p);
    } else {
      assert Rewrite(dirRel, b) == dirRel + "/**/" + p;
      assert Base(dirRel) + "/**/" + p == "/" + (dirRel + "/**/" + p);
    }
  }

  lemma InPrefix(s: string, c: char)
    requires |s| >= 1 && c in s[..|s| - 1]
    ensures c in s
  {
    var i :| 0 <= i < |s| - 1 && s[..|s| - 1][i] == c;
    assert s[i] == c;
  }

  lemma CompileNonEmpty(r: string)
    requires r != [] && r[0] != '#' && !PySpace(r[|r| - 1])
    requires var body := if r[0] == '!' then r[1..] else r;
      body != [] && (body[0] == '*' || (body[0] == '/' && |body| >= 2))
    ensures Compile(r).Some? && (Compile(r).value.negated <==> r[0] == '!')
  {
    assert !PySpace(r[0]) by {
      assert r[0] == '!' || r[0] == '*' || r[0] == '/';
    }
    CompileKept(r);
    CompileNonEmptyStripped(r);
  }

  lemma CompileNonEmptyStripped(r: string)
    requires r != [] && r[0] != '#'
    requires var body := if r[0] == '!' then r[1..] else r;
      body != [] && (body[0] == '*' || (body[0] == '/' && |body| >= 2))
    ensures CompileStripped(r).Some? && (CompileStripped(r).value.negated <==> r[0] == '!')
  {
    var negated := r[0] == '!';
    var body := if negated then r[1..] else r;
    if body[0] == '/' {
      SplitHead(body);
    }
  }

  lemma SplitHead(s: string)
    requires |s| >= 2 && s[0] == '/'
    ensures Split(s, '/')[0] == [] && |Split(s, '/')| >= 2
  {
    assert Split(s, '/') == [[]] + Split(s[1..], '/');
  }

  // ---------------------------------------------------------------------
  // Where the two rewrites differ

  /** Trimming and the comment / negation checks leave a plain line alone. */
  lemma ParsePlain(line: string)
    requires line != [] && !IsSpace(Python, line[0]) && !IsSpace(Python, line[|line| - 1])
    requires line[0] != '#' && line[0] != '!'
    ensures ParseLine(line) == Some(Line(false, line))
  {
    TrimUnchanged(Python, line);
  }

  /** A name that needs no quoting in a pattern: no separator, wildcard,
      escape or whitespace, not `.`, and not starting with `#` or `!`. */
  predicate Word(s: string)
  {
    PlainName(s) && s != "." && s[0] != '#' && s[0] != '!'
    && forall i :: 0 <= i < |s| ==> !PySpace(s[i])
  }

  /** An anchored line of the root `.gitignore` loses its anchor: `/build`
      becomes the bare name `build`, which also matches `src/build`. */
  lemma RootAnchorLost(name: string, dir: string)
    requires Word(name) && Word(dir)
    ensures TransformPattern(".", "/" + name) == Some(name)
    ensures LineMatches(name, dir + "/" + name)
  {
    ParsePlain("/" + name);
    assert ("/" + name)[1..] == name;
    CompileBare(name);
    PathOfTwo(dir, name);
    BareNameMatches(name, [dir, name]);
  }

  /** The corrected rewrite keeps the anchor: `/build` matches the top-level
      entry and what lies beneath it, and not `src/build`. */
  lemma RootAnchorKept(name: string, dir: string, child: string)
    requires Word(name) && Word(dir) && dir != name && '/' !in child
    ensures TransformPatternFixed(".", "/" + name) == Some("/" + name)
    ensures !LineMatches("/" + name, dir + "/" + name)
    ensures LineMatches("/" + name, name + "/" + child)
  {
    ParsePlain("/" + name);
    RootAnchorFixed(name);
    RootAnchorMatches(name, dir, child);
  }

  lemma RootAnchorMatches(name: string, dir: string, child: string)
    requires Word(name) && Word(dir) && dir != name && '/' !in child
    ensures !LineMatches("/" + name, dir + "/" + name)
    ensures LineMatches("/" + name, name + "/" + child)
  {
    CompileRooted(name);
    PathOfTwo(dir, name);
    PathOfTwo(name, child);
    AnchoredNameMatches(name, [dir, name]);
    AnchoredNameMatches(name, [name, child]);
  }

  lemma RootAnchorFixed(name: string)
    requires Word(name)
    ensures RewriteFixed(".", "/" + name) == Some("/" + name)
  {
    assert ("/" + name)[1..] == name;
    assert |"/" + name| >= 2 && AnchorsBody("/" + name);
    assert [] + "/" + name == "/" + name;
  }

  /** An anchored root line naming a file that starts with `!` turns into a
      negation: `/!keep` becomes `!keep`, which re-includes instead of
      ignoring. */
  lemma RootNegationIntroduced(name: string)
    requires Word(name)
    ensures TransformPattern(".", "/!" + name) == Some("!" + name)
    ensures Compile("!" + name).Some? && Compile("!" + name).value.negated
  {
    ParsePlain("/!" + name);
    assert ("/!" + name)[1..] == "!" + name;
    assert name != "/" by { assert name[0] != '/'; }
    CompileBare(name);
    CompileNegation(name);
  }

  /** The corrected rewrite keeps `/!keep` an anchored pattern that ignores. */
  lemma RootNegationAvoided(name: string)
    requires Word(name)
    ensures TransformPatternFixed(".", "/!" + name) == Some("/!" + name)
    ensures Compile("/!" + name).Some? && !Compile("/!" + name).value.negated
  {
    ParsePlain("/!" + name);
    assert ("/!" + name)[1..] == "!" + name;
    assert RewriteFixed(".", "/!" + name) == Some("/!" + name) by {
      assert |"/!" + name| >= 2 && AnchorsBody("/!" + name);
      assert [] + "/" + ("!" + name) == "/!" + name;
    }
    CompileNonEmpty("/!" + name);
  }

  /** A pattern whose only slash is a trailing one is, by gitignore(5), a
      directory name that matches at any depth below its `.gitignore`; the
      program anchors it instead, so `build/` in `sub/.gitignore` misses
      `sub/x/build/f`. */
  lemma TrailingSlashDepthLost(sub: string, x: string, name: string, f: string)
    requires Word(sub) && Word(x) && Word(name) && x != name && '/' !in f
    ensures TransformPattern(sub, name + "/") == Some(sub + "/" + name + "/")
    ensures !LineMatches(sub + "/" + name + "/", sub + "/" + x + "/" + name + "/" + f)
  {
    TrailingSlashAsWritten(sub, name);
    CompileTwoDir(sub, name);
    PathOfFour(sub, x, name, f);
    TwoNamesDirMatches(sub, name, [sub, x, name, f]);
  }

  lemma TrailingSlashAsWritten(sub: string, name: string)
    requires Word(sub) && Word(name)
    ensures TransformPattern(sub, name + "/") == Some(sub + "/" + name + "/")
  {
    var b := name + "/";
    assert b[0] == name[0] && !PySpace(name[0]) && b[|b| - 1] == '/';
    SlashedRewrite(sub, b);
    assert sub + "/" + b == sub + "/" + name + "/";
  }

  /** As written, a plain body ending in `/` below the root is put after the
      directory and a slash. */
  lemma SlashedRewrite(dirRel: string, b: string)
    requires b != [] && !PySpace(b[0]) && b[0] !in "#!/" && b[|b| - 1] == '/' && dirRel != "."
    ensures TransformPattern(dirRel, b) == Some(dirRel + "/" + b)
  {
    ParsePlain(b);
    TransformSlashed(dirRel, b);
  }

  lemma TransformSlashed(dirRel: string, b: string)
    requires ParseLine(b) == Some(Line(false, b))
    requires dirRel != "." && b[0] != '/' && b[|b| - 1] == '/'
    ensures TransformPattern(dirRel, b) == Some(dirRel + "/" + b)
  {
    assert '/' in b;
  }

  /** The corrected rewrite of `build/` in `sub/.gitignore` matches a `build`
      directory at any depth below `sub`. */
  lemma TrailingSlashDepthKept(sub: string, x: string, name: string, f: string)
    requires Word(sub) && Word(x) && Word(name) && '/' !in f
    ensures TransformPatternFixed(sub, name + "/") == Some("/" + sub + "/**/" + name + "/")
    ensures LineMatches("/" + sub + "/**/" + name + "/", sub + "/" + x + "/" + name + "/" + f)
  {
    TrailingSlashFixedLine(sub, name);
    TrailingSlashSubtreeMatches(sub, x, name, f);
  }

  lemma TrailingSlashFixedLine(sub: string, name: string)
    requires Word(sub) && Word(name)
    ensures TransformPatternFixed(sub, name + "/") == Some("/" + sub + "/**/" + name + "/")
  {
    ParsePlain(name + "/");
    TrailingSlashFixed(sub, name);
  }

  lemma TrailingSlashSubtreeMatches(sub: string, x: string, name: string, f: string)
    requires Word(sub) && Word(x) && Word(name) && '/' !in f
    ensures LineMatches("/" + sub + "/**/" + name + "/", sub + "/" + x + "/" + name + "/" + f)
  {
    CompileSubtreeDir(sub, name);
    PathOfFour(sub, x, name, f);
    SubtreeDirMatches(sub, name, [sub, x, name, f], 2);
  }

  lemma TrailingSlashFixed(sub: string, name: string)
    requires Word(sub) && Word(name)
    ensures RewriteFixed(sub, name + "/") == Some("/" + sub + "/**/" + name + "/")
  {
    assert !AnchorsBody(name + "/") by {
      assert (name + "/")[..|name|] == name;
    }
    assert (name + "/")[0] == name[0] != '/';
    assert name + "/" != "/";
    assert Base(sub) + "/**/" + (name + "/") == "/" + sub + "/**/" + name + "/";
  }

  /** A lone `/` matches nothing, and at the root the program drops it (the
      rewrite is empty); in a subdirectory `sub` it becomes `sub/`, which
      ignores the whole directory. The corrected rewrite skips it everywhere. */
  lemma LoneSlashIgnoresDirectory(sub: string, f: string)
    requires Word(sub) && '/' !in f
    ensures TransformPattern(".", "/") == Some("")
    ensures TransformPattern(sub, "/") == Some(sub + "/")
    ensures LineMatches(sub + "/", sub + "/" + f)
    ensures TransformPatternFixed(".", "/").None? && TransformPatternFixed(sub, "/").None?
  {
    LoneSlashRewrites(sub);
    CompileDirName(sub);
    PathOfTwo(sub, f);
    DirNameMatches(sub, [sub, f], 0);
  }

  lemma LoneSlashRewrites(sub: string)
    requires Word(sub)
    ensures TransformPattern(".", "/") == Some("")
    ensures TransformPattern(sub, "/") == Some(sub + "/")
    ensures TransformPatternFixed(".", "/").None? && TransformPatternFixed(sub, "/").None?
  {
    LoneSlashParsed();
    LoneSlashRewrite(".");
    LoneSlashRewrite(sub);
  }

  lemma LoneSlashParsed()
    ensures ParseLine("/") == Some(Line(false, "/"))
  {
    ParsePlain("/");
  }

  lemma LoneSlashRewrite(dirRel: string)
    ensures Rewrite(dirRel, "/") == if dirRel == "." then "" else dirRel + "/"
    ensures RewriteFixed(dirRel, "/").None?
  {
    assert "/"[1..] == [];
    assert dirRel + "/" + [] == dirRel + "/";
  }

  // ---------------------------------------------------------------------
  // Collecting the patterns of a repository walk

  /** What the walk finds for `.gitignore` in one directory: none, or the
      lines read from it, and whether reading stopped on an error (the
      program logs the error and keeps the patterns read so far). */
  datatype GitignoreFile = Absent | Present(lines: seq<string>, readError: bool)

  /** One directory of the top-down walk, with its path relative to the
      root ("." for the root itself). */
  datatype WalkDir = WalkDir(relDir: string, gitignore: GitignoreFile)

  /** The patterns one `.gitignore` contributes under the rewrite `rw`, in
      line order; a rewrite that is None or empty adds nothing. With
      `TransformPattern` this is the program as written, with
      `TransformPatternFixed` what the loaders below compute. */
  function FilePatterns(rw: (string, string) -> Option<string>, dirRel: string, lines: seq<string>): (r: seq<string>)
    ensures |r| <= |lines|
  {
    if lines == [] then []
    else
      var first := rw(dirRel, lines[0]);
      (if first.Some? && first.value != [] then [first.value] else []) + FilePatterns(rw, dirRel, lines[1..])
  }

  function DirPatterns(rw: (string, string) -> Option<string>, d: WalkDir): seq<string>
  {
    match d.gitignore
    case Absent => []
    case Present(lines, _) => FilePatterns(rw, d.relDir, lines)
  }

  /** The patterns of the whole walk, directory by directory. */
  function WalkPatterns(rw: (string, string) -> Option<string>, walk: seq<WalkDir>): seq<string>
  {
    if walk == [] then [] else DirPatterns(rw, walk[0]) + WalkPatterns(rw, walk[1..])
  }

  /** Line order is preserved within a `.gitignore`. */
  lemma {:induction false} FilePatternsAppend(rw: (string, string) -> Option<string>, dirRel: string, a: seq<string>, b: seq<string>)
    ensures FilePatterns(rw, dirRel, a + b) == FilePatterns(rw, dirRel, a) + FilePatterns(rw, dirRel, b)
  {
    if a == [] {
      assert a + b == b;
    } else {
      assert (a + b)[0] == a[0] && (a + b)[1..] == a[1..] + b;
      FilePatternsAppend(rw, dirRel, a[1..], b);
    }
  }

  /** Walk order is preserved: the patterns of earlier directories come
      before those of later ones. */
  lemma {:induction false} WalkPatternsAppend(rw: (string, string) -> Option<string>, w1: seq<WalkDir>, w2: seq<WalkDir>)
    ensures WalkPatterns(rw, w1 + w2) == WalkPatterns(rw, w1) + WalkPatterns(rw, w2)
  {
    if w1 == [] {
      assert w1 + w2 == w2;
    } else {
      assert (w1 + w2)[0] == w1[0] && (w1 + w2)[1..] == w1[1..] + w2;
      WalkPatternsAppend(rw, w1[1..], w2);
    }
  }

  /** A `.gitignore` that could not be read at all contributes nothing, and
      the directories after it still contribute theirs. */
  lemma UnreadableContributesNothing(rw: (string, string) -> Option<string>, before: seq<WalkDir>, dirRel: string, after: seq<WalkDir>)
    ensures WalkPatterns(rw, before + [WalkDir(dirRel, Present([], true))] + after)
         == WalkPatterns(rw, before) + WalkPatterns(rw, after)
  {
    var d := WalkDir(dirRel, Present([], true));
    assert before + [d] + after == before + ([d] + after);
    WalkPatternsAppend(rw, before, [d] + after);
    DirFirst(rw, d, after);
    assert DirPatterns(rw, d) == FilePatterns(rw, dirRel, []) == [];
    assert [] + WalkPatterns(rw, after) == WalkPatterns(rw, after);
  }

  lemma DirFirst(rw: (string, string) -> Option<string>, d: WalkDir, after: seq<WalkDir>)
    ensures WalkPatterns(rw, [d] + after) == DirPatterns(rw, d) + WalkPatterns(rw, after)
  {
    var xa := [d] + after;
    assert xa[0] == d && xa[1..] == after;
  }

  /** Walk the directories top-down, appending the patterns of each
      `.gitignore` line by line. */
  method LoadCascadingGitignores(walk: seq<WalkDir>) returns (patterns: seq<string>)
    ensures patterns == WalkPatterns(TransformPatternFixed, walk)
  {
    patterns := [];
    var i := 0;
    while i < |walk|
      invariant 0 <= i <= |walk|
      invariant patterns == WalkPatterns(TransformPatternFixed, walk[..i])
    {
      var d := walk[i];
      if d.gitignore.Present? {
        var fromFile := TransformLines(d.relDir, d.gitignore.lines);
        patterns := patterns + fromFile;
      }
      OneMoreDir(walk, i);
      i := i + 1;
    }
    assert walk[..i] == walk;
  }

  lemma OneMoreDir(walk: seq<WalkDir>, i: nat)
    requires i < |walk|
    ensures WalkPatterns(TransformPatternFixed, walk[..i + 1])
         == WalkPatterns(TransformPatternFixed, walk[..i]) + DirPatterns(TransformPatternFixed, walk[i])
  {
    assert walk[..i + 1] == walk[..i] + [walk[i]];
    WalkPatternsAppend(TransformPatternFixed, walk[..i], [walk[i]]);
    assert [walk[i]][1..] == [];
  }

  lemma OneMoreLine(dirRel: string, lines: seq<string>, j: nat)
    requires j < |lines|
    ensures var t := TransformPatternFixed(dirRel, lines[j]);
      FilePatterns(TransformPatternFixed, dirRel, lines[..j + 1])
        == FilePatterns(TransformPatternFixed, dirRel, lines[..j]) + (if t.Some? && t.value != [] then [t.value] else [])
  {
    assert lines[..j + 1] == lines[..j] + [lines[j]];
    FilePatternsAppend(TransformPatternFixed, dirRel, lines[..j], [lines[j]]);
    assert [lines[j]][1..] == [];
  }

  /** The patterns of one `.gitignore`, line by line; lines that are
      skipped or rewrite to nothing add nothing. */
  method TransformLines(dirRel: string, lines: seq<string>) returns (patterns: seq<string>)
    ensures patterns == FilePatterns(TransformPatternFixed, dirRel, lines)
  {
    patterns := [];
    var j := 0;
    while j < |lines|
      invariant 0 <= j <= |lines|
      invariant patterns == FilePatterns(TransformPatternFixed, dirRel, lines[..j])
    {
      var transformed := TransformPatternFixed(dirRel, lines[j]);
      if transformed.Some? && transformed.value != [] {
        patterns := patterns + [transformed.value];
      }
      OneMoreLine(dirRel, lines, j);
      j := j + 1;
    }
    assert lines[..j] == lines;
  }

  /** The extra patterns that are not empty, in order. */
  function NonEmpty(extras: seq<string>): (r: seq<string>)
    ensures |r| <= |extras|
    ensures forall i :: 0 <= i < |r| ==> r[i] != [] && r[i] in extras
  {
    if extras == [] then []
    else (if extras[0] != [] then [extras[0]] else []) + NonEmpty(extras[1..])
  }

  const GitDir: string := "**/.git"

  /** The full pattern list handed to the matcher. */
  function IgnorePatterns(extras: seq<string>, walk: seq<WalkDir>): seq<string>
  {
    Combine(extras, WalkPatterns(TransformPatternFixed, walk))
  }

  function Combine(extras: seq<string>, fromWalk: seq<string>): seq<string>
  {
    NonEmpty(extras) + [GitDir] + fromWalk
  }

  method LoadIgnorePatterns(extras: seq<string>, walk: seq<WalkDir>) returns (all: seq<string>)
    ensures all == IgnorePatterns(extras, walk)
  {
    all := [];
    var i := 0;
    while i < |extras|
      invariant 0 <= i <= |extras|
      invariant all == NonEmpty(extras[..i])
    {
      if extras[i] != [] {
        all := all + [extras[i]];
      }
      OneMoreExtra(extras, i);
      i := i + 1;
    }
    assert extras[..i] == extras;
    all := all + [GitDir];
    var fromWalk := LoadCascadingGitignores(walk);
    all := all + fromWalk;
  }

  lemma {:induction false} NonEmptyAppend(a: seq<string>, b: seq<string>)
    ensures NonEmpty(a + b) == NonEmpty(a) + NonEmpty(b)
  {
    if a == [] {
      assert a + b == b;
    } else {
      assert (a + b)[0] == a[0] && (a + b)[1..] == a[1..] + b;
      NonEmptyAppend(a[1..], b);
    }
  }

  lemma OneMoreExtra(extras: seq<string>, i: nat)
    requires i < |extras|
    ensures NonEmpty(extras[..i + 1]) == NonEmpty(extras[..i]) + (if extras[i] != [] then [extras[i]] else [])
  {
    assert extras[..i + 1] == extras[..i] + [extras[i]];
    NonEmptyAppend(extras[..i], [extras[i]]);
    assert [extras[i]][1..] == [];
  }

  /** The order of the combined list: the non-empty extras first, then
      the `.git` pattern, then the walk's patterns; a later directory's patterns can
      override an earlier one's, and every `.gitignore` pattern can override
      the extras. */
  lemma PatternOrder(extras: seq<string>, walk: seq<WalkDir>)
    ensures var all := IgnorePatterns(extras, walk); var n := |NonEmpty(extras)|;
      && all[..n] == NonEmpty(extras)
      && all[n] == GitDir
      && all[n + 1..] == WalkPatterns(TransformPatternFixed, walk)
  {
  }

  /** A path with a `.git` segment stays ignored unless some pattern read
      from a `.gitignore` matches it (and so decides instead). */
  lemma GitDirIgnored(extras: seq<string>, fromWalk: seq<string>, path: string, i: nat)
    requires i < |PathParts(path)| && PathParts(path)[i] == ".git"
    requires forall j :: 0 <= j < |fromWalk| ==> !LineMatches(fromWalk[j], path)
    ensures IsIgnored(Combine(extras, fromWalk), path)
  {
    GitDirLineMatches(path, i);
    IgnoredByLast(NonEmpty(extras), GitDir, fromWalk, path);
  }

  lemma GitDirLineMatches(path: string, i: nat)
    requires i < |PathParts(path)| && PathParts(path)[i] == ".git"
    ensures LineMatches(GitDir, path) && !Compile(GitDir).value.negated
  {
    assert GitDir == "**/" + ".git";
    assert ".git" in PathParts(path);
    AnyDepthLineMatches(".git", path);
  }

  lemma AnyDepthLineMatches(name: string, path: string)
    requires PlainName(name) && name in PathParts(path)
    ensures LineMatches("**/" + name, path) && !Compile("**/" + name).value.negated
  {
    CompileAnyDepthName(name);
    BareNameMatches(name, PathParts(path));
  }

  /** A matching pattern that does not negate, followed only by patterns
      that do not match, leaves the path ignored. */
  lemma IgnoredByLast(front: seq<string>, line: string, rest: seq<string>, path: string)
    requires LineMatches(line, path) && !Compile(line).value.negated
    requires forall j :: 0 <= j < |rest| ==> !LineMatches(rest[j], path)
    ensures IsIgnored(front + [line] + rest, path)
  {
    MatchingLast(front, line, path);
    NonMatchingSuffix(front + [line], rest, path);
  }

  lemma MatchingLast(lines: seq<string>, line: string, path: string)
    requires LineMatches(line, path)
    ensures IsIgnored(lines + [line], path) == !Compile(line).value.negated
  {
    var all := lines + [line];
    assert all[|all| - 1] == line;
  }

  lemma {:induction false} NonMatchingSuffix(a: seq<string>, b: seq<string>, path: string)
    requires forall j :: 0 <= j < |b| ==> !LineMatches(b[j], path)
    ensures IsIgnored(a + b, path) == IsIgnored(a, path)
    decreases |b|
  {
    if b != [] {
      var b' := b[..|b| - 1];
      assert (a + b)[..|a + b| - 1] == a + b';
      NonMatchingSuffix(a, b', path);
    } else {
      assert a + b == a;
    }
  }
}
