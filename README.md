# Verified models of a monorepo's string, list and tree cores

This project is a Dafny model of the computational cores of a personal
monorepo. Each core is modelled in its own module (one `.dfy` file per
module), and the model is proved against the behaviour the code promises.

- **wrap_codeblocks.py** is the cascading-ignore file bundler. Modules:
  `PathMatch`, `Gitignore`, `Filetypes`, `Cdata`, `Collect`, `FileTree`, `Wrap`.
  - It rewrites every `.gitignore` line into a repository-root pattern and
    builds the ordered ignore list.
  - It maps extensions to languages and collects the files that are not
    ignored.
  - It escapes each file for a CDATA section and prints the directory tree.
- **The receipt printer's layout code** (`table.rs`, `wrapper.rs`). Modules:
  `Table`, `Wrapper`.
  - The table builder and its fixed-width layout: padding, transposition and
    column chunking.
  - The stateful word wrapper.
- **The two annotation parsers**: the correction tree of `xml-annotation`
  (`Correction`) and the segment list of `annotated_text_parser`
  (`Annotated`).
- **Smaller helpers**:
  - the short-id encoder (`Base62`);
  - the JSON fence stripper and command extractor of the command-line
    assistant (`CliAi`);
  - the blog title, slug and post-id rules (`Blog`);
  - the cloze renderer (`MarkiWasm`);
  - the FUSE inode hash and offset slicing (`FuseTc`);
  - the listing merge (`Immo24`);
  - the LLM-reply helpers (`LlmProcessor`);
  - the Anki deck builder (`Marki`).
- `Text` holds the shared string vocabulary:
  - Python's and Rust's whitespace classes and trims;
  - find, split and replace;
  - lexicographic order and a sorting method.

The code's form is kept where it matters:
- Loops that append to a list become `method`s with loop invariants. Each is
  proved equal to a specification function, and the properties are proved
  about that function.
- The table builder and the line wrapper, which update their fields, are
  `class`es.
- Recursive emitters and pure branching are functions.

The `gitwildmatch` matcher of the `pathspec` library is not part of the
repository. `PathMatch` therefore *specifies* the semantics the bundler relies
on rather than reproducing that library:
- each pattern line is stripped of surrounding whitespace before it is
  compiled, and a blank one is no pattern;
- the last matching pattern decides;
- `!` re-includes;
- `*` stays within one segment;
- `**` spans whole segments;
- a pattern that matches a directory covers everything beneath it.

Where verification showed that the code does something its authors evidently
did not intend, the model has two parts:
- a member for the code as written, with a lemma exhibiting the input;
- a corrected member, which the rest of the model uses.

See "## Findings".

## Model

| member | source | states |
|---|---|---|
| Text.Trim | pkgs/wrap-codeblocks/wrap_codeblocks.py:97 | Python's `str.strip`: the result is no longer than the input and neither of its ends is whitespace (Python's class: Rust's White_Space plus U+001C–U+001F) |
| Text.TrimSlice | pkgs/wrap-codeblocks/wrap_codeblocks.py:97 | the stripped text is a slice `s[i..j]` of the input with only whitespace before `i` and after `j`: exactly the surrounding whitespace is removed |
| Text.TrimEmpty | pkgs/wrap-codeblocks/wrap_codeblocks.py:98 | a line strips to nothing exactly when every character is whitespace |
| Text.SortStrings | pkgs/wrap-codeblocks/wrap_codeblocks.py:306 | `sorted` of a set of strings: the unique strictly increasing sequence holding exactly the set's members |
| Text.SortedUnique | pkgs/wrap-codeblocks/wrap_codeblocks.py:306 | a finite set of strings has exactly one strictly sorted listing, so the sorted output is determined |
| Text.InsertSorted | pkgs/wrap-codeblocks/wrap_codeblocks.py:306 | inserting a new string into a strictly sorted list keeps it strictly sorted, adds exactly that string and grows it by one |
| PathMatch.Tokenize | pkgs/wrap-codeblocks/wrap_codeblocks.py:174 | a segment glob with no `*`, `?` or `\\` is the literal characters of the segment, in order |
| PathMatch.StripPattern | pkgs/wrap-codeblocks/wrap_codeblocks.py:167-174 | a pattern line loses the whitespace around it, except that a trailing space escaped by a backslash stays: an already stripped line is unchanged, and a blank line becomes empty |
| PathMatch.Compile | pkgs/wrap-codeblocks/wrap_codeblocks.py:174 | gitwildmatch compilation of a line after stripping it: a blank line (one that strips to nothing) gives no pattern, and so do comments, a lone `!` and a lone `/`; a compiled pattern has segments and is negated exactly when the stripped line starts with `!` |
| PathMatch.CompileStripped | pkgs/wrap-codeblocks/wrap_codeblocks.py:174 | an empty line, a comment, a lone `!` and a lone `/` give no pattern; a compiled pattern has segments and is negated exactly when the line starts with `!` |
| PathMatch.CompileBody | pkgs/wrap-codeblocks/wrap_codeblocks.py:174 | the part after `!` compiles to a non-empty segment list of the given polarity; an empty body compiles to nothing |
| PathMatch.LastMatchDecides | pkgs/wrap-codeblocks/wrap_codeblocks.py:174 | appending a pattern that matches a path decides the path: ignored exactly when that pattern, stripped, does not start with `!`; appending one that does not match leaves the verdict unchanged |
| PathMatch.NegationReincludes | pkgs/wrap-codeblocks/wrap_codeblocks.py:174 | a later `!p` that matches re-includes a path whatever earlier patterns said |
| PathMatch.BlankLineInert | pkgs/wrap-codeblocks/wrap_codeblocks.py:167-174 | an extra pattern made only of whitespace, which the `if pat` filter lets through, matches nothing and leaves every verdict as the earlier patterns give it |
| PathMatch.TrailingSpaceDropped | pkgs/wrap-codeblocks/wrap_codeblocks.py:167-174 | an unescaped trailing space is dropped, so `p ` compiles as `p`; a trailing space escaped as `\ ` is kept in the stripped line |
| PathMatch.CompileNegation | pkgs/wrap-codeblocks/wrap_codeblocks.py:174 | `!p` compiles to the pattern of `p` with the negation flag set |
| PathMatch.GlobsStayInSegments | pkgs/wrap-codeblocks/wrap_codeblocks.py:174 | a pattern without `**` matches only paths with exactly one segment per pattern segment, each glob within its own segment (`*` never crosses `/`) |
| PathMatch.AnyDepthSpans | pkgs/wrap-codeblocks/wrap_codeblocks.py:174 | `**` matches any number of whole segments, zero included |
| PathMatch.DirectoryCovers | pkgs/wrap-codeblocks/wrap_codeblocks.py:174 | a pattern that matches a directory also matches every path beneath it |
| PathMatch.CompileAnyDepthName | pkgs/wrap-codeblocks/wrap_codeblocks.py:127 | `**/name` compiles to an any-depth pattern followed by the name's glob |
| PathMatch.BareNameAnyDepth | pkgs/wrap-codeblocks/wrap_codeblocks.py:122-127 | a pattern that is one plain name matches a path ending in that name, at any depth |
| PathMatch.BareNameMatches | pkgs/wrap-codeblocks/wrap_codeblocks.py:122-127 | a bare plain name (or `**/name`) matches a path exactly when the name is one of its segments |
| PathMatch.AnchoredNameMatches | pkgs/wrap-codeblocks/wrap_codeblocks.py:113-116 | a rooted plain name matches a path exactly when the path's first segment is that name |
| PathMatch.TwoNamesDirMatches | pkgs/wrap-codeblocks/wrap_codeblocks.py:118-121 | `a/b/` matches a path exactly when its first two segments are `a` and `b` and something lies beneath them |
| PathMatch.TwoNamesPrefixOnly | pkgs/wrap-codeblocks/wrap_codeblocks.py:118-121 | only the two-segment prefix `a`, `b` can match the two names |
| PathMatch.SubtreeDirMatches | pkgs/wrap-codeblocks/wrap_codeblocks.py:118-127 | `/a/**/b/` matches every path that starts with `a`, has `b` at a later position, and continues beneath that `b` |
| PathMatch.DirNameMatches | pkgs/wrap-codeblocks/wrap_codeblocks.py:118-121 | `d/` matches everything beneath any directory named `d`, at any depth |
| PathMatch.LitsExact | pkgs/wrap-codeblocks/wrap_codeblocks.py:174 | a plain name as a glob matches that name and nothing else |
| PathMatch.CompileBare | pkgs/wrap-codeblocks/wrap_codeblocks.py:122-127 | a bare plain name compiles to an any-depth match of that name |
| PathMatch.CompileRooted | pkgs/wrap-codeblocks/wrap_codeblocks.py:109-116 | `/name` compiles to a pattern anchored at the root |
| PathMatch.CompileTwoDir | pkgs/wrap-codeblocks/wrap_codeblocks.py:118-121 | `a/b/` compiles to the anchored names `a`, `b` followed by `**` (a trailing slash means only what lies beneath) |
| PathMatch.CompileSubtreeDir | pkgs/wrap-codeblocks/wrap_codeblocks.py:118-127 | `/a/**/b/` compiles to `a`, `**`, `b`, `**` |
| PathMatch.CompileDirName | pkgs/wrap-codeblocks/wrap_codeblocks.py:118-121 | a lone `d/` is not anchored: it compiles to `**`, `d`, `**` |
| PathMatch.SplitJoinPath | pkgs/wrap-codeblocks/wrap_codeblocks.py:275-277 | splitting a `/`-joined root-relative path gives back its segments |
| Gitignore.ParseLine | pkgs/wrap-codeblocks/wrap_codeblocks.py:97-106 | a kept line has a non-empty body that is not a comment unless the line was negated |
| Gitignore.TransformPattern | pkgs/wrap-codeblocks/wrap_codeblocks.py:79-129 | as written: a line gives a pattern exactly when it survives the blank, comment and lone-`!` checks; the pattern ends with the line's body (its leading `/` dropped), since the rewrite only puts the directory and `**/` in front, and starts with `!` when the line was negated |
| Gitignore.TransformSkips | pkgs/wrap-codeblocks/wrap_codeblocks.py:97-106 | a line yields None exactly when it strips to nothing, starts with `#`, or is `!` followed only by whitespace |
| Gitignore.TransformNegation | pkgs/wrap-codeblocks/wrap_codeblocks.py:101-129 | a negated line yields a pattern starting with `!`; below the root (in a directory whose name does not start with `!`) the output starts with `!` exactly when the stripped line did |
| Gitignore.ParseLineNegative | pkgs/wrap-codeblocks/wrap_codeblocks.py:102-104 | a line is parsed as negated exactly when its stripped text starts with `!` |
| Gitignore.TransformCases | pkgs/wrap-codeblocks/wrap_codeblocks.py:108-129 | the three rules: `/p` becomes `dir/p` (`p` at the root); a body containing `/`, trailing slash included, becomes `dir/body` (unchanged at the root); a bare name becomes `dir/**/name` (`**/name` at the root); `!` is put back in front |
| Gitignore.RewriteHead | pkgs/wrap-codeblocks/wrap_codeblocks.py:115-125 | below the root the rewritten pattern starts with the directory's first character |
| Gitignore.FixedShape | pkgs/wrap-codeblocks/wrap_codeblocks.py:97-129 | the corrected rewrite skips exactly the lines the program skips and a lone `/`; its output is non-empty, never a comment, and starts with `!` exactly when the line did |
| Gitignore.RewriteFixed | pkgs/wrap-codeblocks/wrap_codeblocks.py:108-127 | the corrected relocation is None exactly for a lone `/`, and otherwise starts with `/` (anchored) or `**` |
| Gitignore.FixedCompiles | pkgs/wrap-codeblocks/wrap_codeblocks.py:129-174 | every corrected pattern compiles, with the polarity of its line |
| Gitignore.FixedAgreesBelowRoot | pkgs/wrap-codeblocks/wrap_codeblocks.py:113-127 | below the root, for anchored bodies and bare names, the corrected rewrite is the program's rewrite with a leading `/` |
| Gitignore.RewritesAgree | pkgs/wrap-codeblocks/wrap_codeblocks.py:113-127 | the same agreement, stated on the pattern body |
| Gitignore.ParsePlain | pkgs/wrap-codeblocks/wrap_codeblocks.py:97-106 | a line with no surrounding whitespace, no `#` and no `!` is kept as it is |
| Gitignore.RootAnchorLost | pkgs/wrap-codeblocks/wrap_codeblocks.py:113-116 | as written: `/name` in the root `.gitignore` becomes `name`, which also matches `dir/name` |
| Gitignore.RootAnchorKept | pkgs/wrap-codeblocks/wrap_codeblocks.py:113-116 | corrected: `/name` stays `/name`, matches `name/child` and not `dir/name` |
| Gitignore.RootAnchorFixed | pkgs/wrap-codeblocks/wrap_codeblocks.py:113-116 | corrected relocation of `/name` at the root is `/name` |
| Gitignore.RootNegationIntroduced | pkgs/wrap-codeblocks/wrap_codeblocks.py:111-129 | as written: `/!name` at the root becomes `!name`, a negation that re-includes |
| Gitignore.RootNegationAvoided | pkgs/wrap-codeblocks/wrap_codeblocks.py:111-129 | corrected: `/!name` stays an anchored pattern that ignores |
| Gitignore.TrailingSlashDepthLost | pkgs/wrap-codeblocks/wrap_codeblocks.py:118-121 | as written: `name/` in `sub/.gitignore` becomes `sub/name/`, which no longer matches `sub/x/name/f` |
| Gitignore.TrailingSlashAsWritten | pkgs/wrap-codeblocks/wrap_codeblocks.py:118-121 | as written: the rewrite of `name/` in `sub` is `sub/name/` |
| Gitignore.TransformSlashed | pkgs/wrap-codeblocks/wrap_codeblocks.py:118-121 | as written: a body with only a trailing slash is prefixed with `dir/` |
| Gitignore.TrailingSlashDepthKept | pkgs/wrap-codeblocks/wrap_codeblocks.py:118-127 | corrected: `name/` in `sub` becomes `/sub/**/name/`, which matches `sub/x/name/f` |
| Gitignore.TrailingSlashFixedLine | pkgs/wrap-codeblocks/wrap_codeblocks.py:118-127 | corrected rewrite of the line `name/` in `sub` |
| Gitignore.TrailingSlashSubtreeMatches | pkgs/wrap-codeblocks/wrap_codeblocks.py:118-127 | `/sub/**/name/` matches everything under a `name` directory anywhere below `sub` |
| Gitignore.TrailingSlashFixed | pkgs/wrap-codeblocks/wrap_codeblocks.py:118-127 | corrected relocation of the body `name/` in `sub` |
| Gitignore.LoneSlashIgnoresDirectory | pkgs/wrap-codeblocks/wrap_codeblocks.py:109-116 | as written: a lone `/` in `sub/.gitignore` becomes `sub/`, which ignores every file of `sub`; the corrected rewrite skips it |
| Gitignore.LoneSlashRewrites | pkgs/wrap-codeblocks/wrap_codeblocks.py:109-116 | as written, `/` becomes `` at the root and `sub/` below it; corrected, None |
| Gitignore.LoneSlashParsed | pkgs/wrap-codeblocks/wrap_codeblocks.py:97-106 | a lone `/` survives the blank and comment checks |
| Gitignore.LoneSlashRewrite | pkgs/wrap-codeblocks/wrap_codeblocks.py:109-116 | the relocation of a lone `/` as written, and the corrected one being None |
| Gitignore.FilePatterns | pkgs/wrap-codeblocks/wrap_codeblocks.py:151-154 | one `.gitignore` contributes at most one pattern per line; a None or empty rewrite adds nothing |
| Gitignore.FilePatternsAppend | pkgs/wrap-codeblocks/wrap_codeblocks.py:151-154 | line order is preserved: the patterns of a file's lines `a + b` are those of `a` followed by those of `b` |
| Gitignore.WalkPatternsAppend | pkgs/wrap-codeblocks/wrap_codeblocks.py:141-154 | walk order is preserved: earlier directories' patterns come first |
| Gitignore.UnreadableContributesNothing | pkgs/wrap-codeblocks/wrap_codeblocks.py:149-156 | a `.gitignore` that cannot be read contributes nothing, and the walk continues with the later directories |
| Gitignore.LoadCascadingGitignores | pkgs/wrap-codeblocks/wrap_codeblocks.py:132-157 | corrected behaviour, see Left out: the loop's result is the walk's patterns, directory by directory and line by line, under the corrected rewrite |
| Gitignore.TransformLines | pkgs/wrap-codeblocks/wrap_codeblocks.py:150-154 | corrected behaviour, see Left out: the inner loop's result is the file's patterns in line order |
| Gitignore.NonEmpty | pkgs/wrap-codeblocks/wrap_codeblocks.py:167-169 | the kept extra patterns are non-empty, come from the extras, and are no more than them |
| Gitignore.NonEmptyAppend | pkgs/wrap-codeblocks/wrap_codeblocks.py:167-169 | the extras keep their order |
| Gitignore.LoadIgnorePatterns | pkgs/wrap-codeblocks/wrap_codeblocks.py:160-174 | corrected behaviour, see Left out: the loops build exactly the combined list: the non-empty extras, then `**/.git`, then the walk's patterns |
| Gitignore.PatternOrder | pkgs/wrap-codeblocks/wrap_codeblocks.py:165-173 | the combined list splits as the non-empty extras, then `**/.git` at the next index, then the walk's patterns |
| Gitignore.GitDirIgnored | pkgs/wrap-codeblocks/wrap_codeblocks.py:171 | a path with a `.git` segment is ignored unless a pattern from some `.gitignore` matches it |
| Gitignore.GitDirLineMatches | pkgs/wrap-codeblocks/wrap_codeblocks.py:171 | `**/.git` matches any path with a `.git` segment and is not a negation |
| Gitignore.IgnoredByLast | pkgs/wrap-codeblocks/wrap_codeblocks.py:174 | a matching non-negated pattern followed only by non-matching ones leaves the path ignored |
| Gitignore.NonMatchingSuffix | pkgs/wrap-codeblocks/wrap_codeblocks.py:174 | patterns that do not match a path do not change its verdict |
| Filetypes.NormalizeExt | pkgs/wrap-codeblocks/wrap_codeblocks.py:187-198 | a normalized extension has no upper-case letter and no whitespace at either end (dots stripped on the left, then stripped, then lower-cased) |
| Filetypes.Names | pkgs/wrap-codeblocks/wrap_codeblocks.py:197-198 | one normalized name per comma-separated piece |
| Filetypes.Assign | pkgs/wrap-codeblocks/wrap_codeblocks.py:197-200 | the entries one option assigns all map to that option's language |
| Filetypes.AssignKeys | pkgs/wrap-codeblocks/wrap_codeblocks.py:197-200 | an option assigns exactly the non-empty normalized names of its extension list |
| Filetypes.AddExtsOverrides | pkgs/wrap-codeblocks/wrap_codeblocks.py:197-200 | the per-extension loop equals overriding the table with the option's assignments |
| Filetypes.SplitMapping | pkgs/wrap-codeblocks/wrap_codeblocks.py:193-196 | `split("=", 1)`: None exactly when there is no `=`; otherwise the two parts rejoin with `=` to the option, and the first has no `=` (the split is at the first one) |
| Filetypes.BuildCustomFiletypes | pkgs/wrap-codeblocks/wrap_codeblocks.py:177-202 | the nested loops compute the table from the configuration, then the options; an option without `=` ends the run with its error |
| Filetypes.AddMapping | pkgs/wrap-codeblocks/wrap_codeblocks.py:192-200 | one option: an error exactly when it has no `=`, carrying that option; otherwise its extensions are set |
| Filetypes.LoadConfigMappings | pkgs/wrap-codeblocks/wrap_codeblocks.py:185-189 | the configuration loop computes the configuration table |
| Filetypes.SetExts | pkgs/wrap-codeblocks/wrap_codeblocks.py:197-200 | the inner loop computes the table with each non-empty extension set |
| Filetypes.OptionsOverrideConfig | pkgs/wrap-codeblocks/wrap_codeblocks.py:191-200 | when every option has `=`, the result is the configuration table overridden by what the options assign, later options overriding earlier ones |
| Filetypes.AllValidOk | pkgs/wrap-codeblocks/wrap_codeblocks.py:192-196 | options that all contain `=` never stop the program |
| Filetypes.FirstInvalidStops | pkgs/wrap-codeblocks/wrap_codeblocks.py:193-195 | the first option without `=` decides the error, whatever follows it |
| Filetypes.KeysNormalized | pkgs/wrap-codeblocks/wrap_codeblocks.py:187-199 | every key of the built table is non-empty and normalized |
| Filetypes.SplitExt | pkgs/wrap-codeblocks/wrap_codeblocks.py:211 | `os.path.splitext`'s extension is empty or starts with `.`, holds no `/`, and ends the path |
| Filetypes.DetectLanguage | pkgs/wrap-codeblocks/wrap_codeblocks.py:205-221 | an extension (dots stripped, lower-cased) found in the custom table gives that language; otherwise the answer is the guesser's |
| Filetypes.DotfileGoesToGuesser | pkgs/wrap-codeblocks/wrap_codeblocks.py:211-221 | a name like `.bashrc` has no extension, and no table the program builds holds the empty key, so such files always go to the guesser |
| Filetypes.SplitExtAt | pkgs/wrap-codeblocks/wrap_codeblocks.py:211 | a path whose last dot follows a character other than a dot or slash has the text from that dot as its extension |
| Filetypes.ExtensionUsesTable | pkgs/wrap-codeblocks/wrap_codeblocks.py:211-214 | a file named `base.ext` gets the table's language for the lower-cased `ext`, whatever the guesser would say |
| Cdata.Escape | pkgs/wrap-codeblocks/wrap_codeblocks.py:253 | escaping never shortens a line |
| Cdata.EscapeIsReplace | pkgs/wrap-codeblocks/wrap_codeblocks.py:253 | the escape is `str.replace("]]>", "]]]]><![CDATA[>")` |
| Cdata.EscapeAbsent | pkgs/wrap-codeblocks/wrap_codeblocks.py:253 | a line without `]]>` is printed unchanged |
| Cdata.Sections | pkgs/wrap-codeblocks/wrap_codeblocks.py:247-257 | a CDATA reader (XML 1.0 section 2.7): what it reads is strictly shorter than the text |
| Cdata.ReopenedReads | pkgs/wrap-codeblocks/wrap_codeblocks.py:253 | the reader takes `]]]]><![CDATA[>` back as `]]>` |
| Cdata.ReadThrough | pkgs/wrap-codeblocks/wrap_codeblocks.py:253 | reading the escape of any text, followed by more, yields that text followed by what the rest yields |
| Cdata.RoundTrip | pkgs/wrap-codeblocks/wrap_codeblocks.py:253-257 | reading the escape of any line, closed by `]]>`, gives back exactly the line, repeated or overlapping terminators included |
| Cdata.EscapeAppend | pkgs/wrap-codeblocks/wrap_codeblocks.py:253 | the escape of a concatenation is the concatenation of the escapes (the escape works line by line) |
| Cdata.EscapePrefix | pkgs/wrap-codeblocks/wrap_codeblocks.py:254 | a prefix without `]` (the indentation) passes through the escape unchanged |
| Cdata.XmlEscape | pkgs/wrap-codeblocks/wrap_codeblocks.py:242-244 | `xml.sax.saxutils.escape`: the result holds no `<` or `>` and is no shorter |
| Cdata.XmlEscapeRoundTrip | pkgs/wrap-codeblocks/wrap_codeblocks.py:242-244 | resolving the three entities restores the escaped text exactly |
| Cdata.RStripNewlines | pkgs/wrap-codeblocks/wrap_codeblocks.py:253 | `rstrip("\n")` removes exactly the trailing newlines |
| Cdata.CdataLines | pkgs/wrap-codeblocks/wrap_codeblocks.py:250-254 | one printed line per line read |
| Cdata.ProcessFile | pkgs/wrap-codeblocks/wrap_codeblocks.py:224-259 | corrected behaviour, see Left out: processed exactly when a language is known and the stat succeeds; then the header, the opener, the escaped lines, the (escaped) error line and the closers, otherwise no output |
| Cdata.EscapeLines | pkgs/wrap-codeblocks/wrap_codeblocks.py:250-254 | the printed lines, joined, are the escape of the indented lines joined |
| Cdata.EscapeBody | pkgs/wrap-codeblocks/wrap_codeblocks.py:248-256 | the whole corrected body, joined, is the escape of what the section is meant to hold |
| Cdata.ReadPlain | pkgs/wrap-codeblocks/wrap_codeblocks.py:247 | text without `]` is read as it is |
| Cdata.SectionRestores | pkgs/wrap-codeblocks/wrap_codeblocks.py:247-257 | reading the corrected section gives back exactly the intended content lines and error line |
| Cdata.LineStops | pkgs/wrap-codeblocks/wrap_codeblocks.py:255-256 | the reader stops at a `]]>` inside an unescaped line |
| Cdata.UnescapedErrorBreaksSection | pkgs/wrap-codeblocks/wrap_codeblocks.py:255-256 | as written: an error message containing `]]>` ends the section early, so the file block cannot be read back |
| Collect.GlobFiles | pkgs/wrap-codeblocks/wrap_codeblocks.py:299-300 | the glob candidates are exactly the matches that are regular files |
| Collect.AddKept | pkgs/wrap-codeblocks/wrap_codeblocks.py:272-305 | adding a walk's or pattern's candidates adds exactly those the ignore patterns do not match |
| Collect.CollectedMembers | pkgs/wrap-codeblocks/wrap_codeblocks.py:271-305 | a path is collected exactly when the search covers it and its root-relative path is not ignored |
| Collect.CollectFiles | pkgs/wrap-codeblocks/wrap_codeblocks.py:262-306 | the result is sorted, without repeats, and holds exactly the searched candidates whose root-relative path is not ignored (the whole walk when there are no search patterns) |
| Collect.KeptAppend | pkgs/wrap-codeblocks/wrap_codeblocks.py:271 | the collected set of two candidate lists is the union of theirs |
| Collect.CandidatesAppend | pkgs/wrap-codeblocks/wrap_codeblocks.py:282-305 | the candidates of two pattern lists are those of the first followed by those of the second |
| Collect.PatternOrderIrrelevant | pkgs/wrap-codeblocks/wrap_codeblocks.py:271-306 | the order of the search patterns does not change the output |
| Collect.RepeatedFileCollectedOnce | pkgs/wrap-codeblocks/wrap_codeblocks.py:271-288 | naming an already covered file again does not change the collected set |
| Collect.GitFilesNotCollected | pkgs/wrap-codeblocks/wrap_codeblocks.py:171-278 | a file inside a `.git` directory is never collected unless a `.gitignore` pattern matches it |
| FileTree.DirParts | pkgs/wrap-codeblocks/wrap_codeblocks.py:317-330 | the directory components are all of the path's segments but the last |
| FileTree.InsertAsWritten | pkgs/wrap-codeblocks/wrap_codeblocks.py:321-330 | as written: the nested dictionaries fail with `TypeError` at a file list, and succeed only with a dictionary |
| FileTree.FilesDirectoryBreaksBuild | pkgs/wrap-codeblocks/wrap_codeblocks.py:324-330 | as written: a file in a directory named `__files__` followed by a root file raises `AttributeError` |
| FileTree.FilesDirectoryAfterRootFile | pkgs/wrap-codeblocks/wrap_codeblocks.py:324-330 | as written: a root file followed by a file in `__files__/` raises `TypeError` |
| FileTree.FilesDirectoryExample | pkgs/wrap-codeblocks/wrap_codeblocks.py:317-318 | such paths exist: `__files__/a.py` and `b.py` |
| FileTree.Insert | pkgs/wrap-codeblocks/wrap_codeblocks.py:321-330 | corrected: adding a file below a directory keeps the node's own files and adds that directory as a child |
| FileTree.BuildTree | pkgs/wrap-codeblocks/wrap_codeblocks.py:309-332 | corrected behaviour, see Left out: the loop builds the tree of the files, added in order |
| FileTree.Lookup | pkgs/wrap-codeblocks/wrap_codeblocks.py:321-330 | the empty directory path leads to the root |
| FileTree.FilesIn | pkgs/wrap-codeblocks/wrap_codeblocks.py:315-326 | the files whose directory is a given path are exactly the list's files with those components |
| FileTree.EmptyLookup | pkgs/wrap-codeblocks/wrap_codeblocks.py:314 | the empty tree has only the root and no files |
| FileTree.InsertLookup | pkgs/wrap-codeblocks/wrap_codeblocks.py:321-330 | inserting creates exactly the directories on the file's path and adds the file to its own directory's list only, at the end |
| FileTree.BuildFilesAt | pkgs/wrap-codeblocks/wrap_codeblocks.py:315-326 | every directory lists exactly the files that lie directly in it, each once per occurrence, in list order |
| FileTree.BuildDirectories | pkgs/wrap-codeblocks/wrap_codeblocks.py:321-330 | the tree holds a directory exactly when it is the root or lies on the path of some file |
| FileTree.FileLines | pkgs/wrap-codeblocks/wrap_codeblocks.py:342-344 | one `<file>` line per file of the node, in order |
| FileTree.Spaces | pkgs/wrap-codeblocks/wrap_codeblocks.py:339 | the indentation is two spaces per level |
| FileTree.PrintTree | pkgs/wrap-codeblocks/wrap_codeblocks.py:335-353 | the recursive printer emits the node's files first, then each subdirectory in sorted name order, as an element around its own listing one level deeper |
| FileTree.DirLinesStep | pkgs/wrap-codeblocks/wrap_codeblocks.py:347-353 | each subdirectory adds its opening line, its listing and its closing line after the previous ones |
| FileTree.TreeLinesIndented | pkgs/wrap-codeblocks/wrap_codeblocks.py:339-353 | every line of a listing is indented at least as deep as its level |
| Wrap.Processed | pkgs/wrap-codeblocks/wrap_codeblocks.py:393-397 | the processed list holds exactly the files that got a block |
| Wrap.WrapFiles | pkgs/wrap-codeblocks/wrap_codeblocks.py:393-399 | corrected behaviour, see Left out: the loop prints each file's block in order and records exactly the processed files |
| Wrap.Run | pkgs/wrap-codeblocks/wrap_codeblocks.py:385-407 | corrected behaviour, see Left out: given the ignore list as an input, a run prints `<src>`, the blocks of the sorted collected files, and the file tree of the processed files |
| Wrap.TreeListsWrappedFiles | pkgs/wrap-codeblocks/wrap_codeblocks.py:401-404 | the tree lists, under each directory, exactly the processed files that lie directly in it, in block order |
| Wrap.SkippedFilePrintsNothing | pkgs/wrap-codeblocks/wrap_codeblocks.py:229-237 | a file without a known language or metadata prints nothing and is not listed |
| Wrap.BlocksLength | pkgs/wrap-codeblocks/wrap_codeblocks.py:246-258 | each processed file prints at least four lines |
| Table.MaxLen | pkgs/recipt-printer/src/markdown/table.rs:47 | the column count is at least every row's length and, for a non-empty table, equals some row's length |
| Table.MaxCellLen | pkgs/recipt-printer/src/markdown/table.rs:160-164 | the widest header label is at least as long as every cell of the row |
| Table.MaxCellLenRows | pkgs/recipt-printer/src/markdown/table.rs:167-177 | the widest data cell is at least as long as every cell of the rows |
| Table.Widen | pkgs/recipt-printer/src/markdown/table.rs:50-54 | one row widens each column to its cell's character count where the row has a cell and leaves the others |
| Table.ColWidthsBound | pkgs/recipt-printer/src/markdown/table.rs:47-54 | each computed column width is at least the character count of every cell in that column |
| Table.ColWidthsAttained | pkgs/recipt-printer/src/markdown/table.rs:47-54 | a non-zero column width is the length of some cell of that column |
| Table.Spread | pkgs/recipt-printer/src/markdown/table.rs:78-83 | every width grows by `per_col`, and the first `remainder` by one more |
| Table.SpreadSum | pkgs/recipt-printer/src/markdown/table.rs:78-83 | spreading adds `n * per_col` plus the number of columns that got the extra one |
| Table.PadSum | pkgs/recipt-printer/src/markdown/table.rs:74-83 | sharing out `extra` by quotient and remainder adds exactly `extra` to the total |
| Table.PaddedWidens | pkgs/recipt-printer/src/markdown/table.rs:78-83 | sharing out never narrows a column |
| Table.FillExact | pkgs/recipt-printer/src/markdown/table.rs:57-84 | when the table fits, the padded widths make `sum(widths) + num_cols + 1` equal the line width (56), and no column is narrower than its natural width |
| Table.Separator | pkgs/recipt-printer/src/markdown/table.rs:103-110 | the separator has length `1 + Σ(w + 1)` |
| Table.CreateSeparator | pkgs/recipt-printer/src/markdown/table.rs:103-110 | the loop builds `+`, then a run of dashes and a `+` per column |
| Table.RowLineLength | pkgs/recipt-printer/src/markdown/table.rs:112-124 | a row line is as long as the separator of the columns it has cells in, when each cell fits its width |
| Table.FormatRow | pkgs/recipt-printer/src/markdown/table.rs:112-124 | the loop builds a vertical bar, then for each cell the cell, its padding (`saturating_sub`) and another bar |
| Table.Rendered | pkgs/recipt-printer/src/markdown/table.rs:91-92 | one formatted line per row, in order |
| Table.BodyWithHeader | pkgs/recipt-printer/src/markdown/table.rs:91-97 | with `1 <= header_row_count <= rows`, exactly one extra separator follows row `header_row_count - 1` |
| Table.BodyWithoutHeader | pkgs/recipt-printer/src/markdown/table.rs:91-97 | without header rows, no separator is added between rows |
| Table.BodyWidth | pkgs/recipt-printer/src/markdown/table.rs:91-97 | every body line is as wide as the separator when every cell fits |
| Table.LayoutWidth | pkgs/recipt-printer/src/markdown/table.rs:87-100 | every line of a layout, borders included, is as wide as the separator |
| Table.RenderTable | pkgs/recipt-printer/src/markdown/table.rs:87-100 | the output loop starts and ends with the separator and inserts it after the header rows |
| Table.Transpose | pkgs/recipt-printer/src/markdown/table.rs:199-221 | one row per header cell: the label, then that column of every data row, an empty cell where a data row is short |
| Table.TransposedRow | pkgs/recipt-printer/src/markdown/table.rs:208-220 | the inner loop builds one transposed row |
| Table.FormatTransposed | pkgs/recipt-printer/src/markdown/table.rs:188-262 | the transposed layout: nothing without rows or without a header row, otherwise the bordered transposed table with padded widths |
| Table.ShouldTranspose | pkgs/recipt-printer/src/markdown/table.rs:126-186 | a table is chosen for transposition only when it has between one and six rows, its cells average fewer than 26 characters, and the header column with its borders fits the line width |
| Table.AverageLen | pkgs/recipt-printer/src/markdown/table.rs:140-148 | the `usize` average rounded down is at most 25 exactly when the total is below 26 characters per cell (or there are no cells) |
| Table.TransposeBudget | pkgs/recipt-printer/src/markdown/table.rs:179-185 | a table chosen for transposition fits the header column plus one data column per data row in the line width |
| Table.TransposedWidthsFit | pkgs/recipt-printer/src/markdown/table.rs:223-236 | the transposed natural widths then leave room for the borders |
| Table.TransposedFullWidth | pkgs/recipt-printer/src/markdown/table.rs:233-261 | every line of a transposed table chosen by `should_transpose` is exactly 56 characters |
| Table.ColWidthsUpper | pkgs/recipt-printer/src/markdown/table.rs:227-231 | a column none of whose cells is longer than a bound is no wider than it |
| Table.Pick | pkgs/recipt-printer/src/markdown/table.rs:319 | a chunk's widths are the column widths of its columns, in chunk order |
| Table.Range | pkgs/recipt-printer/src/markdown/table.rs:288 | the columns `lo..hi` in increasing order |
| Table.ChunkLoopTails | pkgs/recipt-printer/src/markdown/table.rs:288-308 | the chunking loop places each remaining column once, in increasing order, after the first column of some chunk |
| Table.ChunkLoopGood | pkgs/recipt-printer/src/markdown/table.rs:288-308 | every chunk the loop closes starts with column 0, has at least two columns, and is within the line width unless it is one wide column beside column 0 |
| Table.ChunksAsWrittenSound | pkgs/recipt-printer/src/markdown/table.rs:282-308 | as written: every chunk starts with column 0 and has at least two columns, and every column `>= 1` appears in exactly one chunk, in increasing order |
| Table.ChunksAsWrittenEmpty | pkgs/recipt-printer/src/markdown/table.rs:297-306 | as written, no chunk is formed exactly when the table has a single column |
| Table.ChunksCover | pkgs/recipt-printer/src/markdown/table.rs:282-308 | corrected: there is at least one chunk, each starts with column 0, and every column is in some chunk |
| Table.PlanChunks | pkgs/recipt-printer/src/markdown/table.rs:282-308 | corrected behaviour, see Left out: the loop forms the corrected chunks (the lone column 0 kept) |
| Table.ChunkRows | pkgs/recipt-printer/src/markdown/table.rs:324-328 | each row cut to the chunk's columns, with an empty cell where it is short |
| Table.ChunkLayoutWidth | pkgs/recipt-printer/src/markdown/table.rs:318-333 | each chunk's table is printed with lines as wide as the chunk's own width |
| Table.FormatChunk | pkgs/recipt-printer/src/markdown/table.rs:318-333 | one chunk's bordered table |
| Table.FormatChunked | pkgs/recipt-printer/src/markdown/table.rs:264-340 | corrected behaviour, see Left out: the chunked layout: one bordered table per chunk, blank lines between them |
| Table.ChunksInRange | pkgs/recipt-printer/src/markdown/table.rs:319-327 | every chunk column indexes the width vector |
| Table.TailsMember | pkgs/recipt-printer/src/markdown/table.rs:288-308 | a column listed after some chunk's first column lies in that chunk |
| Table.MaxLenPositive | pkgs/recipt-printer/src/markdown/table.rs:47 | with stored rows never empty, `num_cols >= 1` |
| Table.FittingTableFullWidth | pkgs/recipt-printer/src/markdown/table.rs:57-100 | a fitting table with the same number of cells in every row prints one line per row, the two borders and the header separator, every line exactly 56 characters |
| Table.TransposedTable | pkgs/recipt-printer/src/markdown/table.rs:62-262 | a too-wide table with a header row that `should_transpose` accepts prints transposed: one line per header cell plus the borders, each 56 characters |
| Table.NoTableVanishes | pkgs/recipt-printer/src/markdown/table.rs:41-340 | corrected: a table with rows and a header row always prints something |
| Table.SingleColumnVanishes | pkgs/recipt-printer/src/markdown/table.rs:297-306 | as written: a single-column table too wide for the line and not transposable prints nothing; corrected, it prints at least its rows and borders |
| Table.SingleColumnExample | pkgs/recipt-printer/src/markdown/table.rs:128-308 | such a table exists: seven rows of one 55-character cell |
| Table.BodyLength | pkgs/recipt-printer/src/markdown/table.rs:91-97 | the body has at least one line per row |
| Table.WidenRow | pkgs/recipt-printer/src/markdown/table.rs:51-53 | the cell loop widens one row's columns |
| Table.ColumnWidths | pkgs/recipt-printer/src/markdown/table.rs:48-54 | the row loop computes the natural column widths |
| Table.SpreadWidths | pkgs/recipt-printer/src/markdown/table.rs:78-83 | the in-place loop grows every width by `per_col` and the first `remainder` by one |
| Table.Distribute | pkgs/recipt-printer/src/markdown/table.rs:73-84 | the spare width is shared out only when the table is narrower than the line |
| Table.TableBuilder.constructor | pkgs/recipt-printer/src/markdown/table.rs:12-20 | a new builder has no rows, an empty row and cell, is not in the header and counts no header rows |
| Table.TableBuilder.AddText | pkgs/recipt-printer/src/markdown/table.rs:22-24 | text is appended to the current cell; nothing else changes |
| Table.TableBuilder.EndCell | pkgs/recipt-printer/src/markdown/table.rs:26-29 | the current cell is appended to the current row and left empty |
| Table.TableBuilder.EndRow | pkgs/recipt-printer/src/markdown/table.rs:31-39 | an empty row changes nothing; otherwise the row is stored, the current row cleared, and the header count grows only while in the header (stored rows are never empty) |
| Table.TableBuilder.FormatTable | pkgs/recipt-printer/src/markdown/table.rs:41-101 | corrected behaviour, see Left out: the printed lines: none without rows; the padded table when it fits; otherwise transposed or chunked |
| Text.Words | pkgs/recipt-printer/src/markdown/wrapper.rs:89 | `split_whitespace`: the words are non-empty and hold no Unicode whitespace |
| Text.WordsVisible | pkgs/recipt-printer/src/markdown/wrapper.rs:89 | the words, put together, are exactly the text's non-whitespace characters in order |
| Text.RustLines | pkgs/recipt-printer/src/markdown/wrapper.rs:127 | Rust's `str::lines`: an empty text has no lines and no line holds a newline; a line ended by a newline also loses one carriage return before it |
| Text.RustLinesUnterminated | pkgs/recipt-printer/src/markdown/wrapper.rs:127 | a non-empty text without a newline is one line, kept whole, so a final carriage return stays part of it |
| Wrapper.FontWidth | pkgs/recipt-printer/src/markdown/wrapper.rs:62-67 | font B is 56 characters wide; A and every other font 42 |
| Wrapper.Place | pkgs/recipt-printer/src/markdown/wrapper.rs:92-117 | taking in one word keeps `col` equal to the character count of the current line |
| Wrapper.PlaceAppends | pkgs/recipt-printer/src/markdown/wrapper.rs:101-116 | on a break (`col > 0` and the word plus its space would exceed the width) the line is given out and the new one is the indent followed by the word; otherwise nothing is given out and the word is appended after nothing or one space |
| Wrapper.PlaceWritten | pkgs/recipt-printer/src/markdown/wrapper.rs:101-116 | a word adds exactly the gap before it and the word to what has been written |
| Wrapper.WrittenStep | pkgs/recipt-printer/src/markdown/wrapper.rs:101-116 | with a blank indent, the visible characters written grow by exactly the word |
| Wrapper.ReflowKeepsWords | pkgs/recipt-printer/src/markdown/wrapper.rs:92-117 | reflow writes every word whole, in input order, and adds no visible character of its own |
| Wrapper.ReflowWithinWidth | pkgs/recipt-printer/src/markdown/wrapper.rs:101-106 | when no word is longer than the width minus the indent, no given-out line and no current line exceeds the width |
| Wrapper.ReflowKeepsCol | pkgs/recipt-printer/src/markdown/wrapper.rs:87-120 | `col` always equals the character count of the current line across reflow |
| Wrapper.PreserveLine | pkgs/recipt-printer/src/markdown/wrapper.rs:127-143 | a line within the width is emitted unchanged with no overflow; a longer one becomes its first `width - indicator_len` characters plus the indicator, exactly `width` characters, with the rest as overflow |
| Wrapper.PreserveRoundTrip | pkgs/recipt-printer/src/markdown/wrapper.rs:133-143 | the content without the indicator, followed by the overflow, is the original line |
| Wrapper.Preserved | pkgs/recipt-printer/src/markdown/wrapper.rs:127-144 | one output per line that `str::lines` gives, each the preserved form of that line |
| Wrapper.PreservedLines | pkgs/recipt-printer/src/markdown/wrapper.rs:127-144 | every preserved output fits the width and gives back its input line, as `str::lines` cuts the text |
| Wrapper.PreservedKeepsFinalCr | pkgs/recipt-printer/src/markdown/wrapper.rs:127-143 | a last line ending in a carriage return with no newline after it keeps that character, which counts towards its length: a line that fills the width before it is cut, and the carriage return ends the overflow |
| Wrapper.LineWrapper.constructor | pkgs/recipt-printer/src/markdown/wrapper.rs:43-52 | a new wrapper is 42 wide, scale 1, no indent, reflow mode, an empty line and `col` 0 |
| Wrapper.LineWrapper.EffectiveWidth | pkgs/recipt-printer/src/markdown/wrapper.rs:54-56 | `base_width / width_scale`, rounded down |
| Wrapper.LineWrapper.SetScale | pkgs/recipt-printer/src/markdown/wrapper.rs:58-60 | the scale becomes the width factor; the height is ignored; nothing else changes |
| Wrapper.LineWrapper.SetFont | pkgs/recipt-printer/src/markdown/wrapper.rs:62-68 | the base width becomes the font's width; nothing else changes |
| Wrapper.LineWrapper.SetIndent | pkgs/recipt-printer/src/markdown/wrapper.rs:70-72 | the indent is replaced; nothing else changes |
| Wrapper.LineWrapper.SetMode | pkgs/recipt-printer/src/markdown/wrapper.rs:74-76 | the mode is replaced; nothing else changes |
| Wrapper.LineWrapper.AddText | pkgs/recipt-printer/src/markdown/wrapper.rs:78-85 | dispatches on the mode: reflow updates the current line; preserve mode returns one output per line and leaves the current line and `col` unchanged |
| Wrapper.LineWrapper.AddTextReflow | pkgs/recipt-printer/src/markdown/wrapper.rs:87-120 | the loop returns the lines the reflow gives out and leaves its last line current, with `col` its character count |
| Wrapper.LineWrapper.AddTextPreserveLines | pkgs/recipt-printer/src/markdown/wrapper.rs:122-147 | the loop returns the preserved outputs, one per line of `str::lines` in order, and leaves the current line and `col` unchanged |
| Wrapper.LineWrapper.Flush | pkgs/recipt-printer/src/markdown/wrapper.rs:149-158 | an empty line gives None and changes nothing; otherwise the line is returned and reset to empty with `col` 0 |
| Wrapper.LineWrapper.StartLineWith | pkgs/recipt-printer/src/markdown/wrapper.rs:160-163 | the line becomes the prefix and `col` its character count |
| Correction.StripWhitespace | pkgs/website/login-test/xml-annotation/src/lib.rs:172-174 | the result holds no whitespace character |
| Correction.StripUnchanged | pkgs/website/login-test/xml-annotation/src/lib.rs:172-174 | text with no whitespace is returned as it is |
| Correction.ParseTextNode | pkgs/website/login-test/xml-annotation/src/lib.rs:182-191 | a text node is kept exactly when it holds a visible character; the kept node is a non-empty text without whitespace |
| Correction.Texts | pkgs/website/login-test/xml-annotation/src/lib.rs:287-322 | one text per node, each the reconstruction of that node in the chosen branch |
| Correction.ReconstructList | pkgs/website/login-test/xml-annotation/src/lib.rs:326-328 | an empty node list reconstructs to the empty string |
| Correction.ReconstructOriginal | pkgs/website/login-test/xml-annotation/src/lib.rs:70-74 | the document's original text is its root nodes reconstructed in the original branch; an empty document gives the empty string |
| Correction.ReconstructCorrected | pkgs/website/login-test/xml-annotation/src/lib.rs:76-80 | the document's corrected text is its root nodes reconstructed in the corrected branch; an empty document gives the empty string |
| Correction.ReconstructNodes | pkgs/website/login-test/xml-annotation/src/lib.rs:325-382 | the loop joins the node texts exactly as the spacing rules define |
| Correction.JoinedAddsOnlySpaces | pkgs/website/login-test/xml-annotation/src/lib.rs:343-377 | joining adds nothing but blanks: without blanks, the joined text equals the plain concatenation |
| Correction.JoinedLength | pkgs/website/login-test/xml-annotation/src/lib.rs:343-377 | at most one space goes into each gap between neighbouring texts |
| Correction.PlainReconstructsAlike | pkgs/website/login-test/xml-annotation/src/lib.rs:287-322 | a tree without fixes or revisions reconstructs to the same text in both branches |
| Correction.PlainListAlike | pkgs/website/login-test/xml-annotation/src/lib.rs:70-80 | a node list without fixes or revisions gives the same original and corrected text |
| Correction.ExampleReconstruction | pkgs/website/login-test/xml-annotation/tests/parser_tests.rs:22-23 | the document "My", fix "favoritest" to "favorite", "book" reconstructs to "My favoritest book" and "My favorite book" |
| Correction.ExampleOriginal | pkgs/website/login-test/xml-annotation/tests/parser_tests.rs:22 | the original branch of that document reads "My favoritest book" |
| Correction.ExampleCorrected | pkgs/website/login-test/xml-annotation/tests/parser_tests.rs:23 | the corrected branch of that document reads "My favorite book" |
| Correction.ExampleWith | pkgs/website/login-test/xml-annotation/src/lib.rs:325-382 | the example's three texts are joined with single spaces around the chosen word |
| Correction.ExampleTexts | pkgs/website/login-test/xml-annotation/src/lib.rs:287-322 | the example's nodes give the texts "My", the chosen word and "book" |
| Correction.JoinedOne | pkgs/website/login-test/xml-annotation/src/lib.rs:325-382 | a single node reconstructs to its own text, with no spacing added |
| Correction.JoinedThree | pkgs/website/login-test/xml-annotation/src/lib.rs:343-377 | three texts are joined with the spacing chosen for each neighbouring pair |
| Correction.Found | pkgs/website/login-test/xml-annotation/src/lib.rs:86-112 | every node found is a fix or revision whose explanation contains the search text |
| Correction.FoundIn | pkgs/website/login-test/xml-annotation/src/lib.rs:86-112 | every node found under one node matches the search text |
| Correction.FoundExactly | pkgs/website/login-test/xml-annotation/src/lib.rs:86-112 | a node is found exactly when it is reachable from the list and matches |
| Correction.FoundInExactly | pkgs/website/login-test/xml-annotation/src/lib.rs:86-112 | a node is found under a node exactly when it is that node or reachable from it, and matches |
| Correction.FindNodes | pkgs/website/login-test/xml-annotation/src/lib.rs:86-112 | the accumulating search returns exactly the recursive search's nodes, in order |
| Correction.FindByExplanation | pkgs/website/login-test/xml-annotation/src/lib.rs:82-84 | a node is returned exactly when it is reachable from the document root, through children and segments, and its explanation contains the text |
| Annotated.ReconstructOriginal | pkgs/website/login-test/annotated_text_parser/src/lib.rs:226-239 | the loop returns the original text: plain text and each correction's original |
| Annotated.ReconstructCorrected | pkgs/website/login-test/annotated_text_parser/src/lib.rs:242-255 | the loop returns the corrected text: plain text and each correction's correction |
| Annotated.TextsAppend | pkgs/website/login-test/annotated_text_parser/src/lib.rs:226-255 | both reconstructions distribute over concatenation of segment lists |
| Annotated.UnchangedTextsAlike | pkgs/website/login-test/annotated_text_parser/src/lib.rs:468-483 | when no correction changes its text, the original and corrected texts are equal |
| Annotated.Extract | pkgs/website/login-test/annotated_text_parser/src/lib.rs:191-223 | without a `<corrected>` tag the correction is the original; without an `<original>` tag the original is the untagged text and there are no original segments |
| Annotated.ExtractDefaults | pkgs/website/login-test/annotated_text_parser/src/lib.rs:191-223 | an original tag makes the original the decoded trimmed `<original>` content, held as at most one plain segment; without one the original is the untagged content and there are no segments; a corrected tag gives the correction, otherwise the correction is the original |
| Annotated.SegmentOf | pkgs/website/login-test/annotated_text_parser/src/lib.rs:155-173 | every match becomes a correction segment |
| Annotated.EntryOf | pkgs/website/login-test/annotated_text_parser/src/lib.rs:143-153 | the flat record carries the same original and correction as the segment, and no nested records |
| Annotated.NestedPlain | pkgs/website/login-test/annotated_text_parser/src/lib.rs:114-115 | the nested parse of a correction's inner content or of its `<original>` content, where the lazy correction capture leaves no `</correction>`, is the decoded content as one plain segment, or nothing for empty content |
| Annotated.NestedText | pkgs/website/login-test/annotated_text_parser/src/lib.rs:203-207 | the nested parse of the `<original>` content reads back as the decoded content |
| Annotated.NestedIsScan | pkgs/website/login-test/annotated_text_parser/src/lib.rs:143-144 | the nested parse is the scan of that content with no matches |
| Annotated.SegmentChildren | pkgs/website/login-test/annotated_text_parser/src/lib.rs:143-144 | a correction segment's children are at most one plain segment, never a correction, and read as the decoded inner content |
| Annotated.SegmentCoherent | pkgs/website/login-test/annotated_text_parser/src/lib.rs:157-172 | every correction segment built is coherent: its nested original segments rebuild its original and its corrected segments rebuild its correction, whichever tags were present |
| Annotated.MissingCorrectedUnchanged | pkgs/website/login-test/annotated_text_parser/src/lib.rs:215-220 | a correction without a corrected tag leaves its text unchanged |
| Annotated.Scan | pkgs/website/login-test/annotated_text_parser/src/lib.rs:105-189 | after `k` matches the records are exactly the records of those matches, in match order, and the position is the end of the last match |
| Annotated.ScanStep | pkgs/website/login-test/annotated_text_parser/src/lib.rs:130-173 | one match adds the plain text before it, its correction segment and its record |
| Annotated.ParseContent | pkgs/website/login-test/annotated_text_parser/src/lib.rs:105-189 | the loop returns exactly the scanned segments and records |
| Annotated.ParseMatch | pkgs/website/login-test/annotated_text_parser/src/lib.rs:139-173 | one match, with the recursive parse of its inner content, gives exactly its correction segment and its record |
| Annotated.CorrectionsIn | pkgs/website/login-test/annotated_text_parser/src/lib.rs:105-189 | only correction segments are picked out |
| Annotated.CorrectionsInAppend | pkgs/website/login-test/annotated_text_parser/src/lib.rs:105-189 | picking out corrections distributes over concatenation |
| Annotated.MatchSegments | pkgs/website/login-test/annotated_text_parser/src/lib.rs:155-173 | the first `k` matches give `k` correction segments, in match order |
| Annotated.ScanCorrections | pkgs/website/login-test/annotated_text_parser/src/lib.rs:105-189 | the correction segments of the scan are exactly the matches' segments, in order |
| Annotated.ScanCorrectionsStep | pkgs/website/login-test/annotated_text_parser/src/lib.rs:155-173 | one match adds its own correction segment after the earlier ones |
| Annotated.MatchEntries | pkgs/website/login-test/annotated_text_parser/src/lib.rs:143-153 | the first `k` matches give `k` records, in match order |
| Annotated.SegmentsCorrections | pkgs/website/login-test/annotated_text_parser/src/lib.rs:105-189 | the finished segment list holds the matches' correction segments and no others |
| Annotated.ScanPlainNonEmpty | pkgs/website/login-test/annotated_text_parser/src/lib.rs:130-137 | with a decoder that never empties text, no plain segment of the scan is empty |
| Annotated.PlainSegmentsNonEmpty | pkgs/website/login-test/annotated_text_parser/src/lib.rs:179-186 | with such a decoder, no plain segment of the finished list is empty |
| Annotated.Parse | pkgs/website/login-test/annotated_text_parser/src/lib.rs:69-103 | the parse fails exactly when the content tag is missing, with that error; on success the text is the original text of the segments and the suggestions pass through |
| Annotated.ParsedRecords | pkgs/website/login-test/annotated_text_parser/src/lib.rs:143-173 | the parsed records correspond one to one, in order, with the top-level correction segments, with the same original and correction, and none holds nested records |
| Base62.Run | pkgs/website/axum/src/utils.rs:3 | a run of `n` consecutive characters starting at the given one |
| Base62.AlphabetSpelled | pkgs/website/axum/src/utils.rs:3 | the digit alphabet is the lower-case letters, then the upper-case letters, then the numerals |
| Base62.LowerSpelled | pkgs/website/axum/src/utils.rs:3 | the first 26 digits are "a" to "z" |
| Base62.UpperSpelled | pkgs/website/axum/src/utils.rs:3 | the next 26 digits are "A" to "Z" |
| Base62.NumeralsSpelled | pkgs/website/axum/src/utils.rs:3 | the last 10 digits are "0" to "9" |
| Base62.AlphabetDigits | pkgs/website/axum/src/utils.rs:11-12 | the character at position `d` of the alphabet is a digit worth `d` |
| Base62.Digits | pkgs/website/axum/src/utils.rs:10-16 | a positive number has a non-empty code made only of alphabet characters |
| Base62.Encoded | pkgs/website/axum/src/utils.rs:1-17 | every code, including "a" for zero and the empty code of a negative number, is made of alphabet characters |
| Base62.ValueOfDigits | pkgs/website/axum/src/utils.rs:10-16 | reading a positive number's code back as base-62 digits gives the number |
| Base62.NoLeadingZero | pkgs/website/axum/src/utils.rs:10-16 | a positive number's code never starts with the zero digit "a" |
| Base62.EncodeInjective | pkgs/website/axum/src/utils.rs:1-17 | different non-negative numbers get different codes |
| Base62.Reverse | pkgs/website/axum/src/utils.rs:16 | reversing keeps the length |
| Base62.ReverseSnoc | pkgs/website/axum/src/utils.rs:12-16 | a digit pushed last comes out first after the reversal |
| Base62.EncodeBase62 | pkgs/website/axum/src/utils.rs:1-17 | the loop returns "a" for zero, the empty string for a negative number and the digits most significant first otherwise |
| CliAi.StripPrefix | pkgs/cli-ai/src/main.rs:32 | a present prefix is removed and the rest returned; otherwise the text is unchanged |
| CliAi.StripSuffix | pkgs/cli-ai/src/main.rs:33 | a present suffix is removed and the rest returned; otherwise the text is unchanged |
| CliAi.CleanJsonOutput | pkgs/cli-ai/src/main.rs:26-44 | the result is always trimmed; text that does not start with a fence is only trimmed |
| CliAi.JsonFenceIsFence | pkgs/cli-ai/src/main.rs:30-35 | text opening with the JSON fence also opens with the plain fence, so the JSON branch must be tried first |
| CliAi.StripBoth | pkgs/cli-ai/src/main.rs:32-33 | stripping a prefix and then a suffix undoes putting them on |
| CliAi.FencedRoundTrip | pkgs/cli-ai/src/main.rs:26-44 | a trimmed body wrapped in a JSON or plain fence on lines of its own comes back unchanged |
| CliAi.FencedClean | pkgs/cli-ai/src/main.rs:30-39 | a fenced text gives back its inner text, trimmed |
| CliAi.JsonFenced | pkgs/cli-ai/src/main.rs:30-34 | a text in a JSON fence gives back its inner text, trimmed |
| CliAi.PlainFenced | pkgs/cli-ai/src/main.rs:35-39 | a text in a plain fence, starting on a new line, gives back its inner text, trimmed |
| CliAi.CleanOpened | pkgs/cli-ai/src/main.rs:30-39 | a trimmed text opening with a fence has that opening and a closing fence stripped, then is trimmed |
| CliAi.FencedEdges | pkgs/cli-ai/src/main.rs:27 | a fenced text begins and ends with backticks, so trimming leaves it alone and it still opens with its fence |
| CliAi.BacktickEdges | pkgs/cli-ai/src/main.rs:27 | text whose ends are backticks is already trimmed |
| CliAi.PlainFenceNotJson | pkgs/cli-ai/src/main.rs:35 | a plain fence followed by a line break is not taken for the JSON fence |
| CliAi.UnclosedFence | pkgs/cli-ai/src/main.rs:33 | an opening fence that is never closed is still removed and the body kept |
| CliAi.TrimStartNonSpace | pkgs/cli-ai/src/main.rs:27 | text starting with a non-whitespace character loses nothing at its start |
| CliAi.TrimEndNonSpace | pkgs/cli-ai/src/main.rs:27 | text ending with a non-whitespace character loses nothing at its end |
| CliAi.TrimLines | pkgs/cli-ai/src/main.rs:34 | a line break on each side of a trimmed body trims away |
| CliAi.TrimStartLine | pkgs/cli-ai/src/main.rs:34 | a line break before a trimmed body trims away |
| CliAi.ExtractCommandFallback | pkgs/cli-ai/src/main.rs:47-62 | a command found never contains a double quote |
| CliAi.QuoteFree | pkgs/cli-ai/src/main.rs:55-56 | the text before the first double quote holds no double quote |
| CliAi.NoKeyNoCommand | pkgs/cli-ai/src/main.rs:49-61 | text without the `"command"` key gives nothing |
| CliAi.CommandRoundTrip | pkgs/cli-ai/src/main.rs:47-58 | well-formed JSON holding only a quote-free command gives that command back |
| CliAi.KeyFound | pkgs/cli-ai/src/main.rs:49-50 | the key right after an opening brace is found at position 1 |
| CliAi.ColonFound | pkgs/cli-ai/src/main.rs:51-52 | the colon after the key is found right after it |
| CliAi.QuotedCommand | pkgs/cli-ai/src/main.rs:52-56 | after the colon the quoted command is trimmed, its opening quote skipped and its closing quote found |
| CliAi.QuotedTrim | pkgs/cli-ai/src/main.rs:52 | text between a quote and a brace is already trimmed |
| CliAi.ClosingQuoteFound | pkgs/cli-ai/src/main.rs:55-56 | the first double quote after a quote-free command is the one that closes it |
| CliAi.FindAt | pkgs/cli-ai/src/main.rs:49-55 | the search returns the first position where the pattern occurs |
| CliAi.CharAt | pkgs/cli-ai/src/main.rs:51-55 | a one-character pattern occurs exactly where that character stands |
| Blog.FirstHeading | pkgs/website/axum/src/handlers/blog.rs:72-77 | None exactly when no line starts with "# "; otherwise a line that does |
| Blog.HeadingTitle | pkgs/website/axum/src/handlers/blog.rs:72-77 | the heading's text is trimmed, and empty when there is no heading |
| Blog.Title | pkgs/website/axum/src/handlers/blog.rs:68-84 | a title is never empty and always trimmed |
| Blog.UntitledTrimmed | pkgs/website/axum/src/handlers/blog.rs:79-81 | the fallback title "Untitled Blog Post" is non-empty and trimmed |
| Blog.ExtractTitle | pkgs/website/axum/src/handlers/blog.rs:68-84 | the line loop returns the title of the first heading, or the fallback |
| Blog.LeadingHeading | pkgs/website/axum/src/handlers/blog.rs:72-76 | a post whose first line is "# " and a trimmed text gets that text as its title |
| Blog.SubheadingSkipped | pkgs/website/axum/src/handlers/blog.rs:73 | a "##" line is not a title: the title comes from the lines after it |
| Blog.NoHeadingUntitled | pkgs/website/axum/src/handlers/blog.rs:79-81 | a post without any "# " line gets the fallback title |
| Blog.DashSpaces | pkgs/website/axum/src/handlers/blog.rs:90 | every space becomes a dash and every other character stays |
| Blog.Slug | pkgs/website/axum/src/handlers/blog.rs:87-94 | the slug is no longer than the title and made only of lower-case letters, digits and dashes |
| Blog.SlugAppend | pkgs/website/axum/src/handlers/blog.rs:87-94 | the slug of two texts put together is their slugs put together |
| Blog.SlugWords | pkgs/website/axum/src/handlers/blog.rs:90 | a space between two words becomes a dash between their slugs |
| Blog.SlugFixpoint | pkgs/website/axum/src/handlers/blog.rs:87-94 | a text made only of slug characters is its own slug |
| Blog.SlugIdempotent | pkgs/website/axum/src/handlers/blog.rs:87-94 | taking the slug twice changes nothing |
| Blog.BlogPost | pkgs/website/axum/src/handlers/blog.rs:96-149 | bad request exactly for an id that is not all letters and digits; not found exactly for a good id without a file; a wrong slug redirects to the post's correct slug; a page is shown only for the correct slug, with the post's title |
| Blog.InvalidIdRefused | pkgs/website/axum/src/handlers/blog.rs:97-100 | an invalid id is refused with the same message whatever files exist |
| Blog.ValidIdStaysInside | pkgs/website/axum/src/handlers/blog.rs:97-102 | a valid id holds no slash, backslash or dot, so the file path stays in the blog directory |
| Blog.RedirectSettles | pkgs/website/axum/src/handlers/blog.rs:114-117 | a redirect leads to the same post's address with some slug |
| Blog.AtMostOneRedirect | pkgs/website/axum/src/handlers/blog.rs:110-117 | asking for a post with its correct slug shows the page, so any slug reaches it in at most one redirect |
| Blog.SplitExtension | pkgs/website/axum/src/handlers/blog.rs:52-53 | a name with an extension is its non-empty stem, a dot and an extension without dots |
| Blog.ListEntry | pkgs/website/axum/src/handlers/blog.rs:51-58 | a listed entry is a file named by its id plus ".md", linked at the id and the title with spaces dashed and lower-cased |
| Blog.ListBlogPosts | pkgs/website/axum/src/handlers/blog.rs:44-65 | the loop lists exactly the Markdown files of the directory, in directory order |
| Blog.ListedStep | pkgs/website/axum/src/handlers/blog.rs:49-59 | each entry adds its post, if it is one, after the earlier ones |
| Blog.ListedPosts | pkgs/website/axum/src/handlers/blog.rs:44-65 | there are never more posts than directory entries |
| Blog.ListedButRefused | pkgs/website/axum/src/handlers/blog.rs:52-100 | the file "my-post.md" is listed with id "my-post", and that id is refused by the post handler |
| Blog.ServableEntry | pkgs/website/axum/src/handlers/blog.rs:52-98 | an entry is kept exactly when it is listed and its id passes the post handler's check |
| Blog.ServableLinkWorks | pkgs/website/axum/src/handlers/blog.rs:56-117 | a servable post's link shows the post, directly or after one redirect |
| Blog.ListedTitle | pkgs/website/axum/src/handlers/blog.rs:54-55 | a listed post's title is the title of its file |
| MarkiWasm.FlatMapAppend | pkgs/marki-wasm/src/lib.rs:168-174 | replacing character by character distributes over concatenation |
| MarkiWasm.FlatMapUnchanged | pkgs/marki-wasm/src/lib.rs:168-174 | a text whose characters all map to themselves is unchanged |
| MarkiWasm.ReplaceCharAppend | pkgs/marki-wasm/src/lib.rs:169-173 | a one-character replacement distributes over concatenation |
| MarkiWasm.ReplaceCharAbsent | pkgs/marki-wasm/src/lib.rs:169-173 | replacing a character that does not occur changes nothing |
| MarkiWasm.ReplaceCharOne | pkgs/marki-wasm/src/lib.rs:169-173 | on one character, the replacement gives the new text exactly when it is that character |
| MarkiWasm.LaterReplacementsSkip | pkgs/marki-wasm/src/lib.rs:170-173 | the last four replacements leave alone a text holding none of their characters |
| MarkiWasm.EscapeOne | pkgs/marki-wasm/src/lib.rs:168-174 | the chain of five replacements acts on one character as its single escape, so `&` is never escaped twice |
| MarkiWasm.EscapeAmp | pkgs/marki-wasm/src/lib.rs:169 | "&" becomes "&amp;" |
| MarkiWasm.EscapeLt | pkgs/marki-wasm/src/lib.rs:170 | "<" becomes "&lt;" |
| MarkiWasm.EscapeGt | pkgs/marki-wasm/src/lib.rs:171 | ">" becomes "&gt;" |
| MarkiWasm.EscapeQuot | pkgs/marki-wasm/src/lib.rs:172 | a double quote becomes "&quot;" |
| MarkiWasm.EscapeApos | pkgs/marki-wasm/src/lib.rs:173 | a single quote becomes "&#39;" |
| MarkiWasm.LaterSkip3 | pkgs/marki-wasm/src/lib.rs:171-173 | the last three replacements leave alone a text holding none of their characters |
| MarkiWasm.LaterSkip2 | pkgs/marki-wasm/src/lib.rs:172-173 | the last two replacements leave alone a text holding none of their characters |
| MarkiWasm.EscapeOther | pkgs/marki-wasm/src/lib.rs:168-174 | every other character is kept as it is |
| MarkiWasm.HtmlEscapeAppend | pkgs/marki-wasm/src/lib.rs:168-174 | escaping distributes over concatenation |
| MarkiWasm.HtmlEscape | pkgs/marki-wasm/src/lib.rs:168-174 | the five replacements in a row, `&` first; a text holding none of `&`, `<`, `>`, `"` and `'` comes back unchanged |
| MarkiWasm.EscapeByChar | pkgs/marki-wasm/src/lib.rs:168-174 | the replacement chain equals escaping each character on its own |
| MarkiWasm.EscapedIsInert | pkgs/marki-wasm/src/lib.rs:168-174 | no `<`, `>`, double or single quote survives escaping |
| MarkiWasm.InertFlatMap | pkgs/marki-wasm/src/lib.rs:168-174 | the character-by-character escape holds none of those four characters |
| MarkiWasm.EntityAt | pkgs/marki-wasm/src/lib.rs:168-174 | a recognised entity is exactly the escape of the character it stands for |
| MarkiWasm.EntityOfEscape | pkgs/marki-wasm/src/lib.rs:168-174 | an escaped character is recognised again at the front of the text |
| MarkiWasm.UnescapeEscape | pkgs/marki-wasm/src/lib.rs:168-174 | reading the entities back gives exactly the text that was escaped |
| MarkiWasm.UnescapeFlatMap | pkgs/marki-wasm/src/lib.rs:168-174 | the same round trip for the character-by-character escape |
| MarkiWasm.UnescapeCons | pkgs/marki-wasm/src/lib.rs:168-174 | one escaped character in front reads back as that character |
| MarkiWasm.RunStep | pkgs/marki-wasm/src/lib.rs:52-156 | handling one more event is one more step on the state |
| MarkiWasm.MarkdownRenderer.constructor | pkgs/marki-wasm/src/lib.rs:28-34 | the renderer keeps its mode and starts its cloze counter at 0 |
| MarkiWasm.MarkdownRenderer.Render | pkgs/marki-wasm/src/lib.rs:36-165 | the event loop returns the output of the step function over all events, starting from the counter left by earlier renders, and leaves that counter behind |
| MarkiWasm.RenderMarkdown | pkgs/marki-wasm/src/lib.rs:176-181 | a fresh renderer's output for the events |
| MarkiWasm.OutputOnlyGrows | pkgs/marki-wasm/src/lib.rs:52-156 | rendering never takes output back: every event only appends |
| MarkiWasm.CounterCountsSpans | pkgs/marki-wasm/src/lib.rs:57-76 | in cloze mode the counter grows by the number of bold and italic spans opened; otherwise it stays |
| MarkiWasm.ClozeNumbering | pkgs/marki-wasm/src/lib.rs:57-85 | in cloze mode an opening span writes the cloze numbered one past the spans opened so far, and a closing span writes "}}" |
| MarkiWasm.PlainSpans | pkgs/marki-wasm/src/lib.rs:57-85 | outside cloze mode bold and italic become `strong` and `em` tags and the counter stays |
| MarkiWasm.FirstClozeIsOne | pkgs/marki-wasm/src/lib.rs:29-61 | a fresh renderer in cloze mode starts its first span with "{{c1::" |
| MarkiWasm.RunAppend | pkgs/marki-wasm/src/lib.rs:52-156 | rendering two event lists one after the other is rendering them joined |
| MarkiWasm.WithoutRules | pkgs/marki-wasm/src/lib.rs:153 | no horizontal rule is left |
| MarkiWasm.RulesInvisible | pkgs/marki-wasm/src/lib.rs:153 | removing the horizontal rules changes neither output nor state |
| MarkiWasm.CodeCollects | pkgs/marki-wasm/src/lib.rs:102-115 | inside a code block text and line breaks go to the code buffer and nothing to the output |
| MarkiWasm.FencedBlock | pkgs/marki-wasm/src/lib.rs:87-101 | a fenced block comes out whole when it ends: its language and its escaped code, inside `pre` and `code` tags |
| FuseTc.HashFold | pkgs/fuse-taskchampion/src/main.rs:31-34 | the wrapping hash is always a 64-bit value |
| FuseTc.Ino | pkgs/fuse-taskchampion/src/main.rs:26-41 | a note gets inode 1 exactly when it is the root note; every other note gets an inode of at least 2, all below 2^64 |
| FuseTc.NoteIdToIno | pkgs/fuse-taskchampion/src/main.rs:26-41 | the hashing loop returns the note's inode |
| FuseTc.Pow31 | pkgs/fuse-taskchampion/src/main.rs:33 | every power of 31 is positive |
| FuseTc.Poly | pkgs/fuse-taskchampion/src/main.rs:31-34 | the empty id has polynomial hash 0 |
| FuseTc.PolyAppend | pkgs/fuse-taskchampion/src/main.rs:32-34 | one more byte multiplies the hash by 31 and adds the byte |
| FuseTc.ModShift | pkgs/fuse-taskchampion/src/main.rs:33 | adding whole multiples of 2^64 does not change the wrapped value |
| FuseTc.ModStep | pkgs/fuse-taskchampion/src/main.rs:33 | wrapping after each step gives the same value as wrapping once at the end |
| FuseTc.HashIsPolynomial | pkgs/fuse-taskchampion/src/main.rs:31-34 | the wrapping fold equals the polynomial hash of the id taken modulo 2^64 |
| FuseTc.NonRootNeverReserved | pkgs/fuse-taskchampion/src/main.rs:35-40 | a non-root note never gets inode 0 or the root's inode, and a hash above 1 is used as it is |
| FuseTc.Mode | pkgs/fuse-taskchampion/src/main.rs:87 | a permission word below 0o1000 whose octal digits are the owner, group and other digits |
| FuseTc.RootAttr | pkgs/fuse-taskchampion/src/main.rs:77-95 | the root is a directory with inode 1, size 0, permissions 0o755, two links, block size 512 and all times at the epoch |
| FuseTc.AsUsize | pkgs/fuse-taskchampion/src/main.rs:412 | a non-negative offset is kept; a negative one becomes a huge value of at least 2^63 |
| FuseTc.ReadSlice | pkgs/fuse-taskchampion/src/main.rs:411-417 | the content from the offset on when the offset is inside it, otherwise nothing; a negative offset reads nothing |
| FuseTc.ReadResume | pkgs/fuse-taskchampion/src/main.rs:412-417 | reading at one offset gives the bytes up to a later offset followed by what a read there gives |
| FuseTc.ReadWhole | pkgs/fuse-taskchampion/src/main.rs:412-414 | a read at offset 0 gives the whole content |
| FuseTc.FindByIno | pkgs/fuse-taskchampion/src/main.rs:388-389 | None exactly when no note has that inode; otherwise a note with that inode |
| FuseTc.NoteContent | pkgs/fuse-taskchampion/src/main.rs:391-404 | no content exactly when the blob cannot be read; a stored content is returned; a note without a blob is empty |
| FuseTc.Read | pkgs/fuse-taskchampion/src/main.rs:368-421 | every error is ENOENT; the first note with the inode is read: when its content can be read the reply is that content from the offset on, and when it cannot, or no note has the inode, the reply is an error |
| FuseTc.ChildEntry | pkgs/fuse-taskchampion/src/main.rs:498-518 | a child has its note's inode and is a directory exactly when it has children |
| FuseTc.FoundCount | pkgs/fuse-taskchampion/src/main.rs:491-497 | no more notes are found than there are branches |
| FuseTc.ChildEntries | pkgs/fuse-taskchampion/src/main.rs:491-520 | one entry per found note; the listing fails exactly when counting some found note's children fails |
| FuseTc.Head | pkgs/fuse-taskchampion/src/main.rs:464-480 | the list starts with "." and ".." for the directory; a third, hidden content file is there exactly below the root when the directory's note is found |
| FuseTc.DirEntries | pkgs/fuse-taskchampion/src/main.rs:463-523 | the listing succeeds exactly when the children do, and holds the head followed by the children's entries |
| FuseTc.ListEntries | pkgs/fuse-taskchampion/src/main.rs:463-523 | the loop that pushes entries builds exactly that listing |
| FuseTc.ChildFailurePersists | pkgs/fuse-taskchampion/src/main.rs:506 | once counting a child's children fails, the whole listing fails |
| FuseTc.RootHasNoHiddenEntry | pkgs/fuse-taskchampion/src/main.rs:470 | at the root the children follow "." and ".." directly |
| FuseTc.HiddenEntryBelowRoot | pkgs/fuse-taskchampion/src/main.rs:470-479 | below the root the directory's own content file comes right after ".." |
| FuseTc.Listing | pkgs/fuse-taskchampion/src/main.rs:533-534 | every entry from the offset on, entry i carrying cookie i + 1 |
| FuseTc.ReplyEntries | pkgs/fuse-taskchampion/src/main.rs:533-538 | the reply loop sends the entries after the offset until the buffer is full |
| FuseTc.CookiesCount | pkgs/fuse-taskchampion/src/main.rs:533-534 | each sent entry carries the cookie of the next entry to send |
| FuseTc.ResumeAtCookie | pkgs/fuse-taskchampion/src/main.rs:533-538 | resuming at the last cookie continues with the next entry: two replies in a row send what one reply with their combined room sends |
| FuseTc.ReadDir | pkgs/fuse-taskchampion/src/main.rs:423-539 | every error is ENOENT; the listing succeeds exactly when the directory's note is found (the root always is), its branch query succeeds and every found child's count succeeds; a success sends the directory's entries from the offset on, as many as fit; from offset 0 it starts with "." and ".." |
| FuseTc.DirNote | pkgs/fuse-taskchampion/src/main.rs:431-459 | the root inode stands for the note "root"; any other inode for a note that has it, and none when no note has it |
| Immo24.Merge | pkgs/website/axum/feature-immo24/src/handlers.rs:704-718 | when either side is not an object the result is the patch, `null` included; two objects merge into an object with the keys of both |
| Immo24.MergeKeys | pkgs/website/axum/feature-immo24/src/handlers.rs:704-715 | merging two objects gives an object with every key of either side and no other |
| Immo24.MergeFields | pkgs/website/axum/feature-immo24/src/handlers.rs:707-713 | a key only in the target keeps its value; a key only in the patch takes the patch's value; a key in both is merged recursively |
| Immo24.MergeReplaces | pkgs/website/axum/feature-immo24/src/handlers.rs:717 | when either side is not an object the patch replaces the target whole |
| Immo24.NullIsStored | pkgs/website/axum/feature-immo24/src/handlers.rs:707-713 | a null in the patch is stored under its key instead of deleting it |
| Immo24.MergeSelf | pkgs/website/axum/feature-immo24/src/handlers.rs:704-718 | merging a value into itself changes nothing |
| Immo24.MergeIdempotent | pkgs/website/axum/feature-immo24/src/handlers.rs:704-718 | applying the same patch twice gives the same value as applying it once |
| Immo24.Partial | pkgs/website/axum/feature-immo24/src/handlers.rs:707-713 | after merging some of the patch's keys the object has the target's keys and those |
| Immo24.PartialAll | pkgs/website/axum/feature-immo24/src/handlers.rs:705-714 | after all of the patch's keys the object is the merge |
| Immo24.MergeInto | pkgs/website/axum/feature-immo24/src/handlers.rs:704-718 | rewriting the target in place gives the merge |
| Immo24.MergeFieldsInto | pkgs/website/axum/feature-immo24/src/handlers.rs:707-713 | the loop over the patch's keys gives the target with every patch key merged |
| Immo24.Slots | pkgs/website/axum/feature-immo24/src/handlers.rs:677-755 | the handler considers ten columns |
| Immo24.Clause | pkgs/website/axum/feature-immo24/src/handlers.rs:677-681 | a column gives a clause exactly when its field is given, binding that field's value |
| Immo24.Collect | pkgs/website/axum/feature-immo24/src/handlers.rs:677-755 | the first `n` columns give at most `n` clauses |
| Immo24.CollectHas | pkgs/website/axum/feature-immo24/src/handlers.rs:677-755 | every given field becomes a clause |
| Immo24.CollectFrom | pkgs/website/axum/feature-immo24/src/handlers.rs:677-755 | every clause comes from a given field, with its column and value |
| Immo24.CollectDistinct | pkgs/website/axum/feature-immo24/src/handlers.rs:677-755 | columns that are all different give clauses whose columns are all different |
| Immo24.AssignmentsCollect | pkgs/website/axum/feature-immo24/src/handlers.rs:677-755 | the clauses are those of the ten columns taken in the handler's order |
| Immo24.AssignmentsEmpty | pkgs/website/axum/feature-immo24/src/handlers.rs:757-760 | there is no clause exactly when no field is given |
| Immo24.JsonColumnIsMerged | pkgs/website/axum/feature-immo24/src/handlers.rs:721-727 | a given JSON field's clause stores the patch merged into the stored value |
| Immo24.ColumnsDistinct | pkgs/website/axum/feature-immo24/src/handlers.rs:677-755 | no column is assigned twice in one update |
| Immo24.ColumnNamesDistinct | pkgs/website/axum/feature-immo24/src/handlers.rs:678-752 | the ten column names are all different |
| Immo24.AddText | pkgs/website/axum/feature-immo24/src/handlers.rs:677-701 | one text block appends its clause when its field is given and then records the update |
| Immo24.AddRent | pkgs/website/axum/feature-immo24/src/handlers.rs:687-691 | the rent block appends its clause when the rent is given and then records the update |
| Immo24.AddJson | pkgs/website/axum/feature-immo24/src/handlers.rs:721-755 | one JSON block appends the merged value's clause when its patch is given and then records the update |
| Immo24.PlanUpdate | pkgs/website/axum/feature-immo24/src/handlers.rs:671-767 | the stored listing is returned unchanged exactly when no field is given; otherwise the clauses are those of the given fields, in the handler's order, followed by `updated_at` set to the database clock |
| Immo24.CollectAvoids | pkgs/website/axum/feature-immo24/src/handlers.rs:677-755 | a column that no slot names gets no clause |
| Immo24.StampSetOnce | pkgs/website/axum/feature-immo24/src/handlers.rs:762-763 | no field clause sets `updated_at`, so the timestamp is assigned once per update |
| LlmProcessor.TagBranchAsWritten | pkgs/website/login-test/src/llm_processor.rs:224-229 | the tag branch is skipped exactly when the reply lacks the opening or the closing tag |
| LlmProcessor.FindSkip | pkgs/website/login-test/src/llm_processor.rs:224 | the forward search moves past a position where the pattern does not occur |
| LlmProcessor.RFindSkip | pkgs/website/login-test/src/llm_processor.rs:225 | the backward search moves past a position where the pattern does not occur |
| LlmProcessor.FindSkipRange | pkgs/website/login-test/src/llm_processor.rs:224 | the forward search moves past a stretch without the pattern's first character |
| LlmProcessor.RFindSkipRange | pkgs/website/login-test/src/llm_processor.rs:225 | the backward search moves past a stretch without the pattern's first character |
| LlmProcessor.TagsReversed | pkgs/website/login-test/src/llm_processor.rs:224-225 | with the closing tag in front, the opening tag is found after it and the last closing tag at 0 |
| LlmProcessor.ReversedClose | pkgs/website/login-test/src/llm_processor.rs:225 | in that reply the last closing tag is at 0 |
| LlmProcessor.NoOpenerInside | pkgs/website/login-test/src/llm_processor.rs:224 | in that reply no opening tag can start before the real one |
| LlmProcessor.ClosingFirstGivesEmpty | pkgs/website/login-test/src/llm_processor.rs:227 | "</document><document>" gives an empty document instead of an error |
| LlmProcessor.ClosingFarBeforePanics | pkgs/website/login-test/src/llm_processor.rs:227 | "</document> <document>" makes the slice bounds cross, so the code panics |
| LlmProcessor.TagBranch | pkgs/website/login-test/src/llm_processor.rs:224-228 | a tagged document starts with the opening tag, ends with the closing tag and is trimmed |
| LlmProcessor.TaggedSlice | pkgs/website/login-test/src/llm_processor.rs:227 | the slice from an opening tag to the end of a later closing tag is already trimmed and keeps both tags |
| LlmProcessor.TagBranchAgrees | pkgs/website/login-test/src/llm_processor.rs:224-228 | whenever the closing tag follows the opening one, the code as written and the intended branch give the same document |
| LlmProcessor.FenceLineStartsWithFence | pkgs/website/login-test/src/llm_processor.rs:239 | a fence line is one whose trimmed text starts with three backticks |
| LlmProcessor.BackticksStart | pkgs/website/login-test/src/llm_processor.rs:239 | starting with three backticks is starting with the fence |
| LlmProcessor.FenceCount | pkgs/website/login-test/src/llm_processor.rs:238-242 | there are no more fence lines than lines |
| LlmProcessor.ScanKeepsInside | pkgs/website/login-test/src/llm_processor.rs:238-252 | the toggling loop ends inside a block exactly after an odd number of fences, and keeps exactly the lines preceded by an odd number of fences, each with a newline |
| LlmProcessor.ScanStepKeeps | pkgs/website/login-test/src/llm_processor.rs:239-251 | one turn keeps the fence parity and appends the line only when it is inside a block |
| LlmProcessor.InsideTextPrefix | pkgs/website/login-test/src/llm_processor.rs:238-252 | the text kept from the first lines depends only on those lines |
| LlmProcessor.InsideTextSame | pkgs/website/login-test/src/llm_processor.rs:238-252 | two replies with the same first lines keep the same text from them |
| LlmProcessor.NoFenceNothingKept | pkgs/website/login-test/src/llm_processor.rs:238-252 | without a fence line nothing is kept |
| LlmProcessor.ScanFences | pkgs/website/login-test/src/llm_processor.rs:234-252 | the line loop returns exactly the kept text |
| LlmProcessor.XmlFenceIsFence | pkgs/website/login-test/src/llm_processor.rs:232 | a reply containing "```xml" contains "```", so the second test alone decides |
| LlmProcessor.FenceBranch | pkgs/website/login-test/src/llm_processor.rs:232-257 | the fence branch gives a result exactly when the reply has a fence and some line was kept; the result is the kept text trimmed |
| LlmProcessor.ExtractXmlContent | pkgs/website/login-test/src/llm_processor.rs:222-264 | corrected behaviour, see Left out: a result is trimmed; the only error is the fixed message; a tagged document wins; otherwise the fence branch decides |
| LlmProcessor.NoTagsNoFenceFails | pkgs/website/login-test/src/llm_processor.rs:231-263 | a reply with neither tags nor a fence gives the error |
| LlmProcessor.NoFenceLinesFails | pkgs/website/login-test/src/llm_processor.rs:238-263 | a reply without tags and without a fence line gives the error, even when backticks occur inside a line |
| LlmProcessor.ExtractXml | pkgs/website/login-test/src/llm_processor.rs:222-264 | corrected behaviour, see Left out: the extraction with its line loop returns the specified result |
| LlmProcessor.MatchFrom | pkgs/website/login-test/src/llm_processor.rs:692-694 | a match reported at a position is a match there; none means no match starts there |
| LlmProcessor.FirstMatch | pkgs/website/login-test/src/llm_processor.rs:694 | the leftmost match: no match starts earlier, and none means there is no match at all |
| LlmProcessor.ParseRelevanceScore | pkgs/website/login-test/src/llm_processor.rs:690-708 | a score is always between 0 and 100; the error, with its fixed message, comes exactly when no one-to-three digit number stands alone |
| LlmProcessor.SmallScoreKept | pkgs/website/login-test/src/llm_processor.rs:694-700 | a first number of at most 100 is the score itself |
| LlmProcessor.FourDigitsNoScore | pkgs/website/login-test/src/llm_processor.rs:692 | "1234" holds no score: a four-digit run has no boundary inside it |
| LlmProcessor.LargeScoreCapped | pkgs/website/login-test/src/llm_processor.rs:694-700 | a first number above 100 gives the score 100 |
| LlmProcessor.MatchEndUnique | pkgs/website/login-test/src/llm_processor.rs:692 | a match of `\b(\d{1,3})\b` at a position has only one end |
| LlmProcessor.LeftmostScore | pkgs/website/login-test/src/llm_processor.rs:690-708 | the score is the leftmost standalone number of one to three digits, clamped to 100 |
| LlmProcessor.LargeScoreClamped | pkgs/website/login-test/src/llm_processor.rs:700 | "Score: 250" gives 100 |
| LlmProcessor.DecimalTwoFifty | pkgs/website/login-test/src/llm_processor.rs:697 | "250" reads as 250 |
| LlmProcessor.FirstMatchSkips | pkgs/website/login-test/src/llm_processor.rs:694 | the leftmost search moves over positions where nothing matches |
| LlmProcessor.ErrorTypesSize | pkgs/website/login-test/src/llm_processor.rs:721-752 | the pre-order list of error types has one entry per correction at every depth |
| LlmProcessor.Bump | pkgs/website/login-test/src/llm_processor.rs:728-730 | one more occurrence of a type: its count goes up by one, it becomes a key, and other counts stay |
| LlmProcessor.BumpAllAppend | pkgs/website/login-test/src/llm_processor.rs:726-734 | counting two lists one after the other is counting them joined |
| LlmProcessor.BumpAllCounts | pkgs/website/login-test/src/llm_processor.rs:726-734 | after counting a list, each count has grown by the type's number of occurrences, and the keys are the old ones plus the new types |
| LlmProcessor.BumpAllKeys | pkgs/website/login-test/src/llm_processor.rs:728-730 | the keys after counting are the old keys plus the types counted |
| LlmProcessor.BumpAllGet | pkgs/website/login-test/src/llm_processor.rs:728-730 | each count grows by the number of occurrences of its type |
| LlmProcessor.ErrorTypesStep | pkgs/website/login-test/src/llm_processor.rs:726-734 | one more top-level correction adds its type and then its descendants' types |
| LlmProcessor.ErrorTypesAppend | pkgs/website/login-test/src/llm_processor.rs:726-734 | the types of two forests in a row are their types in a row |
| LlmProcessor.CountNested | pkgs/website/login-test/src/llm_processor.rs:740-752 | the recursive count adds one to the total and to its type's count for every descendant |
| LlmProcessor.CountCorrections | pkgs/website/login-test/src/llm_processor.rs:711-737 | a parse error counts nothing; otherwise the total is the number of corrections at every depth and the map counts them per error type |
| LlmProcessor.CountsAreTypeMultiset | pkgs/website/login-test/src/llm_processor.rs:721-752 | the total is the size of the correction tree, exactly the occurring types are keys, each count is its type's number of occurrences, and the counts add up to the total |
| Marki.FileName | pkgs/marki/src/main.rs:61-68 | a path has a file name exactly when its last component is a normal name |
| Marki.Parent | pkgs/marki/src/main.rs:60-75 | a path has a parent exactly when it is not empty and does not end in a root; the parent plus the last component is the path |
| Marki.StripPrefix | pkgs/marki/src/main.rs:73 | the prefix is stripped exactly when the base's components begin the path, and the base plus the rest is the path |
| Marki.NormalNames | pkgs/marki/src/main.rs:77-81 | only the names of normal components are kept, so there are no more names than components |
| Marki.Extension | pkgs/marki/src/main.rs:41-42 | an extension is what the file name ends with after a dot |
| Marki.BaseName | pkgs/marki/src/main.rs:67-70 | the base deck name is never empty: the input's own name, or "default" |
| Marki.DeckName | pkgs/marki/src/main.rs:57-89 | a deck name is never empty |
| Marki.FileInputDeck | pkgs/marki/src/main.rs:58-64 | with a file as input, the deck is the name of the directory holding the file |
| Marki.BareFileInputDeck | pkgs/marki/src/main.rs:58-64 | a bare file name has no named parent, so its deck is "default" |
| Marki.DeckInDirectory | pkgs/marki/src/main.rs:67-88 | below the input directory the deck is the base name, followed by "::" and the in-between directory names joined with "::" when there are any |
| Marki.DirectChildDeck | pkgs/marki/src/main.rs:84-85 | a file directly inside the input directory goes to the deck named after the directory |
| Marki.Normals | pkgs/marki/src/main.rs:77-81 | directory names become normal components, one each |
| Marki.NormalNamesOfNormals | pkgs/marki/src/main.rs:77-81 | the names of those components are the directory names again |
| Marki.NestedDeck | pkgs/marki/src/main.rs:86-87 | a nested file goes to the deck "base::d1::d2...", one level per directory in path order |
| Marki.NonNormalDropped | pkgs/marki/src/main.rs:78-81 | components that are not names, such as ".", add no deck level |
| Marki.OutsideInputDeck | pkgs/marki/src/main.rs:72-85 | a file outside the input directory gets the directory's own name as its deck |
| Marki.FindMarkdownFiles | pkgs/marki/src/main.rs:29-55 | the walk entries kept, in walk order: a path is kept exactly when some walk entry is a regular file within the depth limit with extension "md" or "markdown" |
| Marki.MarkdownExtension | pkgs/marki/src/main.rs:39-44 | "notes.md" has the extension "md" |
| Marki.HiddenMdHasNoExtension | pkgs/marki/src/main.rs:41-44 | a hidden file named ".md" has no extension, so it is never collected |
| Marki.InputFiles | pkgs/marki/src/main.rs:97-109 | a file input is the only file; a missing input fails with its message; a directory input succeeds exactly when it holds wanted files; a success is never empty |
| Marki.Cards | pkgs/marki/src/main.rs:115-132 | one card per file, when every file is read |
| Marki.Tagged | pkgs/marki/src/main.rs:119-122 | the parsed card keeps its front and back and gets the file path and deck name |
| Marki.CardsTagged | pkgs/marki/src/main.rs:115-132 | card i comes from file i, carries that file's deck name and keeps what the parser read |
| Marki.CardsFail | pkgs/marki/src/main.rs:116-117 | cards are missing exactly when some file cannot be read |
| Marki.AllMedia | pkgs/marki/src/main.rs:127-129 | a media path is collected exactly when some file's card names it |
| Marki.InDeck | pkgs/marki/src/main.rs:134-137 | the cards of one deck are exactly the cards naming it |
| Marki.GroupStep | pkgs/marki/src/main.rs:135-136 | adding one card to its deck keeps every deck equal to the cards naming it so far |
| Marki.GroupDecks | pkgs/marki/src/main.rs:134-137 | there is a deck for exactly the names some card carries, and each deck holds its cards in their original order |
| Marki.DeckMembership | pkgs/marki/src/main.rs:134-137 | every card lands in the deck it names, and every deck holds only cards naming it |
| Marki.ComponentLessIrreflexive | pkgs/marki/src/main.rs:144 | no component sorts before itself |
| Marki.ComponentLessTransitive | pkgs/marki/src/main.rs:144 | the component order is transitive |
| Marki.ComponentLessTotal | pkgs/marki/src/main.rs:144 | any two different components are ordered |
| Marki.PathLessIrreflexive | pkgs/marki/src/main.rs:144 | no path sorts before itself |
| Marki.PathLessTransitive | pkgs/marki/src/main.rs:144 | the path order is transitive |
| Marki.PathLessTotal | pkgs/marki/src/main.rs:144 | any two different paths are ordered |
| Marki.InsertPath | pkgs/marki/src/main.rs:144-145 | inserting into a sorted list without repeats keeps it sorted and adds exactly the new path |
| Marki.SortDedup | pkgs/marki/src/main.rs:144-145 | the result is strictly increasing and holds exactly the collected paths |
| Marki.PathsSortedUnique | pkgs/marki/src/main.rs:144-145 | two strictly increasing lists with the same members are equal, so sorting and de-duplicating has one answer |
| Marki.PathTailMember | pkgs/marki/src/main.rs:144-145 | two such lists with the same first path have the same other members |
| Marki.ReadCards | pkgs/marki/src/main.rs:115-132 | the reading loop stops exactly when some file cannot be read; otherwise it returns the cards and the media in file order |
| Marki.Convert | pkgs/marki/src/main.rs:91-154 | the run succeeds exactly when files are chosen and all of them are read; then the decks group the cards by name and the media are the collected paths, sorted without repeats |
| Marki.CardsFailAfter | pkgs/marki/src/main.rs:116-117 | once one file cannot be read there are no cards |
| Marki.CardsPrefixFail | pkgs/marki/src/main.rs:115-117 | a failure among the first files is a failure for all of them |

## Left out

- File-system access in wrap_codeblocks.py (`os.walk`, `glob.glob`, `os.path.isfile`, `os.stat`, reading files, `print`): the walk, the file queries, each file's metadata and each file's lines are inputs, and output is a list of lines.
- The `pathspec` library: its source is not part of this model. `PathMatch` specifies the gitwildmatch rules of gitignore(5) directly, including the stripping of each pattern line before it is compiled (`PathMatch.StripPattern`); it is not a transcription of that library. Character classes `[...]` are read as literal characters.
- Loading the YAML configuration file (wrap_codeblocks.py:62-76): the parsed `ignore` list and `filetypes` mapping are inputs.
- The Pygments lexer lookup (wrap_codeblocks.py:215-220): the guesser is a function parameter of `Filetypes.DetectLanguage`.
- `datetime` formatting of the modification time (wrap_codeblocks.py:239-240): the formatted time string is part of the given `Cdata.Stat`.
- UTF-8 decoding with replacement characters when a file is read: the file's lines arrive already decoded.
- An exception raised inside `process_file` after its header was printed (wrap_codeblocks.py:396-399): the model has no partially printed block. A missing language or failed `stat` is modelled, and so is a read error.
- The XML parse of the xml-annotation crate (`CorrectionDocument::parse` through roxmltree) and `to_json`: the model starts from the parsed node tree.
- The regular expressions of the annotated-text parser (`parse_content`, lib.rs:114-176) and its HTML entity decoder: the correction matches, the trimmed `<original>` and decoded `<corrected>` captures, the text left after the tag-removal regex, and the decoder are inputs of `Annotated.ParseContent` and `Annotated.Parse`. The nested parses of a correction's inner and `<original>` content are computed: the lazy correction capture stops at the first `</correction>`, so they find no correction.
- The Markdown parser in marki-wasm (pulldown_cmark): the renderer is given the event sequence. Debug logging to the browser console is not modelled.
- The Markdown renderer and the cache files of the blog handler: rendering is a function parameter, and the cache only decides where the HTML comes from.
- The database queries of fuse-taskchampion, feature-immo24 and llm_processor.rs: their results are inputs. The FUSE `lookup` and `getattr` handlers, which only query the database, are not modelled.
- The language-model calls, the web handlers around them, and the floating-point scores (`calculate_language_score` and `calculate_final_score`).
- `main` of cli-ai, which runs the model and executes the command.
- Concurrency, such as tokio and the FUSE runtime's `block_on`.
- The printer drivers of the receipt printer (`print_markdown`) and `parse_markdown.rs`. The latter repeats `TableBuilder` and `LineWrapper`, and only table.rs and wrapper.rs are modelled.
- `pkgs/marki/src/parser.rs` (card parsing and media extraction) is not part of this model: it holds unresolved merge conflicts. The card parser and the media extractor are function parameters of `Marki.Convert`. The two error messages leave out the path that main.rs:104 and main.rs:117 format into them (`Marki.InputFiles` gives "Input path does not exist", `Marki.Convert` "Failed to read file"), because a path here is a list of components and the text `Path::display` prints is not recoverable from it. `generate_decks`, which writes the package file, is left out: `Marki.Convert` returns the package it is given. The `--deck-name` option is parsed but never read, so it has no counterpart. The `dbg!` output of the deck and media counts (main.rs:139-151) and the success message (main.rs:156) are not modelled.
- Case folding and `is_alphanumeric` are limited to ASCII (`Text.ToLower`, `Text.AsciiAlnum`); non-ASCII letters are neither lower-cased nor kept in slugs and post ids.
- LlmProcessor.ParseRelevanceScore: `\d` and `\b` are read as ASCII digits and ASCII word characters. The regex crate reads them as Unicode, so its "Failed to parse" error, which only a non-ASCII digit can reach, is not modelled.
- MarkiWasm.MarkdownRenderer.Render: the cloze counter is an unbounded natural number; the source's `i32` overflow after 2^31 spans is not modelled.
- Base62.EncodeBase62: the argument is an unbounded integer rather than an `i64`; every `i64` input behaves as modelled.
- Immo24.MergeInto: the merge returns the merged value instead of rewriting the target through a mutable reference; JSON numbers are abstract reals.
- Wrapper.LineWrapper.AddText: requires a positive width scale. The source divides by it and would panic on 0, and its callers only pass 1 or 2.
- Wrapper.LineWrapper.AddTextPreserveLines: requires the overflow indicator to fit the width whenever a line is cut. Otherwise the source's `usize` subtraction at wrapper.rs:135 panics in a debug build; in a release build it wraps around, so the whole line is printed followed by the indicator and the overflow is empty. Neither outcome is modelled.
- Table.NoTableVanishes: states its guarantee only for tables with at least one header row. `format_transposed` returns nothing without one, and the Markdown driver always supplies one.
- FuseTc.ReplyEntries: the kernel's reply buffer is given as the number of entries it accepts, not as a byte size.
- Gitignore.LoadCascadingGitignores: uses the corrected rewrite `Gitignore.TransformPatternFixed`, not the rewrite of wrap_codeblocks.py:108-129 (`Gitignore.TransformPattern`). The two give patterns that pathspec reads differently on these inputs:
  - a root line `/p` whose `p` has no slash before its end: the program gives `p`, which matches at any depth, and the model keeps `/p` (`/build`; `Gitignore.RootAnchorLost`, `Gitignore.RootAnchorKept`);
  - among those, `/!p` and `/#p`: the program's `!p` is a negation and its `#p` a comment, and the model keeps anchored literal patterns (`Gitignore.RootNegationIntroduced`, `Gitignore.RootNegationAvoided`);
  - `name/` in `sub/.gitignore`: the program gives `sub/name/` and the model `/sub/**/name/` (`Gitignore.TrailingSlashDepthLost`, `Gitignore.TrailingSlashDepthKept`);
  - a lone `/` (or `!/`) in `sub/.gitignore`: the program gives `sub/` (or `!sub/`), which matches every directory named `sub` at any depth, and the model gives no pattern (`Gitignore.LoneSlashIgnoresDirectory`);
  - any line in a directory whose path starts with `!`, `#` or whitespace: the program's pattern begins with the directory, so pathspec reads it as a negation or a comment, or strips the leading whitespace; the model's begins with `/` and is read literally.
  On every other line the two patterns differ only by a leading `/` in front of a pattern that already has a slash before its end, or by `**/` in front of a root `name/`; pathspec reads each such pair the same way. Below the root, `Gitignore.FixedAgreesBelowRoot` proves this form.
- Gitignore.TransformLines: the patterns of one file under the corrected rewrite, so it differs from the program on the inputs listed for `Gitignore.LoadCascadingGitignores`.
- Gitignore.LoadIgnorePatterns: the walk's part of the list is the corrected one from `Gitignore.LoadCascadingGitignores`; the extras and `**/.git` are as written.
- Cdata.ProcessFile: escapes the read-error message inside the CDATA section (`Cdata.Body`). On an error message containing `]]>` the program prints it unescaped at wrap_codeblocks.py:256 and closes the section early (`Cdata.BodyAsWritten`, `Cdata.UnescapedErrorBreaksSection`).
- FileTree.BuildTree: builds the corrected tree. On the files `__files__/a.py` and `b.py` the program raises at wrap_codeblocks.py:324-330 (`FileTree.BuildAsWritten`, `FileTree.FilesDirectoryBreaksBuild`), and the model builds the tree.
- Wrap.WrapFiles: prints each block through `Cdata.ProcessFile`, so an error message containing `]]>` is printed escaped, not as the program prints it.
- Wrap.Run: combines the two corrections above: the escaped error line, and a tree build that does not raise on a `__files__` directory. The ignore list is an input rather than the result of `load_cascading_gitignore_spec` (wrap_codeblocks.py:385-390); `Gitignore.LoadIgnorePatterns` models that function.
- Table.PlanChunks: keeps the lone column 0 as a chunk (`Table.Chunks`). The program forms no chunk for a single-column table (table.rs:297-306; `Table.ChunksAsWritten`).
- Table.FormatChunked: prints the corrected chunks. On seven rows of one 55-character cell the program prints nothing and the model prints a table (`Table.SingleColumnVanishes`, `Table.SingleColumnExample`).
- Table.TableBuilder.FormatTable: goes through `Table.FormatChunked`, so it prints the same single-column tables that the program drops.
- LlmProcessor.ExtractXmlContent: when the last `</document>` comes before the first `<document>`, the model falls through to the fence branch. The program slices without comparing the two: on `</document> <document>` it panics, and on `</document><document>` it returns an empty document (llm_processor.rs:224-228; `LlmProcessor.TagBranchAsWritten`, `LlmProcessor.ClosingFarBeforePanics`, `LlmProcessor.ClosingFirstGivesEmpty`).
- LlmProcessor.ExtractXml: returns `LlmProcessor.ExtractXmlContent`'s result, with the same difference on reversed tags.

## Findings

| source | as written | input that shows it | evidently intended | confidence | as-written member | corrected member |
|---|---|---|---|---|---|---|
| pkgs/wrap-codeblocks/wrap_codeblocks.py:109-116 | an anchored line of the root `.gitignore` loses its leading slash and becomes a bare name | `/build` in the root file becomes `build`, which also ignores `src/build` | the pattern stays anchored to the root and ignores only `build` at the top | high, not executed | Gitignore.RootAnchorLost | Gitignore.RootAnchorKept |
| pkgs/wrap-codeblocks/wrap_codeblocks.py:101-129 | at the root, a line whose name starts with `!` after the anchoring slash becomes a negation once the slash is removed | `/!keep` becomes `!keep`, which re-includes instead of ignoring | the line ignores the file literally named `!keep` at the root | medium, not executed | Gitignore.RootNegationIntroduced | Gitignore.RootNegationAvoided |
| pkgs/wrap-codeblocks/wrap_codeblocks.py:118-121 | a line whose only slash is the trailing one is treated as a path relative to the directory | `out/` in `sub/.gitignore` becomes `sub/out/`, which misses `sub/x/out/f` | a trailing slash alone keeps the any-depth meaning: `sub/**/out/` | high, not executed | Gitignore.TrailingSlashDepthLost | Gitignore.TrailingSlashDepthKept |
| pkgs/wrap-codeblocks/wrap_codeblocks.py:109-116 | a lone `/` line becomes the directory's own path (or the empty pattern at the root) | `/` in `sub/.gitignore` becomes `sub/`, which ignores every file of `sub` | a lone `/` matches nothing and is dropped | medium, not executed | Gitignore.LoneSlashIgnoresDirectory | Gitignore.LoneSlashIgnoresDirectory |
| pkgs/wrap-codeblocks/wrap_codeblocks.py:324-330 | the file list of a directory lives under the key `__files__`, the same key a subdirectory of that name would use | the files `__files__/a.py` and `b.py` make the tree building raise AttributeError | files and subdirectories are kept apart, so any directory name works | high, not executed | FileTree.FilesDirectoryBreaksBuild | FileTree.BuildFilesAt |
| pkgs/wrap-codeblocks/wrap_codeblocks.py:255-256 | the read-error message is printed inside the CDATA section without the `]]>` escape | an error message containing `]]>` ends the section early and breaks the XML | the message is escaped like every file line | medium, not executed | Cdata.UnescapedErrorBreaksSection | Cdata.SectionRestores |
| pkgs/recipt-printer/src/markdown/table.rs:297-306 | a chunk is kept only when it holds more than one column | a one-column table of seven rows of 55 characters prints nothing at all | the lone first column is printed as a chunk of its own | high, not executed | Table.SingleColumnVanishes | Table.NoTableVanishes |
| pkgs/website/axum/src/handlers/blog.rs:53-98 | the list links every Markdown file by its stem, but the post handler accepts only letters and digits | the file `my-post.md` is listed with a link that the handler answers with "Invalid blog post ID" | the list shows only posts the handler serves | medium, not executed | Blog.ListedButRefused | Blog.ServableLinkWorks |
| pkgs/website/login-test/src/llm_processor.rs:224-228 | the slice from the first opening tag to the last closing tag does not check that the closing tag comes after the opening one | `</document> <document>` panics; `</document><document>` gives an empty document | a reply whose tags are reversed falls through to the fence branch or the error | high, not executed | LlmProcessor.ClosingFarBeforePanics | LlmProcessor.ExtractXmlContent |
