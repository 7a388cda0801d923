/*
 * The file collector of wrap_codeblocks.py: which files the tool reads.
 * With no search patterns it walks the repository; otherwise each pattern
 * names a file, a directory to walk, or a glob. Every candidate is tested
 * against the ignore patterns by its POSIX path relative to the
 * repository root, and the survivors are returned sorted and without
 * repeats.
 */
module Collect {
  import opened Text
  import opened PathMatch
  import Gitignore

  /** The file-system queries the collector makes, each a fixed function
      of a path: whether it is a regular file or a directory, every file
      below a directory as the walk joins it, the matches of a recursive
      glob, and the POSIX path relative to the repository root. */
  datatype FileSystem = FileSystem(
    isFile: string -> bool,
    isDir: string -> bool,
    walk: string -> seq<string>,
    glob: string -> seq<string>,
    rel: string -> string)

  /** The glob matches that are regular files, in glob order. */
  function GlobFiles(fs: FileSystem, found: seq<string>): (r: seq<string>)
    ensures forall p :: p in r <==> p in found && fs.isFile(p)
  {
    if found == [] then []
    else (if fs.isFile(found[0]) then [found[0]] else []) + GlobFiles(fs, found[1..])
  }

  /** The candidates one search pattern contributes: the pattern itself
      when it is a file, else the walk below it when it is a directory,
      else the regular files among its glob matches. */
  function PatternCandidates(fs: FileSystem, pattern: string): seq<string>
  {
    if fs.isFile(pattern) then [pattern]
    else if fs.isDir(pattern) then fs.walk(pattern)
    else GlobFiles(fs, fs.glob(pattern))
  }

  /** Every candidate of a list of patterns, pattern by pattern. */
  function Candidates(fs: FileSystem, patterns: seq<string>): seq<string>
  {
    if patterns == [] then []
    else Candidates(fs, patterns[..|patterns| - 1]) + PatternCandidates(fs, patterns[|patterns| - 1])
  }

  /** What the search covers: the whole repository without patterns. */
  function Searched(fs: FileSystem, root: string, patterns: seq<string>): seq<string>
  {
    if patterns == [] then fs.walk(root) else Candidates(fs, patterns)
  }

  /** The candidates the ignore patterns do not match. */
  function Kept(fs: FileSystem, ignore: seq<string>, paths: seq<string>): set<string>
  {
    set p | p in paths && !IsIgnored(ignore, fs.rel(p))
  }

  /** The set of collected paths. */
  function Collected(fs: FileSystem, root: string, ignore: seq<string>, patterns: seq<string>): set<string>
  {
    Kept(fs, ignore, Searched(fs, root, patterns))
  }

  lemma KeptAppend(fs: FileSystem, ignore: seq<string>, a: seq<string>, b: seq<string>)
    ensures Kept(fs, ignore, a + b) == Kept(fs, ignore, a) + Kept(fs, ignore, b)
  {
  }

  /** Add the candidates of `paths` that are not ignored to `collected`. */
  method AddKept(fs: FileSystem, ignore: seq<string>, paths: seq<string>, collected: set<string>)
    returns (r: set<string>)
    ensures r == collected + Kept(fs, ignore, paths)
  {
    r := collected;
    for i := 0 to |paths|
      invariant r == collected + Kept(fs, ignore, paths[..i])
    {
      KeptAppend(fs, ignore, paths[..i], [paths[i]]);
      assert paths[..i + 1] == paths[..i] + [paths[i]];
      if !IsIgnored(ignore, fs.rel(paths[i])) {
        r := r + {paths[i]};
      }
    }
    assert paths[..|paths|] == paths;
  }

  lemma CandidatesStep(fs: FileSystem, patterns: seq<string>, i: nat)
    requires i < |patterns|
    ensures Candidates(fs, patterns[..i + 1]) == Candidates(fs, patterns[..i]) + PatternCandidates(fs, patterns[i])
  {
    assert patterns[..i + 1][..i] == patterns[..i];
  }

  /** Membership in the collected set, spelled out. */
  lemma CollectedMembers(fs: FileSystem, root: string, ignore: seq<string>, patterns: seq<string>)
    ensures forall p :: p in Collected(fs, root, ignore, patterns) <==>
      p in Searched(fs, root, patterns) && !IsIgnored(ignore, fs.rel(p))
  {
  }

  /** The collector: the kept candidates, sorted, each once. */
  method CollectFiles(fs: FileSystem, root: string, ignore: seq<string>, patterns: seq<string>)
    returns (files: seq<string>)
    ensures files == SortedOf(Collected(fs, root, ignore, patterns))
    ensures StrictlySorted(files)
    ensures forall p :: p in files <==> p in Searched(fs, root, patterns) && !IsIgnored(ignore, fs.rel(p))
  {
    var collected: set<string> := {};
    if patterns == [] {
      collected := AddKept(fs, ignore, fs.walk(root), collected);
    } else {
      for i := 0 to |patterns|
        invariant collected == Kept(fs, ignore, Candidates(fs, patterns[..i]))
      {
        CandidatesStep(fs, patterns, i);
        KeptAppend(fs, ignore, Candidates(fs, patterns[..i]), PatternCandidates(fs, patterns[i]));
        collected := AddKept(fs, ignore, PatternCandidates(fs, patterns[i]), collected);
      }
      assert patterns[..|patterns|] == patterns;
    }
    assert collected == Collected(fs, root, ignore, patterns);
    files := SortStrings(collected);
    CollectedMembers(fs, root, ignore, patterns);
  }

  // ---------------------------------------------------------------------
  // Properties of the collection

  /** The order of the search patterns does not change the output. */
  lemma PatternOrderIrrelevant(fs: FileSystem, root: string, ignore: seq<string>, a: seq<string>, b: seq<string>)
    requires a != [] && b != []
    ensures SortedOf(Collected(fs, root, ignore, a + b)) == SortedOf(Collected(fs, root, ignore, b + a))
  {
    CandidatesAppend(fs, a, b);
    CandidatesAppend(fs, b, a);
    KeptAppend(fs, ignore, Candidates(fs, a), Candidates(fs, b));
    KeptAppend(fs, ignore, Candidates(fs, b), Candidates(fs, a));
    assert Collected(fs, root, ignore, a + b) == Collected(fs, root, ignore, b + a);
  }

  lemma {:induction false} CandidatesAppend(fs: FileSystem, a: seq<string>, b: seq<string>)
    ensures Candidates(fs, a + b) == Candidates(fs, a) + Candidates(fs, b)
    decreases |b|
  {
    if b == [] {
      assert a + b == a;
    } else {
      var b' := b[..|b| - 1];
      assert (a + b)[..|a + b| - 1] == a + b';
      CandidatesAppend(fs, a, b');
      AppendAssoc(Candidates(fs, a), Candidates(fs, b'), PatternCandidates(fs, b[|b| - 1]));
    }
  }

  /** Naming a file twice, or as part of a directory it lies in, does not
      list it twice: a pattern list that already covers a file collects
      the same set when the file is named again. */
  lemma RepeatedFileCollectedOnce(fs: FileSystem, root: string, ignore: seq<string>, patterns: seq<string>, f: string)
    requires patterns != [] && fs.isFile(f) && f in Candidates(fs, patterns)
    ensures Collected(fs, root, ignore, patterns + [f]) == Collected(fs, root, ignore, patterns)
  {
    assert (patterns + [f])[..|patterns|] == patterns;
    KeptAppend(fs, ignore, Candidates(fs, patterns), [f]);
  }

  /** A file inside a `.git` directory is never collected unless a pattern
      read from some `.gitignore` matches it (and decides instead). */
  lemma GitFilesNotCollected(fs: FileSystem, root: string, extras: seq<string>, fromWalk: seq<string>,
                             patterns: seq<string>, f: string, i: nat)
    requires i < |PathParts(fs.rel(f))| && PathParts(fs.rel(f))[i] == ".git"
    requires forall j :: 0 <= j < |fromWalk| ==> !LineMatches(fromWalk[j], fs.rel(f))
    ensures f !in Collected(fs, root, Gitignore.Combine(extras, fromWalk), patterns)
  {
    Gitignore.GitDirIgnored(extras, fromWalk, fs.rel(f), i);
  }
}
