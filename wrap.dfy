/*
 * The top level of wrap_codeblocks.py: collect the files, print a `<file>`
 * block for each one whose language is known and whose metadata can be
 * read, and finish with the `<filetree>` of exactly those files, all
 * inside one `<src>` element.
 */
module Wrap {
  import opened Text
  import Filetypes
  import Cdata
  import Collect
  import FileTree

  /** What the run learns from outside: the file system, the language
      guesser, each file's metadata (None when it cannot be read) and
      each file's contents. */
  datatype World = World(
    fs: Collect.FileSystem,
    guess: string -> Option<string>,
    stat: string -> Option<Cdata.Stat>,
    read: string -> Cdata.Contents)

  /** Whether a file gets a block. */
  predicate Wrapped(w: World, custom: map<string, string>, path: string)
  {
    Filetypes.DetectLanguage(path, custom, w.guess).Some? && w.stat(path).Some?
  }

  /** The lines printed for one file. */
  function FileOutput(w: World, custom: map<string, string>, path: string): seq<string>
  {
    if Wrapped(w, custom, path) then
      Cdata.FileBlock(
        Cdata.Header(path, Filetypes.DetectLanguage(path, custom, w.guess).value, w.stat(path).value),
        Cdata.Body(w.read(path)))
    else []
  }

  /** The lines printed for a list of files, in order. */
  function Blocks(w: World, custom: map<string, string>, files: seq<string>): seq<string>
  {
    if files == [] then []
    else Blocks(w, custom, files[..|files| - 1]) + FileOutput(w, custom, files[|files| - 1])
  }

  /** The files that got a block, in order. */
  function Processed(w: World, custom: map<string, string>, files: seq<string>): (r: seq<string>)
    ensures forall f :: f in r <==> f in files && Wrapped(w, custom, f)
  {
    if files == [] then []
    else
      var f := files[|files| - 1];
      Processed(w, custom, files[..|files| - 1]) + (if Wrapped(w, custom, f) then [f] else [])
  }

  /** The whole output for the collected files. */
  ghost function Output(w: World, custom: map<string, string>, files: seq<string>): seq<string>
  {
    ["<src>"] + Blocks(w, custom, files) + ["  <filetree>"]
      + FileTree.TreeLines(FileTree.Build(w.fs.rel, Processed(w, custom, files)), 2)
      + ["  </filetree>", "</src>"]
  }

  lemma Step(w: World, custom: map<string, string>, files: seq<string>, i: nat)
    requires i < |files|
    ensures Blocks(w, custom, files[..i + 1]) == Blocks(w, custom, files[..i]) + FileOutput(w, custom, files[i])
    ensures Processed(w, custom, files[..i + 1])
      == Processed(w, custom, files[..i]) + (if Wrapped(w, custom, files[i]) then [files[i]] else [])
  {
    assert files[..i + 1][..i] == files[..i];
  }

  /** The loop over the collected files: the lines printed for them and
      the files that got a block. */
  method WrapFiles(w: World, custom: map<string, string>, files: seq<string>)
    returns (blocks: seq<string>, processed: seq<string>)
    ensures blocks == Blocks(w, custom, files)
    ensures processed == Processed(w, custom, files)
  {
    blocks := [];
    processed := [];
    for i := 0 to |files|
      invariant blocks == Blocks(w, custom, files[..i])
      invariant processed == Processed(w, custom, files[..i])
    {
      var path := files[i];
      var ok, lines := Cdata.ProcessFile(path, custom, w.guess, w.stat(path), w.read(path));
      assert ok == Wrapped(w, custom, path) && lines == FileOutput(w, custom, path);
      Step(w, custom, files, i);
      blocks := blocks + lines;
      if ok {
        processed := processed + [path];
      }
    }
    assert files[..|files|] == files;
  }

  /** A run: collect the files the patterns and ignore rules select, wrap
      each, and list the wrapped ones in the file tree. */
  method Run(w: World, root: string, ignore: seq<string>, patterns: seq<string>, custom: map<string, string>)
    returns (out: seq<string>)
    ensures out == Output(w, custom, SortedOf(Collect.Collected(w.fs, root, ignore, patterns)))
  {
    var files := Collect.CollectFiles(w.fs, root, ignore, patterns);
    var blocks, processed := WrapFiles(w, custom, files);
    var tree := FileTree.BuildTree(w.fs.rel, processed);
    var listing := FileTree.PrintTree(tree, 2);
    out := ["<src>"] + blocks + ["  <filetree>"] + listing + ["  </filetree>", "</src>"];
  }

  // ---------------------------------------------------------------------
  // Properties of a run

  /** The file tree lists, under each directory, exactly the wrapped
      files that lie directly in it, in the order their blocks appear. */
  lemma TreeListsWrappedFiles(w: World, custom: map<string, string>, files: seq<string>, dir: seq<string>)
    ensures FileTree.FilesAt(FileTree.Build(w.fs.rel, Processed(w, custom, files)), dir)
      == FileTree.FilesIn(w.fs.rel, Processed(w, custom, files), dir)
    ensures forall f :: f in FileTree.FilesAt(FileTree.Build(w.fs.rel, Processed(w, custom, files)), dir) <==>
      f in files && Wrapped(w, custom, f) && FileTree.DirParts(w.fs.rel(f)) == dir
  {
    FileTree.BuildFilesAt(w.fs.rel, Processed(w, custom, files), dir);
  }

  /** A file that is not wrapped prints nothing. */
  lemma {:induction false} SkippedFilePrintsNothing(w: World, custom: map<string, string>, files: seq<string>, f: string)
    requires !Wrapped(w, custom, f)
    ensures Blocks(w, custom, files + [f]) == Blocks(w, custom, files)
    ensures Processed(w, custom, files + [f]) == Processed(w, custom, files)
  {
    assert (files + [f])[..|files|] == files;
  }

  /** Each wrapped file contributes one block of four lines plus its body. */
  lemma {:induction false} BlocksLength(w: World, custom: map<string, string>, files: seq<string>)
    ensures |Blocks(w, custom, files)| >= 4 * |Processed(w, custom, files)|
  {
    if files != [] {
      BlocksLength(w, custom, files[..|files| - 1]);
    }
  }
}
