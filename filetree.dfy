/*
 * The `<filetree>` listing of wrap_codeblocks.py: the processed files
 * arranged by directory and printed as nested `<directory>` elements,
 * files before subdirectories and subdirectories by name.
 *
 * The program keeps the tree as nested dictionaries in which the key
 * `__files__` holds a node's file list and every other key a
 * subdirectory. `PyValue` and `InsertAsWritten` model that layout; a
 * directory that is itself called `__files__` collides with the file
 * list there (see `FilesDirectoryBreaksBuild`). `Tree` keeps the two
 * apart and is what the rest of the model uses.
 */
module FileTree {
  import opened Text
  import Cdata

  /** The directory components of a root-relative path: all of its
      segments but the last, which names the file. */
  function DirParts(relPath: string): (r: seq<string>)
    ensures |r| == |Split(relPath, '/')| - 1
  {
    var parts := Split(relPath, '/');
    parts[..|parts| - 1]
  }

  // ---------------------------------------------------------------------
  // The nested dictionaries as written

  const FilesKey := "__files__"

  /** A value stored in the nested dictionaries: a file list or a dictionary. */
  datatype PyValue = PyList(items: seq<string>) | PyDict(entries: map<string, PyValue>)

  /** The exceptions a misplaced value raises: indexing a list by a string,
      or calling `append` on a dictionary. */
  datatype PyError = TypeError | AttributeError

  /** One file added to the dictionaries by walking its directory
      components from `node`. */
  function InsertAsWritten(node: PyValue, dirs: seq<string>, file: string): (r: Result<PyValue, PyError>)
    ensures node.PyList? ==> r == Err(TypeError)
    ensures r.Ok? ==> r.value.PyDict?
    decreases |dirs|
  {
    match node
    case PyList(_) => Err(TypeError)
    case PyDict(d) =>
      if dirs == [] then
        if FilesKey !in d then Ok(PyDict(d[FilesKey := PyList([file])]))
        else
          match d[FilesKey]
          case PyList(items) => Ok(PyDict(d[FilesKey := PyList(items + [file])]))
          case PyDict(_) => Err(AttributeError)
      else
        var sub := if dirs[0] in d then d[dirs[0]] else PyDict(map[]);
        match InsertAsWritten(sub, dirs[1..], file)
        case Ok(sub') => Ok(PyDict(d[dirs[0] := sub']))
        case Err(e) => Err(e)
  }

  /** The dictionaries built from a list of files, or the exception raised. */
  function BuildAsWritten(rel: string -> string, files: seq<string>): Result<PyValue, PyError>
  {
    if files == [] then Ok(PyDict(map[]))
    else
      match BuildAsWritten(rel, files[..|files| - 1])
      case Ok(tree) =>
        var f := files[|files| - 1];
        InsertAsWritten(tree, DirParts(rel(f)), f)
      case Err(e) => Err(e)
  }

  /** A repository holding a directory named `__files__` and a file at its
      root: in sorted order the directory's file comes first and creates a
      dictionary under `__files__`, and the root file's `append` then
      fails. */
  lemma FilesDirectoryBreaksBuild(rel: string -> string, inDir: string, atRoot: string)
    requires DirParts(rel(inDir)) == [FilesKey] && DirParts(rel(atRoot)) == []
    ensures BuildAsWritten(rel, [inDir, atRoot]) == Err(AttributeError)
  {
    assert [inDir, atRoot][..1] == [inDir];
    assert [inDir][..0] == [];
    var first := InsertAsWritten(PyDict(map[]), [], inDir);
    assert first == Ok(PyDict(map[FilesKey := PyList([inDir])]));
    assert [FilesKey][1..] == [];
    assert InsertAsWritten(PyDict(map[]), [FilesKey], inDir) == Ok(PyDict(map[FilesKey := first.value]));
    assert BuildAsWritten(rel, [inDir]) == Ok(PyDict(map[FilesKey := first.value]));
  }

  /** In the other order the root file list comes first, and walking into
      the directory `__files__` indexes that list by a string. */
  lemma FilesDirectoryAfterRootFile(rel: string -> string, inDir: string, atRoot: string)
    requires DirParts(rel(inDir)) == [FilesKey] && DirParts(rel(atRoot)) == []
    ensures BuildAsWritten(rel, [atRoot, inDir]) == Err(TypeError)
  {
    assert [atRoot, inDir][..1] == [atRoot];
    assert [atRoot][..0] == [];
    assert BuildAsWritten(rel, [atRoot]) == Ok(PyDict(map[FilesKey := PyList([atRoot])]));
  }

  /** Two such paths exist: `__files__/a.py` and `b.py`. */
  lemma FilesDirectoryExample()
    ensures DirParts("__files__/a.py") == [FilesKey] && DirParts("b.py") == []
  {
    SplitTwo("__files__", "a.py", '/');
    assert "__files__/a.py" == "__files__" + ['/'] + "a.py";
    SplitNone("b.py", '/');
  }

  // ---------------------------------------------------------------------
  // The tree

  /** A directory node: the files directly in it, in processing order, and
      its subdirectories by name. */
  datatype Tree = Tree(files: seq<string>, dirs: map<string, Tree>)

  const Empty := Tree([], map[])

  /** One file added under the node its directory components lead to,
      creating the directories on the way. */
  function Insert(t: Tree, dirs: seq<string>, file: string): (r: Tree)
    ensures dirs != [] ==> r.files == t.files && r.dirs.Keys == t.dirs.Keys + {dirs[0]}
    decreases |dirs|
  {
    if dirs == [] then Tree(t.files + [file], t.dirs)
    else
      var sub := if dirs[0] in t.dirs then t.dirs[dirs[0]] else Empty;
      Tree(t.files, t.dirs[dirs[0] := Insert(sub, dirs[1..], file)])
  }

  /** The tree of a list of files, added in order. */
  function Build(rel: string -> string, files: seq<string>): Tree
  {
    if files == [] then Empty
    else
      var f := files[|files| - 1];
      Insert(Build(rel, files[..|files| - 1]), DirParts(rel(f)), f)
  }

  /** The tree builder: each file is added under its directory. */
  method BuildTree(rel: string -> string, files: seq<string>) returns (tree: Tree)
    ensures tree == Build(rel, files)
  {
    tree := Empty;
    for i := 0 to |files|
      invariant tree == Build(rel, files[..i])
    {
      assert files[..i + 1][..i] == files[..i];
      tree := Insert(tree, DirParts(rel(files[i])), files[i]);
    }
    assert files[..|files|] == files;
  }

  /** The node a directory path leads to, if there is one. */
  function Lookup(t: Tree, path: seq<string>): (r: Option<Tree>)
    ensures path == [] ==> r == Some(t)
    decreases |path|
  {
    if path == [] then Some(t)
    else if path[0] in t.dirs then Lookup(t.dirs[path[0]], path[1..])
    else None
  }

  /** The files listed directly under a directory path. */
  function FilesAt(t: Tree, path: seq<string>): seq<string>
  {
    match Lookup(t, path)
    case Some(n) => n.files
    case None => []
  }

  /** The files whose directory is `path`, in list order. */
  function FilesIn(rel: string -> string, files: seq<string>, path: seq<string>): (r: seq<string>)
    ensures forall f :: f in r <==> f in files && DirParts(rel(f)) == path
  {
    if files == [] then []
    else
      var f := files[|files| - 1];
      FilesIn(rel, files[..|files| - 1], path) + (if DirParts(rel(f)) == path then [f] else [])
  }

  lemma {:induction false} EmptyLookup(path: seq<string>)
    ensures Lookup(Empty, path).Some? <==> path == []
    ensures FilesAt(Empty, path) == []
  {
  }

  /** Adding a file creates exactly the directories on its path and lists
      it under its own directory only, after the files already there. */
  lemma {:induction false} InsertLookup(t: Tree, dirs: seq<string>, file: string, path: seq<string>)
    ensures Lookup(Insert(t, dirs, file), path).Some? <==> Lookup(t, path).Some? || path <= dirs
    ensures FilesAt(Insert(t, dirs, file), path) == FilesAt(t, path) + (if path == dirs then [file] else [])
    decreases |dirs|
  {
    if dirs != [] && path != [] && path[0] == dirs[0] {
      var sub := if dirs[0] in t.dirs then t.dirs[dirs[0]] else Empty;
      InsertLookup(sub, dirs[1..], file, path[1..]);
      EmptyLookup(path[1..]);
      assert path <= dirs <==> path[1..] <= dirs[1..];
      assert path == dirs <==> path[1..] == dirs[1..];
    }
  }

  /** Every file of the list appears under the node its directory
      components lead to, in list order, and nowhere else. */
  lemma {:induction false} BuildFilesAt(rel: string -> string, files: seq<string>, path: seq<string>)
    ensures FilesAt(Build(rel, files), path) == FilesIn(rel, files, path)
  {
    if files == [] {
      EmptyLookup(path);
    } else {
      var f := files[|files| - 1];
      BuildFilesAt(rel, files[..|files| - 1], path);
      InsertLookup(Build(rel, files[..|files| - 1]), DirParts(rel(f)), f, path);
    }
  }

  /** The tree holds a directory exactly when it is the root or leads
      towards some file of the list. */
  lemma {:induction false} BuildDirectories(rel: string -> string, files: seq<string>, path: seq<string>)
    ensures Lookup(Build(rel, files), path).Some? <==>
      path == [] || exists i :: 0 <= i < |files| && path <= DirParts(rel(files[i]))
  {
    if files == [] {
      EmptyLookup(path);
    } else {
      var init := files[..|files| - 1];
      var f := files[|files| - 1];
      BuildDirectories(rel, init, path);
      InsertLookup(Build(rel, init), DirParts(rel(f)), f, path);
      if exists i :: 0 <= i < |files| && path <= DirParts(rel(files[i])) {
        var i :| 0 <= i < |files| && path <= DirParts(rel(files[i]));
        if i < |init| { assert init[i] == files[i]; }
      }
      if exists i :: 0 <= i < |init| && path <= DirParts(rel(init[i])) {
        var i :| 0 <= i < |init| && path <= DirParts(rel(init[i]));
        assert files[i] == init[i];
      }
    }
  }

  // ---------------------------------------------------------------------
  // Printing

  function Spaces(level: nat): (r: string)
    ensures |r| == 2 * level && forall i :: 0 <= i < |r| ==> r[i] == ' '
  {
    seq(2 * level, _ => ' ')
  }

  function FileLine(path: string, level: nat): string
  {
    Spaces(level) + "<file path=\"" + Cdata.XmlEscape(path) + "\" />"
  }

  function OpenLine(name: string, level: nat): string
  {
    Spaces(level) + "<directory name=\"" + Cdata.XmlEscape(name) + "\">"
  }

  function CloseLine(level: nat): string
  {
    Spaces(level) + "</directory>"
  }

  /** The lines of the files of one node, in order. */
  function FileLines(files: seq<string>, level: nat): (r: seq<string>)
    ensures |r| == |files|
    ensures forall i :: 0 <= i < |r| ==> r[i] == FileLine(files[i], level)
  {
    if files == [] then []
    else FileLines(files[..|files| - 1], level) + [FileLine(files[|files| - 1], level)]
  }

  /** The listing of a node at a nesting level: its files, then each
      subdirectory in name order as a `<directory>` element around the
      listing of its own node one level deeper. */
  ghost function TreeLines(t: Tree, level: nat): seq<string>
    decreases t, 1, 0
  {
    FileLines(t.files, level) + DirLines(t, SortedOf(t.dirs.Keys), level)
  }

  ghost function DirLines(t: Tree, names: seq<string>, level: nat): seq<string>
    requires forall n :: n in names ==> n in t.dirs
    decreases t, 0, |names|
  {
    if names == [] then []
    else
      var name := names[|names| - 1];
      DirLines(t, names[..|names| - 1], level) + ([OpenLine(name, level)] + TreeLines(t.dirs[name], level + 1) + [CloseLine(level)])
  }

  /** The printer: the listing of a node, computed recursively. */
  method PrintTree(t: Tree, level: nat) returns (out: seq<string>)
    ensures out == TreeLines(t, level)
    decreases t
  {
    out := [];
    for i := 0 to |t.files|
      invariant out == FileLines(t.files[..i], level)
    {
      assert t.files[..i + 1][..i] == t.files[..i];
      out := out + [FileLine(t.files[i], level)];
    }
    assert t.files[..|t.files|] == t.files;
    var names := SortStrings(t.dirs.Keys);
    var head := out;
    for j := 0 to |names|
      invariant out == head + DirLines(t, names[..j], level)
    {
      var inner := PrintTree(t.dirs[names[j]], level + 1);
      var block := [OpenLine(names[j], level)] + inner + [CloseLine(level)];
      DirLinesStep(t, names, j, level);
      AppendAssoc(head, DirLines(t, names[..j], level), block);
      out := out + block;
    }
    assert names[..|names|] == names;
  }

  lemma DirLinesStep(t: Tree, names: seq<string>, j: nat, level: nat)
    requires j < |names| && forall n :: n in names ==> n in t.dirs
    ensures DirLines(t, names[..j + 1], level) ==
      DirLines(t, names[..j], level) + ([OpenLine(names[j], level)] + TreeLines(t.dirs[names[j]], level + 1) + [CloseLine(level)])
  {
    assert names[..j + 1][..j] == names[..j];
  }

  /** Every line of a listing is indented at least as deep as its level. */
  lemma {:induction false} TreeLinesIndented(t: Tree, level: nat)
    ensures forall k :: 0 <= k < |TreeLines(t, level)| ==>
      |TreeLines(t, level)[k]| >= 2 * level && TreeLines(t, level)[k][..2 * level] == Spaces(level)
    decreases t, 1, 0
  {
    DirLinesIndented(t, SortedOf(t.dirs.Keys), level);
  }

  lemma {:induction false} DirLinesIndented(t: Tree, names: seq<string>, level: nat)
    requires forall n :: n in names ==> n in t.dirs
    ensures forall k :: 0 <= k < |DirLines(t, names, level)| ==>
      |DirLines(t, names, level)[k]| >= 2 * level && DirLines(t, names, level)[k][..2 * level] == Spaces(level)
    decreases t, 0, |names|
  {
    if names != [] {
      var name := names[|names| - 1];
      DirLinesIndented(t, names[..|names| - 1], level);
      TreeLinesIndented(t.dirs[name], level + 1);
    }
  }
}
