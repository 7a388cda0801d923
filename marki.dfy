/*
 * The Markdown-to-Anki converter's driver: which files of the input are
 * collected, which deck each card goes to (the input directory's name,
 * then one `::` level per sub-directory), how the cards are grouped into
 * decks and how the media files are sorted and de-duplicated before the
 * package is written.
 * Paths are lists of components, as Rust's `Path::components` yields
 * them; the directory walk, the card parser and the media extraction are
 * given as inputs.
 */
module Marki {
  import opened Text

  /** A path component's name: `Path::components` never yields an empty one. */
  type Name = s: string | s != [] witness "a"

  /** One component of a path. */
  datatype Component = RootDir | CurDir | ParentDir | Normal(name: Name)

  type Path = seq<Component>

  const DefaultDeck := "default"
  const DeckSep := "::"

  // ---------------------------------------------------------------------
  // Paths

  /** `Path::file_name`: the last component when it is a normal name. */
  function FileName(p: Path): (r: Option<string>)
    ensures r.Some? <==> p != [] && p[|p| - 1].Normal?
  {
    if p != [] && p[|p| - 1].Normal? then Some(p[|p| - 1].name) else None
  }

  /** `Path::parent`: the path without its last component; none for the empty path and for a root. */
  function Parent(p: Path): (r: Option<Path>)
    ensures r.Some? <==> p != [] && p[|p| - 1] != RootDir
    ensures r.Some? ==> r.value + [p[|p| - 1]] == p
  {
    if p == [] || p[|p| - 1] == RootDir then None else Some(p[..|p| - 1])
  }

  /** `Path::strip_prefix`: the rest of `p` when `base`'s components begin it. */
  function StripPrefix(p: Path, base: Path): (r: Option<Path>)
    ensures r.Some? <==> |base| <= |p| && p[..|base|] == base
    ensures r.Some? ==> base + r.value == p
  {
    if |base| <= |p| && p[..|base|] == base then Some(p[|base|..]) else None
  }

  /** The names of the normal components, in order; the others are dropped. */
  function NormalNames(p: Path): (r: seq<Name>)
    ensures |r| <= |p|
  {
    if p == [] then []
    else NormalNames(p[..|p| - 1]) + (if p[|p| - 1].Normal? then [p[|p| - 1].name] else [])
  }

  /** `Path::extension`: what follows the last dot of the file name, unless the only dot begins it. */
  function Extension(p: Path): (r: Option<string>)
    ensures r.Some? ==> FileName(p).Some? && EndsWith(FileName(p).value, "." + r.value)
  {
    match FileName(p)
    case None => None
    case Some(name) =>
      match RFind(name, ".")
      case None => None
      case Some(k) =>
        if k == 0 then None
        else
          assert name[|name| - |"." + name[k + 1..]|..] == "." + name[k + 1..] by {
            assert name[k..k + 1] == ".";
          }
          Some(name[k + 1..])
  }

  // ---------------------------------------------------------------------
  // Deck names

  /** The input's own name, or "default". */
  function BaseName(input: Path): (r: string)
    ensures r != []
  {
    match FileName(input)
    case Some(n) => n
    case None => DefaultDeck
  }

  /** The directory names between the input directory and the file. */
  function SubDirs(input: Path, file: Path): seq<Name>
  {
    match StripPrefix(file, input)
    case None => []
    case Some(rel) =>
      match Parent(rel)
      case None => []
      case Some(dirs) => NormalNames(dirs)
  }

  /** `deck_name_from_dir`: the deck a card read from `file` goes to. */
  function DeckName(inputIsFile: bool, input: Path, file: Path): (r: string)
    ensures r != []
  {
    if inputIsFile then
      match Parent(file)
      case None => DefaultDeck
      case Some(dir) => BaseName(dir)
    else
      var subdirs := SubDirs(input, file);
      if subdirs == [] then BaseName(input) else BaseName(input) + DeckSep + Join(subdirs, DeckSep)
  }

  /** A file's deck when the input is that file: the name of the directory holding it. */
  lemma FileInputDeck(input: Path, dirs: Path, d: Name, f: Name)
    ensures DeckName(true, input, dirs + [Normal(d), Normal(f)]) == d
  {
    assert (dirs + [Normal(d), Normal(f)])[..|dirs| + 1] == dirs + [Normal(d)];
  }

  /** A bare file name has the empty path as parent, which has no name: the deck is "default". */
  lemma BareFileInputDeck(input: Path, f: Name)
    ensures DeckName(true, input, [Normal(f)]) == DefaultDeck
  {
  }

  /** The deck of a file below the input directory, with `mid` the components in between. */
  lemma {:induction false} DeckInDirectory(input: Path, mid: Path, last: Component)
    requires last.Normal?
    ensures DeckName(false, input, input + mid + [last])
      == if NormalNames(mid) == [] then BaseName(input)
         else BaseName(input) + DeckSep + Join(NormalNames(mid), DeckSep)
  {
    var file := input + mid + [last];
    assert file[..|input|] == input;
    assert file[|input|..] == mid + [last];
    assert (mid + [last])[..|mid|] == mid;
  }

  /** A file directly inside the input directory goes to the deck named after the directory. */
  lemma DirectChildDeck(input: Path, f: Name)
    ensures DeckName(false, input, input + [Normal(f)]) == BaseName(input)
  {
    DeckInDirectory(input, [], Normal(f));
    assert input + [] + [Normal(f)] == input + [Normal(f)];
  }

  /** Directory names as path components. */
  function Normals(dirs: seq<Name>): (p: Path)
    ensures |p| == |dirs|
    ensures forall i :: 0 <= i < |p| ==> p[i] == Normal(dirs[i])
  {
    seq(|dirs|, i requires 0 <= i < |dirs| => Normal(dirs[i]))
  }

  lemma {:induction false} NormalNamesOfNormals(dirs: seq<Name>)
    ensures NormalNames(Normals(dirs)) == dirs
  {
    if dirs != [] {
      var n := |dirs| - 1;
      assert Normals(dirs)[..n] == Normals(dirs[..n]);
      NormalNamesOfNormals(dirs[..n]);
      assert dirs == dirs[..n] + [dirs[n]];
    }
  }

  /** A nested file goes to `base::d1::d2...`, one level per directory in path order. */
  lemma NestedDeck(input: Path, dirs: seq<Name>, f: Name)
    requires dirs != []
    ensures DeckName(false, input, input + Normals(dirs) + [Normal(f)])
      == BaseName(input) + DeckSep + Join(dirs, DeckSep)
  {
    DeckInDirectory(input, Normals(dirs), Normal(f));
    NormalNamesOfNormals(dirs);
  }

  /** Components that are not names, such as `.`, add no deck level. */
  lemma {:induction false} NonNormalDropped(p: Path, c: Component)
    requires !c.Normal?
    ensures NormalNames(p + [c]) == NormalNames(p)
  {
    assert (p + [c])[..|p|] == p;
  }

  /** A file outside the input directory gets the directory's own name. */
  lemma OutsideInputDeck(input: Path, file: Path)
    requires !(|input| <= |file| && file[..|input|] == input)
    ensures DeckName(false, input, file) == BaseName(input)
  {
  }

  // ---------------------------------------------------------------------
  // Collecting the Markdown files

  /** One entry of the directory walk: its path, its depth below the root and whether it is a regular file. */
  datatype WalkEntry = WalkEntry(path: Path, depth: nat, isFile: bool)

  /** The walk reaches only depth 1 without `recursive`. */
  function MaxDepth(recursive: bool): Option<nat>
  {
    if recursive then None else Some(1)
  }

  /** An entry `find_markdown_files` keeps: a regular file within the depth limit with extension md or markdown. */
  predicate Wanted(e: WalkEntry, recursive: bool)
  {
    e.isFile
    && (recursive || e.depth <= 1)
    && (Extension(e.path) == Some("md") || Extension(e.path) == Some("markdown"))
  }

  /** `find_markdown_files`: the wanted entries of the walk, in walk order. */
  function FindMarkdownFiles(walk: seq<WalkEntry>, recursive: bool): (r: seq<Path>)
    ensures |r| <= |walk|
    ensures forall p :: p in r <==> exists i :: 0 <= i < |walk| && Wanted(walk[i], recursive) && walk[i].path == p
  {
    if walk == [] then []
    else
      var rest := FindMarkdownFiles(walk[..|walk| - 1], recursive);
      var e := walk[|walk| - 1];
      assert forall i :: 0 <= i < |walk| - 1 ==> walk[..|walk| - 1][i] == walk[i];
      rest + (if Wanted(e, recursive) then [e.path] else [])
  }

  /** `notes.md` has the extension `md`. */
  lemma MarkdownExtension(dirs: Path)
    ensures Extension(dirs + [Normal("notes.md")]) == Some("md")
  {
    var name := "notes.md";
    assert OccursAt(name, ".", 5);
    forall j | 5 < j ensures !OccursAt(name, ".", j) {
      if j + 1 <= |name| { assert name[j..j + 1][0] == name[j]; }
    }
    assert name[6..] == "md";
  }

  /** A hidden file named `.md` has no extension, so it is never collected. */
  lemma HiddenMdHasNoExtension(dirs: Path)
    ensures Extension(dirs + [Normal(".md")]) == None
  {
    var name := ".md";
    assert OccursAt(name, ".", 0);
    forall j | 0 < j ensures !OccursAt(name, ".", j) {
      if j + 1 <= |name| { assert name[j..j + 1][0] == name[j]; }
    }
  }

  /** Whether the input path names a file, a directory or nothing. */
  datatype InputKind = IsFile | IsDir | Missing

  /** The files a run converts, or why it stops before reading any. */
  function InputFiles(kind: InputKind, input: Path, walk: seq<WalkEntry>, recursive: bool): (r: Result<seq<Path>, string>)
    ensures r.Ok? ==> r.value != []
    ensures kind == IsFile ==> r == Ok([input])
    ensures kind == Missing ==> r == Err("Input path does not exist")
    ensures kind == IsDir ==> (r.Ok? <==> FindMarkdownFiles(walk, recursive) != [])
  {
    match kind
    case IsFile => Ok([input])
    case Missing => Err("Input path does not exist")
    case IsDir =>
      var files := FindMarkdownFiles(walk, recursive);
      if files == [] then Err("No markdown files found") else Ok(files)
  }

  // ---------------------------------------------------------------------
  // Cards, decks and media

  /** A parsed card: its text, the file it came from and its deck. */
  datatype Card = Card(front: string, back: string, filePath: Option<Path>, deckName: string)

  /**
   * The cards of the files in order, each tagged with its file and the
   * deck `deckOf` names for it; none when a file cannot be read.
   */
  function Cards(files: seq<Path>, parse: Path -> Option<Card>, deckOf: Path -> string): (r: Option<seq<Card>>)
    ensures r.Some? ==> |r.value| == |files|
  {
    if files == [] then Some([])
    else
      var n := |files| - 1;
      match Cards(files[..n], parse, deckOf)
      case None => None
      case Some(cards) =>
        match parse(files[n])
        case None => None
        case Some(card) => Some(cards + [Tagged(card, files[n], deckOf(files[n]))])
  }

  /** The parsed card with its file path and deck name set. */
  function Tagged(card: Card, file: Path, deck: string): (c: Card)
    ensures c.filePath == Some(file) && c.deckName == deck
    ensures c.front == card.front && c.back == card.back
  {
    card.(filePath := Some(file), deckName := deck)
  }

  /** Card i comes from file i, carries that file's deck name and keeps what the parser read. */
  lemma {:induction false} CardsTagged(files: seq<Path>, parse: Path -> Option<Card>, deckOf: Path -> string)
    requires Cards(files, parse, deckOf).Some?
    ensures forall i :: 0 <= i < |files| ==>
      parse(files[i]).Some? && Cards(files, parse, deckOf).value[i] == Tagged(parse(files[i]).value, files[i], deckOf(files[i]))
  {
    if files != [] {
      var n := |files| - 1;
      CardsTagged(files[..n], parse, deckOf);
      assert forall i :: 0 <= i < n ==> files[..n][i] == files[i];
    }
  }

  /** Cards are missing exactly when some file cannot be read. */
  lemma {:induction false} CardsFail(files: seq<Path>, parse: Path -> Option<Card>, deckOf: Path -> string)
    ensures Cards(files, parse, deckOf).None? <==> exists i :: 0 <= i < |files| && parse(files[i]).None?
  {
    if files != [] {
      var n := |files| - 1;
      CardsFail(files[..n], parse, deckOf);
      assert forall i :: 0 <= i < n ==> files[..n][i] == files[i];
    }
  }

  /** The deck names of one run. */
  function DeckOf(inputIsFile: bool, input: Path): Path -> string
  {
    file => DeckName(inputIsFile, input, file)
  }

  /** The media files named by the cards of the files, in file order, before sorting. */
  function AllMedia(files: seq<Path>, mediaOf: Path -> seq<Path>): (r: seq<Path>)
    ensures forall m :: m in r <==> exists i :: 0 <= i < |files| && m in mediaOf(files[i])
  {
    if files == [] then []
    else
      var n := |files| - 1;
      assert forall i :: 0 <= i < n ==> files[..n][i] == files[i];
      AllMedia(files[..n], mediaOf) + mediaOf(files[n])
  }

  /** The cards of one deck, in their original order. */
  function InDeck(cards: seq<Card>, deck: string): (r: seq<Card>)
    ensures forall c :: c in r <==> c in cards && c.deckName == deck
  {
    if cards == [] then []
    else
      var n := |cards| - 1;
      InDeck(cards[..n], deck) + (if cards[n].deckName == deck then [cards[n]] else [])
  }

  /** `decks.entry(name).or_default().push(card)`. */
  function AddToDeck(decks: map<string, seq<Card>>, card: Card): map<string, seq<Card>>
  {
    decks[card.deckName := (if card.deckName in decks then decks[card.deckName] else []) + [card]]
  }

  /** The deck map after the cards of a prefix: each name present maps to its cards. */
  ghost predicate GroupedUpTo(decks: map<string, seq<Card>>, cards: seq<Card>)
  {
    (forall d :: d in decks <==> InDeck(cards, d) != [])
    && (forall d :: d in decks ==> decks[d] == InDeck(cards, d))
  }

  lemma GroupStep(decks: map<string, seq<Card>>, cards: seq<Card>, card: Card)
    requires GroupedUpTo(decks, cards)
    ensures GroupedUpTo(AddToDeck(decks, card), cards + [card])
  {
    var next := cards + [card];
    assert next[..|cards|] == cards;
    forall d ensures InDeck(next, d) == InDeck(cards, d) + (if card.deckName == d then [card] else []) {
    }
  }

  /** Grouping the cards by deck name; each deck keeps its cards in order. */
  method GroupDecks(cards: seq<Card>) returns (decks: map<string, seq<Card>>)
    ensures forall d :: d in decks <==> exists i :: 0 <= i < |cards| && cards[i].deckName == d
    ensures forall d :: d in decks ==> decks[d] == InDeck(cards, d)
  {
    decks := map[];
    for i := 0 to |cards|
      invariant GroupedUpTo(decks, cards[..i])
    {
      GroupStep(decks, cards[..i], cards[i]);
      assert cards[..i] + [cards[i]] == cards[..i + 1];
      decks := AddToDeck(decks, cards[i]);
    }
    assert cards[..|cards|] == cards;
    forall d ensures d in decks <==> exists i :: 0 <= i < |cards| && cards[i].deckName == d {
      if d in decks {
        assert InDeck(cards, d)[0] in InDeck(cards, d);
        var c :| c in InDeck(cards, d);
        var i :| 0 <= i < |cards| && cards[i] == c;
      } else {
        forall i | 0 <= i < |cards| ensures cards[i].deckName != d {
          var c := cards[i];
          assert c in cards;
        }
      }
    }
  }

  /** Every card lands in the deck it names, and every deck holds only cards naming it. */
  lemma DeckMembership(cards: seq<Card>, decks: map<string, seq<Card>>)
    requires forall d :: d in decks <==> exists i :: 0 <= i < |cards| && cards[i].deckName == d
    requires forall d :: d in decks ==> decks[d] == InDeck(cards, d)
    ensures forall i :: 0 <= i < |cards| ==> cards[i].deckName in decks && cards[i] in decks[cards[i].deckName]
    ensures forall d, c :: d in decks && c in decks[d] ==> c.deckName == d && c in cards
  {
    forall i | 0 <= i < |cards| ensures cards[i].deckName in decks && cards[i] in decks[cards[i].deckName] {
      var d := cards[i].deckName;
      assert d in decks;
      assert cards[i] in cards;
    }
  }

  // The order PathBuf sorts by: component by component, a root before `.`
  // before `..` before any name, names by their bytes.

  function Rank(c: Component): nat
  {
    match c
    case RootDir => 0
    case CurDir => 1
    case ParentDir => 2
    case Normal(_) => 3
  }

  predicate ComponentLess(a: Component, b: Component)
  {
    if Rank(a) != Rank(b) then Rank(a) < Rank(b)
    else a.Normal? && b.Normal? && Less(a.name, b.name)
  }

  predicate PathLess(p: Path, q: Path)
    decreases |p|
  {
    if p == [] then q != []
    else if q == [] then false
    else if p[0] != q[0] then ComponentLess(p[0], q[0])
    else PathLess(p[1..], q[1..])
  }

  lemma ComponentLessIrreflexive(a: Component)
    ensures !ComponentLess(a, a)
  {
    if a.Normal? { LessIrreflexive(a.name); }
  }

  lemma ComponentLessTransitive(a: Component, b: Component, c: Component)
    requires ComponentLess(a, b) && ComponentLess(b, c)
    ensures ComponentLess(a, c)
  {
    if a.Normal? && b.Normal? && c.Normal? { LessTransitive(a.name, b.name, c.name); }
  }

  lemma ComponentLessTotal(a: Component, b: Component)
    ensures a == b || ComponentLess(a, b) || ComponentLess(b, a)
  {
    if a.Normal? && b.Normal? { LessTotal(a.name, b.name); }
  }

  lemma {:induction false} PathLessIrreflexive(p: Path)
    ensures !PathLess(p, p)
  {
    if p != [] { PathLessIrreflexive(p[1..]); }
  }

  lemma {:induction false} PathLessTransitive(p: Path, q: Path, r: Path)
    requires PathLess(p, q) && PathLess(q, r)
    ensures PathLess(p, r)
    decreases |p|
  {
    if p != [] && q != [] && r != [] {
      if p[0] == q[0] && q[0] == r[0] {
        PathLessTransitive(p[1..], q[1..], r[1..]);
      } else if p[0] != q[0] && q[0] != r[0] {
        ComponentLessTransitive(p[0], q[0], r[0]);
        if p[0] == r[0] { ComponentLessIrreflexive(p[0]); }
      }
    }
  }

  lemma {:induction false} PathLessTotal(p: Path, q: Path)
    ensures p == q || PathLess(p, q) || PathLess(q, p)
    decreases |p|
  {
    if p != [] && q != [] {
      if p[0] == q[0] {
        PathLessTotal(p[1..], q[1..]);
        if p[1..] == q[1..] {
          assert p == [p[0]] + p[1..] && q == [q[0]] + q[1..];
        }
      } else {
        ComponentLessTotal(p[0], q[0]);
      }
    }
  }

  /** Strictly increasing in PathBuf order, hence without duplicates. */
  predicate PathsSorted(s: seq<Path>)
  {
    forall i, j :: 0 <= i < j < |s| ==> PathLess(s[i], s[j])
  }

  /** Insert a path into a sorted list that does not hold it. */
  function InsertPath(s: seq<Path>, x: Path): (r: seq<Path>)
    requires PathsSorted(s) && x !in s
    ensures PathsSorted(r)
    ensures forall y :: y in r <==> y in s || y == x
  {
    if s == [] then [x]
    else if PathLess(x, s[0]) then
      assert forall j :: 0 < j < |s| ==> PathLess(x, s[j]) by {
        forall j | 0 < j < |s| ensures PathLess(x, s[j]) { PathLessTransitive(x, s[0], s[j]); }
      }
      [x] + s
    else
      PathLessTotal(x, s[0]);
      var rest := InsertPath(s[1..], x);
      assert forall y :: y in rest ==> PathLess(s[0], y) by {
        forall y | y in rest ensures PathLess(s[0], y) {
          if y != x {
            var k :| 0 <= k < |s[1..]| && s[1..][k] == y;
            assert s[k + 1] == y;
          }
        }
      }
      assert forall y :: y in s <==> y == s[0] || y in s[1..] by {
        assert s == [s[0]] + s[1..];
      }
      [s[0]] + rest
  }

  /** `all_media_files.sort(); all_media_files.dedup();`: the distinct paths in increasing order. */
  method SortDedup(media: seq<Path>) returns (r: seq<Path>)
    ensures PathsSorted(r)
    ensures forall m :: m in r <==> m in media
  {
    r := [];
    for i := 0 to |media|
      invariant PathsSorted(r)
      invariant forall m :: m in r <==> m in media[..i]
    {
      assert media[..i + 1] == media[..i] + [media[i]];
      if media[i] !in r {
        r := InsertPath(r, media[i]);
      }
    }
    assert media[..|media|] == media;
  }

  /** A sorted list without duplicates is fixed by its members: sorting and de-duplicating gives one answer. */
  lemma {:induction false} PathsSortedUnique(a: seq<Path>, b: seq<Path>)
    requires PathsSorted(a) && PathsSorted(b)
    requires forall x :: x in a <==> x in b
    ensures a == b
    decreases |a|
  {
    if a != [] { assert a[0] in b; }
    if b != [] { assert b[0] in a; }
    if a != [] && b != [] {
      assert a[0] == b[0] by {
        var i :| 0 <= i < |a| && a[i] == b[0];
        var j :| 0 <= j < |b| && b[j] == a[0];
        if i > 0 && j > 0 {
          PathLessTransitive(a[0], b[0], a[0]);
          PathLessIrreflexive(a[0]);
        }
      }
      forall x ensures x in a[1..] <==> x in b[1..] {
        if x in a[1..] { PathTailMember(a, b, x); }
        if x in b[1..] { PathTailMember(b, a, x); }
      }
      PathsSortedUnique(a[1..], b[1..]);
      assert a == [a[0]] + a[1..] && b == [b[0]] + b[1..];
    }
  }

  lemma PathTailMember(a: seq<Path>, b: seq<Path>, x: Path)
    requires PathsSorted(a) && PathsSorted(b)
    requires forall y :: y in a <==> y in b
    requires a != [] && b != [] && a[0] == b[0] && x in a[1..]
    ensures x in b[1..]
  {
    var k :| 0 <= k < |a[1..]| && a[1..][k] == x;
    assert PathLess(a[0], a[k + 1]);
    PathLessIrreflexive(x);
    assert x in a && x in b;
    var m :| 0 <= m < |b| && b[m] == x;
    assert b[1..][m - 1] == x;
  }

  /** What the converter hands to the package writer. */
  datatype Package = Package(decks: map<string, seq<Card>>, media: seq<Path>)

  /** The package built from the cards and media: decks grouped by name, media sorted without repeats. */
  ghost predicate PackageOf(p: Package, cards: seq<Card>, media: seq<Path>)
  {
    (forall d :: d in p.decks <==> exists i :: 0 <= i < |cards| && cards[i].deckName == d)
    && (forall d :: d in p.decks ==> p.decks[d] == InDeck(cards, d))
    && PathsSorted(p.media)
    && (forall m :: m in p.media <==> m in media)
  }

  /** The reading loop: one card and its media per file; a file that cannot be read stops it. */
  method ReadCards(files: seq<Path>, parse: Path -> Option<Card>, deckOf: Path -> string, mediaOf: Path -> seq<Path>)
    returns (r: Option<(seq<Card>, seq<Path>)>)
    ensures r.None? <==> Cards(files, parse, deckOf).None?
    ensures r.Some? ==> r.value.0 == Cards(files, parse, deckOf).value && r.value.1 == AllMedia(files, mediaOf)
  {
    var cards: seq<Card> := [];
    var media: seq<Path> := [];
    for i := 0 to |files|
      invariant Cards(files[..i], parse, deckOf) == Some(cards)
      invariant media == AllMedia(files[..i], mediaOf)
    {
      var file := files[i];
      assert files[..i + 1][..i] == files[..i];
      match parse(file)
      case None =>
        CardsFailAfter(files[..i + 1], parse, deckOf, i);
        CardsPrefixFail(files, parse, deckOf, i + 1);
        return None;
      case Some(card) =>
        cards := cards + [Tagged(card, file, deckOf(file))];
        media := media + mediaOf(file);
    }
    assert files[..|files|] == files;
    return Some((cards, media));
  }

  /**
   * The converter's run: choose the files, read and parse each (a file
   * that cannot be read stops the run), name its deck, collect its media,
   * then group the cards by deck and sort and de-duplicate the media.
   */
  method Convert(kind: InputKind, input: Path, walk: seq<WalkEntry>, recursive: bool,
                 parse: Path -> Option<Card>, mediaOf: Path -> seq<Path>)
    returns (r: Result<Package, string>)
    ensures r.Ok? <==> InputFiles(kind, input, walk, recursive).Ok?
                       && Cards(InputFiles(kind, input, walk, recursive).value, parse, DeckOf(kind == IsFile, input)).Some?
    ensures r.Ok? ==>
      var files := InputFiles(kind, input, walk, recursive).value;
      PackageOf(r.value, Cards(files, parse, DeckOf(kind == IsFile, input)).value, AllMedia(files, mediaOf))
  {
    var chosen := InputFiles(kind, input, walk, recursive);
    if chosen.Err? {
      return Err(chosen.error);
    }
    var read := ReadCards(chosen.value, parse, DeckOf(kind == IsFile, input), mediaOf);
    if read.None? {
      return Err("Failed to read file");
    }
    var decks := GroupDecks(read.value.0);
    var sorted := SortDedup(read.value.1);
    return Ok(Package(decks, sorted));
  }

  /** Once a file cannot be parsed, the whole list of cards is missing. */
  lemma CardsFailAfter(files: seq<Path>, parse: Path -> Option<Card>, deckOf: Path -> string, i: nat)
    requires i < |files| && parse(files[i]).None?
    ensures Cards(files, parse, deckOf).None?
  {
    CardsFail(files, parse, deckOf);
  }

  /** A missing card in a prefix of the files means missing cards for all of them. */
  lemma {:induction false} CardsPrefixFail(files: seq<Path>, parse: Path -> Option<Card>, deckOf: Path -> string, k: nat)
    requires k <= |files| && Cards(files[..k], parse, deckOf).None?
    ensures Cards(files, parse, deckOf).None?
  {
    CardsFail(files[..k], parse, deckOf);
    var i :| 0 <= i < k && parse(files[..k][i]).None?;
    CardsFailAfter(files, parse, deckOf, i);
  }
}
