/*
 * The blog handlers of the website: the title of a post is its first
 * "# " heading, the slug in a post's address is derived from that title,
 * a request is checked for a safe post id before any file is touched, and
 * a request with an out-of-date slug is sent to the right address. The
 * data directory is a map from relative paths to file contents and the
 * Markdown renderer is a parameter.
 */
module Blog {
  import opened Text

  const HeadingMark := "# "
  const Untitled := "Untitled Blog Post"

  // ---------------------------------------------------------------------
  // Titles

  /** The first line that starts with "# ". */
  function FirstHeading(lines: seq<string>): (r: Option<string>)
    ensures r.None? <==> forall i :: 0 <= i < |lines| ==> !StartsWith(lines[i], HeadingMark)
    ensures r.Some? ==> exists k :: 0 <= k < |lines| && lines[k] == r.value && StartsWith(lines[k], HeadingMark)
                                    && forall j :: 0 <= j < k ==> !StartsWith(lines[j], HeadingMark)
  {
    if lines == [] then None
    else if StartsWith(lines[0], HeadingMark) then Some(lines[0])
    else
      var r := FirstHeading(lines[1..]);
      if r.Some? then
        var k :| 0 <= k < |lines[1..]| && lines[1..][k] == r.value && StartsWith(lines[1..][k], HeadingMark)
                 && forall j :: 0 <= j < k ==> !StartsWith(lines[1..][j], HeadingMark);
        assert lines[k + 1] == r.value;
        assert forall j :: 0 <= j < k + 1 ==> !StartsWith(lines[j], HeadingMark) by {
          forall j | 0 < j < k + 1 ensures !StartsWith(lines[j], HeadingMark) {
            assert lines[j] == lines[1..][j - 1];
          }
        }
        r
      else
        assert forall j :: 0 < j < |lines| ==> lines[j] == lines[1..][j - 1];
        r
  }

  /** What a heading line says: the line without its leading "# "
      marks, trimmed. */
  function HeadingText(line: string): string
  {
    Trim(Rust, TrimStartMatches(line, HeadingMark))
  }

  /** The text of the first heading of `lines`, empty without one. */
  function HeadingTitle(lines: seq<string>): (r: string)
    ensures Trimmed(Rust, r)
    ensures FirstHeading(lines).None? ==> r == []
  {
    match FirstHeading(lines)
    case Some(line) => HeadingText(line)
    case None => ""
  }

  /** The title of a post: the text of its first "# " heading, or a
      fixed title when there is no heading or it says nothing. */
  function Title(content: string): (r: string)
    ensures r != [] && Trimmed(Rust, r)
  {
    UntitledTrimmed();
    var text := HeadingTitle(RustLines(content));
    if text == [] then Untitled else text
  }

  lemma UntitledTrimmed()
    ensures Untitled != [] && Trimmed(Rust, Untitled)
  {
    assert Untitled[0] == 'U' && Untitled[|Untitled| - 1] == 't';
  }

  /** The title extraction as the handler runs it: the first heading
      line ends the search. */
  method ExtractTitle(content: string) returns (title: string)
    ensures title == Title(content)
  {
    var lines := RustLines(content);
    title := "";
    var i := 0;
    while i < |lines|
      invariant 0 <= i <= |lines|
      invariant FirstHeading(lines[i..]) == FirstHeading(lines)
      invariant title == ""
    {
      assert lines[i..][1..] == lines[i + 1..];
      if StartsWith(lines[i], HeadingMark) {
        title := HeadingText(lines[i]);
        break;
      }
      i := i + 1;
    }
    if title == [] {
      title := Untitled;
    }
  }

  /** A post whose first line is a "# " heading is titled by that
      heading. */
  lemma LeadingHeading(text: string, rest: string)
    requires text != [] && Trimmed(Rust, text) && '\n' !in text
    requires !StartsWith(text, HeadingMark)
    ensures Title(HeadingMark + text + "\n" + rest) == text
  {
    var line := HeadingMark + text;
    RustLinesCons(line, rest);
    assert line[|line| - 1] == text[|text| - 1];
    assert DropCr(line) == line;
    assert StartsWith(line, HeadingMark) by {
      assert line[..2] == HeadingMark;
    }
    assert TrimStartMatches(line, HeadingMark) == text by {
      assert line[|HeadingMark|..] == text;
    }
    TrimUnchanged(Rust, text);
  }

  /** A "##" line is a lower-level heading, never the title: the title is
      decided by the lines after it. */
  lemma SubheadingSkipped(line: string, rest: string)
    requires StartsWith(line, "##") && '\n' !in line
    ensures Title(line + "\n" + rest) == Title(rest)
  {
    var kept := DropCr(line);
    assert RustLines(line + "\n" + rest) == [kept] + RustLines(rest) by {
      RustLinesCons(line, rest);
    }
    assert !StartsWith(kept, HeadingMark) by {
      assert line[..2][1] == line[1] == '#';
      assert line[|line| - 1..] == [line[|line| - 1]];
      assert |kept| >= 2 && kept[1] == line[1];
      assert kept[..2][1] == '#' != HeadingMark[1];
    }
    assert ([kept] + RustLines(rest))[1..] == RustLines(rest);
  }

  /** A post without a "# " heading gets the fixed title. */
  lemma NoHeadingUntitled(content: string)
    requires forall i :: 0 <= i < |RustLines(content)| ==> !StartsWith(RustLines(content)[i], HeadingMark)
    ensures Title(content) == Untitled
  {
  }

  // ---------------------------------------------------------------------
  // Slugs

  /** Every space turned into a dash. */
  function DashSpaces(s: string): (r: string)
    ensures |r| == |s|
    ensures forall i :: 0 <= i < |s| ==> r[i] == (if s[i] == ' ' then '-' else s[i])
  {
    seq(|s|, i requires 0 <= i < |s| => if s[i] == ' ' then '-' else s[i])
  }

  /** What the slug filter keeps. */
  predicate Sluggable(c: char)
  {
    AsciiAlnum(c) || c == '-'
  }

  /** The characters a slug is made of. */
  predicate SlugChar(c: char)
  {
    AsciiLower(c) || AsciiDigit(c) || c == '-'
  }

  /** The slug of a title: lower-cased, spaces as dashes, and everything
      but letters, digits and dashes dropped. */
  function Slug(title: string): (r: string)
    ensures |r| <= |title|
    ensures forall i :: 0 <= i < |r| ==> SlugChar(r[i])
  {
    var s := DashSpaces(ToLower(title));
    var r := Filter(s, Sluggable);
    FilterFrom(s, Sluggable);
    assert forall i :: 0 <= i < |r| ==> SlugChar(r[i]) by {
      forall i | 0 <= i < |r| ensures SlugChar(r[i]) {
        var j :| 0 <= j < |s| && s[j] == r[i];
        assert !AsciiUpper(ToLower(title)[j]);
      }
    }
    r
  }

  /** The slug is built character by character. */
  lemma SlugAppend(a: string, b: string)
    ensures Slug(a + b) == Slug(a) + Slug(b)
  {
    assert DashSpaces(ToLower(a + b)) == DashSpaces(ToLower(a)) + DashSpaces(ToLower(b));
    FilterAppend(DashSpaces(ToLower(a)), DashSpaces(ToLower(b)), Sluggable);
  }

  /** Each space between two words becomes a dash. */
  lemma SlugWords(a: string, b: string)
    ensures Slug(a + " " + b) == Slug(a) + "-" + Slug(b)
  {
    SlugAppend(a + " ", b);
    SlugAppend(a, " ");
    assert DashSpaces(ToLower(" ")) == "-";
  }

  /** A slug is its own slug. */
  lemma SlugFixpoint(s: string)
    requires forall i :: 0 <= i < |s| ==> SlugChar(s[i])
    ensures Slug(s) == s
  {
    assert DashSpaces(ToLower(s)) == s;
    FilterAllKept(s, Sluggable);
  }

  /** Taking the slug twice changes nothing. */
  lemma SlugIdempotent(title: string)
    ensures Slug(Slug(title)) == Slug(title)
  {
    SlugFixpoint(Slug(title));
  }

  // ---------------------------------------------------------------------
  // Requests

  datatype Response =
    | BadRequest(message: string)
    | NotFound(message: string)
    | Redirect(location: string)
    | Page(title: string, html: string)

  const InvalidId := "Invalid blog post ID"

  /** The post id check: letters and digits only. */
  predicate ValidPostId(postId: string)
  {
    forall i :: 0 <= i < |postId| ==> AsciiAlnum(postId[i])
  }

  function PostPath(postId: string): string
  {
    "blogs/" + postId + ".md"
  }

  function CachePath(postId: string): string
  {
    "cache/" + postId + ".html"
  }

  function PostUrl(postId: string, slug: string): string
  {
    "/blog/" + postId + "/" + slug
  }

  /** One request for `/blog/<postId>/<slug>`: a bad id is refused, a
      missing file is not found, a wrong slug is redirected to the right
      one, and otherwise the page shows the cached HTML or the rendered
      Markdown. */
  function BlogPost(postId: string, slug: string, files: map<string, string>, render: string -> string): (r: Response)
    ensures r.BadRequest? <==> !ValidPostId(postId)
    ensures r.NotFound? <==> ValidPostId(postId) && PostPath(postId) !in files
    ensures r.Redirect? ==> r.location == PostUrl(postId, Slug(Title(files[PostPath(postId)])))
    ensures r.Page? ==> slug == Slug(Title(files[PostPath(postId)])) && r.title == Title(files[PostPath(postId)])
  {
    if !ValidPostId(postId) then BadRequest(InvalidId)
    else if PostPath(postId) !in files then NotFound("Blog post not found: " + PostPath(postId))
    else
      var content := files[PostPath(postId)];
      var title := Title(content);
      var correctSlug := Slug(title);
      if slug != correctSlug then Redirect(PostUrl(postId, correctSlug))
      else
        var html := if CachePath(postId) in files then files[CachePath(postId)] else render(content);
        Page(title, html)
  }

  /** An id with anything but letters and digits is refused whatever
      the data directory holds. */
  lemma InvalidIdRefused(postId: string, slug: string, files: map<string, string>, other: map<string, string>,
                         render: string -> string)
    requires !ValidPostId(postId)
    ensures BlogPost(postId, slug, files, render) == BlogPost(postId, slug, other, render) == BadRequest(InvalidId)
  {
  }

  /** An accepted id has no path separator and no dot, so the post path
      names a file directly inside the blog directory. */
  lemma ValidIdStaysInside(postId: string)
    requires ValidPostId(postId)
    ensures forall i :: 0 <= i < |postId| ==> postId[i] != '/' && postId[i] != '\\' && postId[i] != '.'
  {
  }

  /** Following a redirect gives the page. */
  lemma RedirectSettles(postId: string, slug: string, files: map<string, string>, render: string -> string)
    requires BlogPost(postId, slug, files, render).Redirect?
    ensures exists s :: BlogPost(postId, slug, files, render).location == PostUrl(postId, s)
                        && BlogPost(postId, s, files, render).Page?
  {
    var s := Slug(Title(files[PostPath(postId)]));
    assert BlogPost(postId, s, files, render).Page?;
  }

  /** Any slug leads to the page in at most one redirect. */
  lemma AtMostOneRedirect(postId: string, slug: string, files: map<string, string>, render: string -> string)
    requires ValidPostId(postId) && PostPath(postId) in files
    ensures BlogPost(postId, slug, files, render).Page?
         || BlogPost(postId, Slug(Title(files[PostPath(postId)])), files, render).Page?
  {
  }

  // ---------------------------------------------------------------------
  // The post list

  datatype DirEntry = DirEntry(name: string, isFile: bool)

  datatype Listed = Listed(id: string, title: string, url: string)

  /** The extension of a file name and its stem: what follows and what
      precedes the last dot, when that dot is not the first character. */
  function SplitExtension(name: string): (r: Option<(string, string)>)
    ensures r.Some? ==> name == r.value.0 + "." + r.value.1 && r.value.0 != [] && '.' !in r.value.1
  {
    match RFind(name, ".")
    case None => None
    case Some(k) =>
      if k == 0 then None
      else
        var stem := name[..k];
        var ext := name[k + 1..];
        assert name == stem + "." + ext;
        assert '.' !in ext by {
          forall j | 0 <= j < |ext| ensures ext[j] != '.' {
            assert !OccursAt(name, ".", k + 1 + j);
            assert name[k + 1 + j..k + 2 + j] == [ext[j]];
          }
        }
        Some((stem, ext))
  }

  /** The address the list gives a post: spaces as dashes, lower-cased,
      but nothing dropped. */
  function ListSlug(title: string): string
  {
    ToLower(DashSpaces(title))
  }

  function ListEntry(entry: DirEntry, files: map<string, string>): (r: Option<Listed>)
    ensures r.Some? ==> r.value.url == PostUrl(r.value.id, ListSlug(r.value.title))
    ensures r.Some? ==> entry.name == r.value.id + ".md"
  {
    if !entry.isFile then None
    else match SplitExtension(entry.name)
      case Some((stem, "md")) =>
        var path := "blogs/" + entry.name;
        var content := if path in files then files[path] else "";
        var title := Title(content);
        Some(Listed(stem, title, PostUrl(stem, ListSlug(title))))
      case _ => None
  }

  /** All Markdown files of the blog directory, in directory order. */
  method ListBlogPosts(entries: seq<DirEntry>, files: map<string, string>) returns (posts: seq<Listed>)
    ensures posts == ListedPosts(entries, files)
  {
    posts := [];
    for i := 0 to |entries|
      invariant posts == ListedPosts(entries[..i], files)
    {
      var post := ListEntry(entries[i], files);
      ListedStep(entries, i, files);
      if post.Some? {
        posts := posts + [post.value];
      }
    }
    assert entries[..|entries|] == entries;
  }

  lemma ListedStep(entries: seq<DirEntry>, i: nat, files: map<string, string>)
    requires i < |entries|
    ensures var post := ListEntry(entries[i], files);
            ListedPosts(entries[..i + 1], files) == ListedPosts(entries[..i], files) + (if post.Some? then [post.value] else [])
  {
    assert entries[..i + 1][..i] == entries[..i];
  }

  function ListedPosts(entries: seq<DirEntry>, files: map<string, string>): (r: seq<Listed>)
    ensures |r| <= |entries|
  {
    if entries == [] then []
    else
      var last := ListEntry(entries[|entries| - 1], files);
      ListedPosts(entries[..|entries| - 1], files) + (if last.Some? then [last.value] else [])
  }

  /** The list links a Markdown file whose name is not letters and
      digits, and the post handler refuses that link. */
  lemma ListedButRefused(files: map<string, string>, slug: string, render: string -> string)
    ensures ListEntry(DirEntry("my-post.md", true), files).Some?
    ensures ListEntry(DirEntry("my-post.md", true), files).value.id == "my-post"
    ensures BlogPost("my-post", slug, files, render) == BadRequest(InvalidId)
  {
    var name := "my-post.md";
    assert OccursAt(name, ".", 7);
    forall j | 7 < j
      ensures !OccursAt(name, ".", j)
    {
      if j + 1 <= |name| {
        assert name[j..j + 1] == [name[j]];
      }
    }
    assert RFind(name, ".") == Some(7);
    assert name[..7] == "my-post" && name[8..] == "md";
    assert !AsciiAlnum("my-post"[2]);
  }

  /** The list restricted to the posts the post handler serves. */
  function ServableEntry(entry: DirEntry, files: map<string, string>): (r: Option<Listed>)
    ensures r.Some? ==> ValidPostId(r.value.id) && r == ListEntry(entry, files)
    ensures ListEntry(entry, files).Some? && ValidPostId(ListEntry(entry, files).value.id) ==> r.Some?
  {
    var listed := ListEntry(entry, files);
    if listed.Some? && ValidPostId(listed.value.id) then listed else None
  }

  /** The link of a servable post shows it, at most one redirect away,
      when its file is there. */
  lemma ServableLinkWorks(entry: DirEntry, files: map<string, string>, render: string -> string)
    requires "blogs/" + entry.name in files
    requires ServableEntry(entry, files).Some?
    ensures var post := ServableEntry(entry, files).value;
            post.url == PostUrl(post.id, ListSlug(post.title))
            && (BlogPost(post.id, ListSlug(post.title), files, render).Page?
                || BlogPost(post.id, Slug(post.title), files, render).Page?)
  {
    var post := ServableEntry(entry, files).value;
    assert PostPath(post.id) == "blogs/" + entry.name by {
      AppendAssoc("blogs/", post.id, ".md");
    }
    ListedTitle(entry, files);
    AtMostOneRedirect(post.id, ListSlug(post.title), files, render);
  }

  /** A listed post's title is the title of its file. */
  lemma ListedTitle(entry: DirEntry, files: map<string, string>)
    requires "blogs/" + entry.name in files && ListEntry(entry, files).Some?
    ensures ListEntry(entry, files).value.title == Title(files["blogs/" + entry.name])
  {
  }
}
