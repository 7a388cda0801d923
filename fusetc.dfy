/*
 * The FUSE view of a Trilium note database: every note id is hashed to an
 * inode number, the root directory has fixed attributes, a read returns
 * the note's content from the requested offset on, and a directory
 * listing is ".", "..", an optional hidden content file and one entry per
 * child note, handed to the kernel from a given offset with cookies.
 * The database is given as lists of rows; the kernel's reply buffer is
 * given as the number of entries it accepts.
 */
module FuseTc {
  import opened Text

  /** Unsigned 64-bit words: every u64 value is below Word. */
  const Word: int := 0x1_0000_0000_0000_0000
  /** Half a word: i64 values lie in [-HalfWord, HalfWord). */
  const HalfWord: int := 0x8000_0000_0000_0000

  const RootIno: nat := 1
  /** The error number replied when a note or blob cannot be found. */
  const ENOENT: int := 2

  newtype byte = b: int | 0 <= b < 256

  /** A note id as the bytes of its UTF-8 encoding. */
  type NoteId = seq<byte>

  /** The id of the root note, "root". */
  const RootId: NoteId := [114, 111, 111, 116]

  // ---------------------------------------------------------------------
  // Inode numbers

  /** The polynomial hash h := h * 31 + byte over the id, wrapping at 2^64. */
  function HashFold(id: NoteId): (h: nat)
    ensures h < Word
  {
    if id == [] then 0
    else (HashFold(id[..|id| - 1]) * 31 + id[|id| - 1] as int) % Word
  }

  /** The inode of a note: 1 for the root note, otherwise the hash moved off 0 and 1. */
  function Ino(id: NoteId): (r: nat)
    ensures r < Word
    ensures id == RootId <==> r == RootIno
    ensures id != RootId ==> r >= 2
  {
    if id == RootId then RootIno
    else if HashFold(id) <= 1 then HashFold(id) + 2
    else HashFold(id)
  }

  /** The inode computation with its hashing loop. */
  method NoteIdToIno(id: NoteId) returns (ino: nat)
    ensures ino == Ino(id)
  {
    if id == RootId {
      return RootIno;
    }
    var hash: nat := 0;
    for i := 0 to |id|
      invariant hash == HashFold(id[..i])
    {
      assert id[..i + 1][..i] == id[..i];
      hash := (hash * 31 + id[i] as int) % Word;
    }
    assert id[..|id|] == id;
    if hash <= 1 {
      ino := hash + 2;
    } else {
      ino := hash;
    }
  }

  function Pow31(n: nat): (r: nat)
    ensures r >= 1
  {
    if n == 0 then 1 else 31 * Pow31(n - 1)
  }

  /** The hash without wrapping: the sum of id[i] * 31^(n-1-i). */
  function Poly(id: NoteId): (r: nat)
    ensures id == [] ==> r == 0
  {
    if id == [] then 0 else id[0] as nat * Pow31(|id| - 1) + Poly(id[1..])
  }

  lemma {:induction false} PolyAppend(id: NoteId, b: byte)
    ensures Poly(id + [b]) == Poly(id) * 31 + b as nat
  {
    if id == [] {
      assert Poly([b]) == b as nat * Pow31(0) + Poly([]);
    } else {
      var t := id[1..];
      assert (id + [b])[1..] == t + [b];
      PolyAppend(t, b);
      calc {
        Poly(id + [b]);
        id[0] as nat * Pow31(|t| + 1) + Poly(t + [b]);
        id[0] as nat * (31 * Pow31(|t|)) + Poly(t) * 31 + b as nat;
        (id[0] as nat * Pow31(|t|) + Poly(t)) * 31 + b as nat;
      }
    }
  }

  lemma ModShift(k: int, x: int)
    ensures (k * Word + x) % Word == x % Word
  {
    var q, r := x / Word, x % Word;
    assert x == q * Word + r;
    assert k * Word + x == (k + q) * Word + r;
  }

  lemma ModStep(a: nat, b: nat)
    ensures (a % Word * 31 + b) % Word == (a * 31 + b) % Word
  {
    var q := a / Word;
    assert a == q * Word + a % Word;
    assert a * 31 + b == (q * 31) * Word + (a % Word * 31 + b);
    ModShift(q * 31, a % Word * 31 + b);
  }

  /** The wrapping fold is the polynomial hash reduced modulo 2^64. */
  lemma {:induction false} HashIsPolynomial(id: NoteId)
    ensures HashFold(id) == Poly(id) % Word
  {
    if id != [] {
      var p, b := id[..|id| - 1], id[|id| - 1];
      assert id == p + [b];
      HashIsPolynomial(p);
      PolyAppend(p, b);
      ModStep(Poly(p), b as nat);
    }
  }

  /** A non-root note never receives inode 0 or the root's inode. */
  lemma NonRootNeverReserved(id: NoteId)
    requires id != RootId
    ensures Ino(id) != 0 && Ino(id) != RootIno
    ensures HashFold(id) > 1 ==> Ino(id) == HashFold(id)
  {
  }

  // ---------------------------------------------------------------------
  // The root directory

  datatype FileKind = Directory | RegularFile

  /** File attributes; the four timestamps are seconds since the epoch. */
  datatype FileAttr = FileAttr(ino: nat, size: nat, blocks: nat,
                               atime: nat, mtime: nat, ctime: nat, crtime: nat,
                               kind: FileKind, perm: nat, nlink: nat,
                               uid: nat, gid: nat, rdev: nat, flags: nat, blksize: nat)

  /** A Unix permission word from its owner, group and other digits. */
  function Mode(owner: nat, group: nat, other: nat): (m: nat)
    requires owner < 8 && group < 8 && other < 8
    ensures m < 512
    ensures m / 64 == owner && m / 8 % 8 == group && m % 8 == other
  {
    owner * 64 + group * 8 + other
  }

  function RootAttr(): (a: FileAttr)
    ensures a.ino == Ino(RootId)
    ensures a.kind == Directory && a.size == 0 && a.blocks == 0
    ensures a.perm == Mode(7, 5, 5) && a.nlink == 2 && a.blksize == 512
    ensures a.atime == a.mtime == a.ctime == a.crtime == 0
  {
    FileAttr(RootIno, 0, 0, 0, 0, 0, 0, Directory, 493, 2, 501, 20, 0, 0, 512)
  }

  // ---------------------------------------------------------------------
  // Reading a note

  /** The reinterpretation of an i64 offset as a usize. */
  function AsUsize(offset: int): (u: nat)
    requires -HalfWord <= offset < HalfWord
    ensures offset >= 0 ==> u == offset
    ensures offset < 0 ==> u >= HalfWord
  {
    if offset < 0 then offset + Word else offset
  }

  /** The data replied to a read at `offset`. */
  function ReadSlice(content: seq<byte>, offset: int): (r: seq<byte>)
    requires -HalfWord <= offset < HalfWord
    ensures AsUsize(offset) < |content| ==> r == content[AsUsize(offset)..]
    ensures AsUsize(offset) >= |content| ==> r == []
    ensures offset < 0 && |content| <= HalfWord ==> r == []
  {
    var u := AsUsize(offset);
    if u < |content| then content[u..] else []
  }

  /** Reading at `o` yields the bytes up to `p` followed by a read at `p`. */
  lemma ReadResume(content: seq<byte>, o: nat, p: nat)
    requires o <= p <= |content| && p < HalfWord
    ensures ReadSlice(content, o) == content[o..p] + ReadSlice(content, p)
  {
    if p < |content| {
      assert content[o..] == content[o..p] + content[p..];
    } else {
      assert content[o..] == content[o..p];
    }
  }

  lemma ReadWhole(content: seq<byte>)
    ensures ReadSlice(content, 0) == content
  {
  }

  /** Where a note's content comes from. */
  datatype Blob = NoBlob | Stored(content: Option<seq<byte>>) | Unreadable

  datatype NoteRow = NoteRow(noteId: NoteId, blob: Blob)

  /** The first note whose inode is `ino`. */
  function FindByIno(notes: seq<NoteRow>, ino: nat): (r: Option<NoteRow>)
    ensures r.None? <==> forall k :: 0 <= k < |notes| ==> Ino(notes[k].noteId) != ino
    ensures r.Some? ==> exists k :: 0 <= k < |notes| && notes[k] == r.value && Ino(r.value.noteId) == ino
                                    && forall j :: 0 <= j < k ==> Ino(notes[j].noteId) != ino
  {
    if notes == [] then None
    else if Ino(notes[0].noteId) == ino then Some(notes[0])
    else
      var r := FindByIno(notes[1..], ino);
      if r.Some? then
        var k :| 0 <= k < |notes[1..]| && notes[1..][k] == r.value && Ino(r.value.noteId) == ino
                 && forall j :: 0 <= j < k ==> Ino(notes[1..][j].noteId) != ino;
        assert notes[k + 1] == r.value;
        assert forall j :: 0 <= j < k + 1 ==> Ino(notes[j].noteId) != ino by {
          forall j | 0 <= j < k + 1 ensures Ino(notes[j].noteId) != ino {
            if j > 0 { assert notes[j] == notes[1..][j - 1]; }
          }
        }
        r
      else
        assert forall k :: 0 <= k < |notes| ==> Ino(notes[k].noteId) != ino by {
          forall k | 0 <= k < |notes| ensures Ino(notes[k].noteId) != ino {
            if k > 0 { assert notes[k] == notes[1..][k - 1]; }
          }
        }
        None
  }

  /** The content of a note: empty without a blob or blob content, none when the blob cannot be read. */
  function NoteContent(note: NoteRow): (r: Option<seq<byte>>)
    ensures r.None? <==> note.blob.Unreadable?
    ensures note.blob.Stored? && note.blob.content.Some? ==> r == note.blob.content
    ensures note.blob.NoBlob? ==> r == Some([])
  {
    match note.blob
    case NoBlob => Some([])
    case Stored(content) => if content.Some? then content else Some([])
    case Unreadable => None
  }

  /** The reply to a read of inode `ino` at `offset`: data, or an error number. */
  function Read(notes: seq<NoteRow>, ino: nat, offset: int): (r: Result<seq<byte>, int>)
    requires -HalfWord <= offset < HalfWord
    ensures r.Err? ==> r.error == ENOENT
    ensures FindByIno(notes, ino).None? ==> r.Err?
    ensures r.Ok? ==> exists k :: 0 <= k < |notes| && Ino(notes[k].noteId) == ino
                               && NoteContent(notes[k]).Some?
                               && r.value == ReadSlice(NoteContent(notes[k]).value, offset)
    ensures FindByIno(notes, ino).Some? && NoteContent(FindByIno(notes, ino).value).Some? ==>
              r == Ok(ReadSlice(NoteContent(FindByIno(notes, ino).value).value, offset))
    ensures FindByIno(notes, ino).Some? && NoteContent(FindByIno(notes, ino).value).None? ==> r.Err?
  {
    match FindByIno(notes, ino)
    case None => Err(ENOENT)
    case Some(note) =>
      match NoteContent(note)
      case None => Err(ENOENT)
      case Some(content) => Ok(ReadSlice(content, offset))
  }

  // ---------------------------------------------------------------------
  // Listing a directory

  datatype Entry = Entry(ino: nat, kind: FileKind, name: string)

  /**
   * A child note found through a branch: its title, its file name and the
   * result of counting its own children (None when that query failed).
   */
  datatype Child = Child(noteId: NoteId, title: string, filename: string, childCount: Option<int>)

  /** A child with children is a directory named by its title, otherwise a file. */
  function ChildEntry(c: Child): (e: Entry)
    ensures e.ino == Ino(c.noteId)
    ensures e.kind == Directory <==> c.childCount.Some? && c.childCount.value > 0
  {
    if c.childCount.Some? && c.childCount.value > 0 then Entry(Ino(c.noteId), Directory, c.title)
    else Entry(Ino(c.noteId), RegularFile, c.filename)
  }

  /** The number of branches whose note was found. */
  function FoundCount(children: seq<Option<Child>>): (n: nat)
    ensures n <= |children|
  {
    if children == [] then 0
    else FoundCount(children[..|children| - 1]) + (if children[|children| - 1].Some? then 1 else 0)
  }

  /**
   * The entries of the branches in order: one per found note, none for a
   * branch whose note is missing, and a failure as soon as counting a found
   * note's children fails.
   */
  function ChildEntries(children: seq<Option<Child>>): (r: Option<seq<Entry>>)
    ensures r.Some? ==> |r.value| == FoundCount(children)
    ensures r.None? <==> exists k :: 0 <= k < |children| && children[k].Some? && children[k].value.childCount.None?
  {
    if children == [] then Some([])
    else
      var prefix, last := children[..|children| - 1], children[|children| - 1];
      assert forall k :: 0 <= k < |prefix| ==> prefix[k] == children[k];
      var r := ChildEntries(prefix);
      if r.None? then None
      else if last.None? then r
      else if last.value.childCount.None? then None
      else Some(r.value + [ChildEntry(last.value)])
  }

  /** ".", ".." and, below the root, the hidden content file of the directory's own note. */
  function Head(dir: nat, hidden: Option<string>): (r: seq<Entry>)
    ensures |r| >= 2 && r[0] == Entry(dir, Directory, ".") && r[1] == Entry(dir, Directory, "..")
    ensures |r| == 3 <==> dir != RootIno && hidden.Some?
    ensures |r| == 3 ==> r[2] == Entry(dir, RegularFile, "." + hidden.value)
    ensures |r| <= 3
  {
    [Entry(dir, Directory, "."), Entry(dir, Directory, "..")]
    + (if dir != RootIno && hidden.Some? then [Entry(dir, RegularFile, "." + hidden.value)] else [])
  }

  function DirEntries(dir: nat, hidden: Option<string>, children: seq<Option<Child>>): (r: Option<seq<Entry>>)
    ensures r.Some? <==> ChildEntries(children).Some?
    ensures r.Some? ==> |r.value| == |Head(dir, hidden)| + FoundCount(children)
    ensures r.Some? ==> (r.value[..|Head(dir, hidden)|] == Head(dir, hidden)
                         && r.value[|Head(dir, hidden)|..] == ChildEntries(children).value)
  {
    var c := ChildEntries(children);
    if c.None? then None
    else
      var r := Head(dir, hidden) + c.value;
      assert r[..|Head(dir, hidden)|] == Head(dir, hidden);
      assert r[|Head(dir, hidden)|..] == c.value;
      Some(r)
  }

  /** The entry list built by pushing onto a vector. */
  method ListEntries(dir: nat, hidden: Option<string>, children: seq<Option<Child>>) returns (r: Option<seq<Entry>>)
    ensures r == DirEntries(dir, hidden, children)
  {
    var entries := [Entry(dir, Directory, "."), Entry(dir, Directory, "..")];
    if dir != RootIno && hidden.Some? {
      entries := entries + [Entry(dir, RegularFile, "." + hidden.value)];
    }
    for i := 0 to |children|
      invariant ChildEntries(children[..i]).Some?
      invariant entries == Head(dir, hidden) + ChildEntries(children[..i]).value
    {
      assert children[..i + 1][..i] == children[..i];
      match children[i]
      case None =>
      case Some(c) =>
        if c.childCount.None? {
          assert children[..i + 1][i] == children[i];
          ChildFailurePersists(children, i + 1);
          return None;
        }
        entries := entries + [ChildEntry(c)];
    }
    assert children[..|children|] == children;
    return Some(entries);
  }

  lemma {:induction false} ChildFailurePersists(children: seq<Option<Child>>, n: nat)
    requires n <= |children| && ChildEntries(children[..n]).None?
    ensures ChildEntries(children).None?
  {
    var k :| 0 <= k < n && children[..n][k].Some? && children[..n][k].value.childCount.None?;
    assert children[k] == children[..n][k];
  }

  /** At the root there is no hidden entry: the children follow "." and ".." directly. */
  lemma RootHasNoHiddenEntry(hidden: Option<string>, children: seq<Option<Child>>)
    requires ChildEntries(children).Some?
    ensures DirEntries(RootIno, hidden, children).value[2..] == ChildEntries(children).value
  {
  }

  /** Below the root the directory's own content appears as ".<filename>" right after "..". */
  lemma HiddenEntryBelowRoot(dir: nat, filename: string, children: seq<Option<Child>>)
    requires dir != RootIno && ChildEntries(children).Some?
    ensures DirEntries(dir, Some(filename), children).value[2] == Entry(dir, RegularFile, "." + filename)
    ensures |DirEntries(dir, Some(filename), children).value| == 3 + FoundCount(children)
  {
  }

  // ---------------------------------------------------------------------
  // Replying to the kernel

  /** One directory entry handed to the kernel, with the cookie that resumes after it. */
  datatype DirReply = DirReply(ino: nat, cookie: nat, kind: FileKind, name: string)

  /** Every entry from index `skip` on, entry i carrying cookie i + 1. */
  function Listing(entries: seq<Entry>, skip: nat): (r: seq<DirReply>)
    ensures |r| == if skip < |entries| then |entries| - skip else 0
    ensures forall k :: 0 <= k < |r| ==> r[k] == DirReply(entries[skip + k].ino, skip + k + 1,
                                                          entries[skip + k].kind, entries[skip + k].name)
    decreases |entries| - skip
  {
    if skip >= |entries| then []
    else [DirReply(entries[skip].ino, skip + 1, entries[skip].kind, entries[skip].name)] + Listing(entries, skip + 1)
  }

  function Min(a: nat, b: nat): nat { if a <= b then a else b }

  /** The replies sent when the kernel's buffer takes `room` entries. */
  function Sent(entries: seq<Entry>, offset: int, room: nat): (r: seq<DirReply>)
    requires -HalfWord <= offset < HalfWord
  {
    var all := Listing(entries, AsUsize(offset));
    all[..Min(room, |all|)]
  }

  /** The reply loop: skip `offset` entries, then add entries until the buffer is full. */
  method ReplyEntries(entries: seq<Entry>, offset: int, room: nat) returns (sent: seq<DirReply>)
    requires -HalfWord <= offset < HalfWord
    ensures sent == Sent(entries, offset, room)
  {
    var skip := AsUsize(offset);
    sent := [];
    if skip >= |entries| {
      return;
    }
    ghost var all := Listing(entries, skip);
    for i := skip to |entries|
      invariant |sent| == i - skip <= room
      invariant sent == all[..i - skip]
    {
      if |sent| == room {
        break;
      }
      sent := sent + [DirReply(entries[i].ino, i + 1, entries[i].kind, entries[i].name)];
    }
  }

  /** Each sent entry carries the cookie of the next one to send. */
  lemma CookiesCount(entries: seq<Entry>, offset: nat, room: nat)
    requires offset < HalfWord
    ensures forall k :: 0 <= k < |Sent(entries, offset, room)| ==> Sent(entries, offset, room)[k].cookie == offset + k + 1
  {
  }

  /**
   * Resuming at the last cookie continues with the next entry: two replies
   * in a row send exactly what one reply with their combined room sends.
   */
  lemma ResumeAtCookie(entries: seq<Entry>, offset: nat, room1: nat, room2: nat)
    requires offset + room1 < HalfWord
    requires |Sent(entries, offset, room1)| == room1 > 0
    ensures Sent(entries, offset, room1)[room1 - 1].cookie == offset + room1
    ensures Sent(entries, offset, room1) + Sent(entries, offset + room1, room2)
            == Sent(entries, offset, room1 + room2)
  {
    var a, b, c := Sent(entries, offset, room1), Sent(entries, offset + room1, room2), Sent(entries, offset, room1 + room2);
    assert |a + b| == |c|;
    forall k | 0 <= k < |c| ensures (a + b)[k] == c[k] {
      if k >= room1 { assert (a + b)[k] == b[k - room1]; }
    }
  }

  /** The note a directory inode stands for: "root" for the root inode, otherwise the first note with that inode. */
  function DirNote(notes: seq<NoteRow>, dir: nat): (r: Option<NoteId>)
    ensures r.Some? <==> dir == RootIno || FindByIno(notes, dir).Some?
    ensures dir == RootIno ==> r == Some(RootId)
    ensures dir != RootIno && r.Some? ==> exists k :: 0 <= k < |notes| && notes[k].noteId == r.value && Ino(r.value) == dir
  {
    if dir == RootIno then Some(RootId)
    else if FindByIno(notes, dir).Some? then Some(FindByIno(notes, dir).value.noteId)
    else None
  }

  /**
   * The whole listing of inode `dir`: the directory's note is "root" for the
   * root inode and otherwise the first note with that inode; its hidden
   * file name and its branches come from the database (None when the
   * branch query fails).
   */
  function ReadDir(notes: seq<NoteRow>, dir: nat, hiddenOf: NoteId -> Option<string>,
                   branchesOf: NoteId -> Option<seq<Option<Child>>>, offset: int, room: nat)
    : (r: Result<seq<DirReply>, int>)
    requires -HalfWord <= offset < HalfWord
    ensures r.Err? ==> r.error == ENOENT
    ensures dir != RootIno && FindByIno(notes, dir).None? ==> r.Err?
    ensures r.Ok? ==> |r.value| <= room
    ensures r.Ok? && offset == 0 && room >= 2 ==>
              |r.value| >= 2 && r.value[0] == DirReply(dir, 1, Directory, ".") && r.value[1] == DirReply(dir, 2, Directory, "..")
    ensures r.Ok? <==> DirNote(notes, dir).Some? && branchesOf(DirNote(notes, dir).value).Some?
                       && DirEntries(dir, hiddenOf(DirNote(notes, dir).value), branchesOf(DirNote(notes, dir).value).value).Some?
    ensures r.Ok? ==> r.value == Sent(DirEntries(dir, hiddenOf(DirNote(notes, dir).value),
                                                  branchesOf(DirNote(notes, dir).value).value).value, offset, room)
  {
    var parent := DirNote(notes, dir);
    if parent.None? then Err(ENOENT)
    else
      var hidden := hiddenOf(parent.value);
      var branches := branchesOf(parent.value);
      if branches.None? then Err(ENOENT)
      else
        var entries := DirEntries(dir, hidden, branches.value);
        if entries.None? then Err(ENOENT)
        else
          var r := Sent(entries.value, offset, room);
          assert |entries.value| >= |Head(dir, hidden)| >= 2;
          assert offset == 0 && room >= 2 ==> |r| >= 2;
          assert offset == 0 && room >= 2 ==> r[0] == DirReply(dir, 1, Directory, ".") && r[1] == DirReply(dir, 2, Directory, "..") by {
            if offset == 0 && room >= 2 {
              assert entries.value[..|Head(dir, hidden)|] == Head(dir, hidden);
              assert entries.value[0] == Head(dir, hidden)[0] && entries.value[1] == Head(dir, hidden)[1];
            }
          }
          Ok(r)
  }
}
