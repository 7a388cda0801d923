/** Values and string operations shared by every model in this project: the
    Option and Result wrappers, the two whitespace classes (Python's
    `str.isspace` and Rust's `char::is_whitespace`), trimming, searching,
    replacing, line splitting and the code-point order on strings. */
module Text {

  datatype Option<+T> = None | Some(value: T)

  datatype Result<+T, +E> = Ok(value: T) | Err(error: E)

  /** Which language's notion of whitespace a trim or split uses. */
  datatype Lang = Python | Rust

  /** Unicode White_Space, the set Rust's `char::is_whitespace` tests. */
  predicate RustSpace(c: char)
  {
    ('\t' <= c <= '\r') || c == ' ' || c == '\U{85}' || c == '\U{A0}' || c == '\U{1680}'
    || ('\U{2000}' <= c <= '\U{200A}') || c == '\U{2028}' || c == '\U{2029}' || c == '\U{202F}'
    || c == '\U{205F}' || c == '\U{3000}'
  }

  /** Python's `str.isspace`: Rust's set plus the four separators U+001C..U+001F. */
  predicate PySpace(c: char)
  {
    RustSpace(c) || ('\U{1C}' <= c <= '\U{1F}')
  }

  predicate IsSpace(lang: Lang, c: char)
  {
    match lang
    case Python => PySpace(c)
    case Rust => RustSpace(c)
  }

  predicate NoSpace(lang: Lang, s: string)
  {
    forall i :: 0 <= i < |s| ==> !IsSpace(lang, s[i])
  }

  function TrimStart(lang: Lang, s: string): (r: string)
    ensures |r| <= |s| && r == s[|s| - |r|..]
    ensures r == [] || !IsSpace(lang, r[0])
  {
    if s == [] || !IsSpace(lang, s[0]) then s else TrimStart(lang, s[1..])
  }

  function TrimEnd(lang: Lang, s: string): (r: string)
    ensures |r| <= |s| && r == s[..|r|]
    ensures r == [] || !IsSpace(lang, r[|r| - 1])
  {
    if s == [] || !IsSpace(lang, s[|s| - 1]) then s else TrimEnd(lang, s[..|s| - 1])
  }

  /** Neither end of `s` is whitespace. */
  predicate Trimmed(lang: Lang, s: string)
  {
    s == [] || (!IsSpace(lang, s[0]) && !IsSpace(lang, s[|s| - 1]))
  }

  /** Everything `TrimStart` drops is whitespace. */
  lemma {:induction false} TrimStartDrops(lang: Lang, s: string)
    ensures forall k :: 0 <= k < |s| - |TrimStart(lang, s)| ==> IsSpace(lang, s[k])
  {
    if s != [] && IsSpace(lang, s[0]) {
      TrimStartDrops(lang, s[1..]);
      forall k | 1 <= k < |s| - |TrimStart(lang, s)| ensures IsSpace(lang, s[k]) {
        assert s[k] == s[1..][k - 1];
      }
    }
  }

  /** Everything `TrimEnd` drops is whitespace. */
  lemma {:induction false} TrimEndDrops(lang: Lang, s: string)
    ensures forall k :: |TrimEnd(lang, s)| <= k < |s| ==> IsSpace(lang, s[k])
  {
    if s != [] && IsSpace(lang, s[|s| - 1]) {
      TrimEndDrops(lang, s[..|s| - 1]);
      forall k | |TrimEnd(lang, s)| <= k < |s| - 1 ensures IsSpace(lang, s[k]) {
        assert s[k] == s[..|s| - 1][k];
      }
    }
  }

  /** Python's `str.strip()` or Rust's `str::trim()`. */
  function Trim(lang: Lang, s: string): (r: string)
    ensures |r| <= |s|
    ensures Trimmed(lang, r)
  {
    TrimEnd(lang, TrimStart(lang, s))
  }

  /** The trimmed text is the slice of `s` left once its leading and
      trailing whitespace is removed. */
  lemma TrimSlice(lang: Lang, s: string)
    ensures exists i, j :: 0 <= i <= j <= |s| && Trim(lang, s) == s[i..j] &&
                           (forall k :: 0 <= k < i ==> IsSpace(lang, s[k])) &&
                           (forall k :: j <= k < |s| ==> IsSpace(lang, s[k]))
  {
    var t := TrimStart(lang, s);
    TrimStartDrops(lang, s);
    TrimEndDrops(lang, t);
    var i := |s| - |t|;
    var r := TrimEnd(lang, t);
    var j := i + |r|;
    assert r == s[i..j];
    forall k | j <= k < |s| ensures IsSpace(lang, s[k]) {
      assert s[k] == t[k - i];
    }
  }

  lemma TrimUnchanged(lang: Lang, s: string)
    requires Trimmed(lang, s)
    ensures Trim(lang, s) == s
  {
  }

  /** A leading whitespace character trims away. */
  lemma TrimStartSpace(lang: Lang, c: char, s: string)
    requires IsSpace(lang, c)
    ensures TrimStart(lang, [c] + s) == TrimStart(lang, s)
  {
    assert ([c] + s)[1..] == s;
  }

  /** A trailing whitespace character trims away. */
  lemma TrimEndSpace(lang: Lang, s: string, c: char)
    requires IsSpace(lang, c)
    ensures TrimEnd(lang, s + [c]) == TrimEnd(lang, s)
  {
    assert (s + [c])[..|s|] == s;
  }

  lemma {:induction false} TrimStartEmpty(lang: Lang, s: string)
    ensures TrimStart(lang, s) == [] <==> forall i :: 0 <= i < |s| ==> IsSpace(lang, s[i])
  {
    if s != [] && IsSpace(lang, s[0]) {
      TrimStartEmpty(lang, s[1..]);
      if forall i :: 0 <= i < |s[1..]| ==> IsSpace(lang, s[1..][i]) {
        forall i | 0 <= i < |s| ensures IsSpace(lang, s[i]) {
          if i > 0 { assert s[i] == s[1..][i - 1]; }
        }
      }
    }
  }

  lemma {:induction false} TrimEndEmpty(lang: Lang, s: string)
    requires TrimEnd(lang, s) == []
    ensures forall i :: 0 <= i < |s| ==> IsSpace(lang, s[i])
  {
    if s != [] {
      TrimEndEmpty(lang, s[..|s| - 1]);
      forall i | 0 <= i < |s| ensures IsSpace(lang, s[i]) {
        if i < |s| - 1 { assert s[i] == s[..|s| - 1][i]; }
      }
    }
  }

  /** A string trims to nothing exactly when it is all whitespace. */
  lemma TrimEmpty(lang: Lang, s: string)
    ensures Trim(lang, s) == [] <==> forall i :: 0 <= i < |s| ==> IsSpace(lang, s[i])
  {
    TrimStartEmpty(lang, s);
    var t := TrimStart(lang, s);
    if Trim(lang, s) == [] {
      TrimEndEmpty(lang, t);
      assert t == [];
    }
  }

  predicate StartsWith(s: string, p: string)
  {
    |p| <= |s| && s[..|p|] == p
  }

  predicate EndsWith(s: string, p: string)
  {
    |p| <= |s| && s[|s| - |p|..] == p
  }

  predicate OccursAt(s: string, p: string, i: nat)
  {
    i + |p| <= |s| && s[i..i + |p|] == p
  }

  predicate Contains(s: string, p: string)
  {
    exists i :: 0 <= i <= |s| && OccursAt(s, p, i)
  }

  /** Index of the first occurrence of `p` in `s` at or after `from`. */
  function FindFrom(s: string, p: string, from: nat): (r: Option<nat>)
    decreases |s| - from
    ensures r.Some? ==> from <= r.value && OccursAt(s, p, r.value)
    ensures r.Some? ==> forall j :: from <= j < r.value ==> !OccursAt(s, p, j)
    ensures r.None? ==> forall j :: from <= j ==> !OccursAt(s, p, j)
  {
    if from + |p| > |s| then None
    else if s[from..from + |p|] == p then Some(from)
    else FindFrom(s, p, from + 1)
  }

  /** Rust's `str::find`, Python's `str.find` (as an Option). */
  function Find(s: string, p: string): (r: Option<nat>)
    ensures r.Some? ==> OccursAt(s, p, r.value) && forall j :: 0 <= j < r.value ==> !OccursAt(s, p, j)
    ensures r.None? <==> !Contains(s, p)
  {
    FindFrom(s, p, 0)
  }

  /** Rust's `str::rfind`: the last occurrence. */
  function RFind(s: string, p: string): (r: Option<nat>)
    ensures r.Some? ==> OccursAt(s, p, r.value) && forall j :: r.value < j ==> !OccursAt(s, p, j)
    ensures r.None? <==> !Contains(s, p)
  {
    if |p| > |s| then None else RFindUpTo(s, p, |s| - |p|)
  }

  function RFindUpTo(s: string, p: string, hi: nat): (r: Option<nat>)
    requires hi + |p| <= |s|
    ensures r.Some? ==> r.value <= hi && OccursAt(s, p, r.value)
    ensures r.Some? ==> forall j :: r.value < j ==> !OccursAt(s, p, j) || j > hi
    ensures r.None? ==> forall j :: 0 <= j <= hi ==> !OccursAt(s, p, j)
  {
    if s[hi..hi + |p|] == p then Some(hi)
    else if hi == 0 then None
    else RFindUpTo(s, p, hi - 1)
  }

  /** Python's `str.replace(pat, rep)` and Rust's `str::replace`: every
      non-overlapping occurrence, scanning left to right. */
  function ReplaceAll(s: string, pat: string, rep: string): (r: string)
    requires pat != []
    decreases |s|
  {
    if s == [] then []
    else if StartsWith(s, pat) then rep + ReplaceAll(s[|pat|..], pat, rep)
    else [s[0]] + ReplaceAll(s[1..], pat, rep)
  }

  lemma {:induction false} ReplaceAllAbsent(s: string, pat: string, rep: string)
    requires pat != [] && !Contains(s, pat)
    ensures ReplaceAll(s, pat, rep) == s
    decreases |s|
  {
    if s != [] {
      assert !OccursAt(s, pat, 0);
      forall i: nat ensures !OccursAt(s[1..], pat, i) {
        if OccursAt(s[1..], pat, i) {
          assert s[1..][i..i + |pat|] == s[i + 1..i + 1 + |pat|];
          assert OccursAt(s, pat, i + 1);
        }
      }
      ReplaceAllAbsent(s[1..], pat, rep);
    }
  }

  /** Python's `str.split(sep)` for a one-character separator. */
  function Split(s: string, sep: char): (r: seq<string>)
    ensures |r| >= 1
  {
    if s == [] then [[]]
    else if s[0] == sep then [[]] + Split(s[1..], sep)
    else var rest := Split(s[1..], sep); [[s[0]] + rest[0]] + rest[1..]
  }

  lemma {:induction false} SplitNone(s: string, sep: char)
    requires sep !in s
    ensures Split(s, sep) == [s]
  {
    if s != [] {
      SplitNone(s[1..], sep);
      assert s == [s[0]] + s[1..];
    }
  }

  lemma {:induction false} SplitTwo(a: string, b: string, sep: char)
    requires sep !in a && sep !in b
    ensures Split(a + [sep] + b, sep) == [a, b]
  {
    if a == [] {
      assert a + [sep] + b == [sep] + b;
      SplitNone(b, sep);
    } else {
      assert (a + [sep] + b)[1..] == a[1..] + [sep] + b;
      SplitTwo(a[1..], b, sep);
      assert a == [a[0]] + a[1..];
    }
  }

  /** A first piece without the separator splits off on its own. */
  lemma {:induction false} SplitCons(a: string, b: string, sep: char)
    requires sep !in a
    ensures Split(a + [sep] + b, sep) == [a] + Split(b, sep)
  {
    if a == [] {
      assert a + [sep] + b == [sep] + b;
      assert ([sep] + b)[1..] == b;
    } else {
      assert (a + [sep] + b)[1..] == a[1..] + [sep] + b;
      SplitCons(a[1..], b, sep);
      assert a == [a[0]] + a[1..];
    }
  }

  function Join(parts: seq<string>, sep: string): string
  {
    if parts == [] then [] else if |parts| == 1 then parts[0] else parts[0] + sep + Join(parts[1..], sep)
  }

  lemma {:induction false} JoinSplit(s: string, sep: char)
    ensures Join(Split(s, sep), [sep]) == s
  {
    if s != [] {
      JoinSplit(s[1..], sep);
      var rest := Split(s[1..], sep);
      if s[0] == sep {
        assert s == [sep] + s[1..];
      } else if |rest| == 1 {
        assert s == [s[0]] + rest[0];
      } else {
        assert Join(rest, [sep]) == rest[0] + [sep] + Join(rest[1..], [sep]);
        assert s == [s[0]] + s[1..];
      }
    }
  }

  /** Rust's `str::lines`: split at '\n'; a line that a '\n' ended also loses
      one '\r' before it; the last piece, which no '\n' follows, is kept as is
      unless it is empty (so "a\r" gives "a\r" but "a\r\n" gives "a"). */
  function RustLines(s: string): (r: seq<string>)
    ensures s == [] ==> r == []
    ensures forall i :: 0 <= i < |r| ==> '\n' !in r[i]
  {
    SplitParts(s, '\n');
    var parts := Split(s, '\n');
    DropCrAll(parts[..|parts| - 1]) + LastLine(parts[|parts| - 1])
  }

  /** No piece of a split holds the separator. */
  lemma {:induction false} SplitParts(s: string, sep: char)
    ensures forall i :: 0 <= i < |Split(s, sep)| ==> sep !in Split(s, sep)[i]
  {
    if s != [] {
      SplitParts(s[1..], sep);
    }
  }

  /** The unterminated last piece: a line of its own unless it is empty. */
  function LastLine(piece: string): seq<string>
  {
    if piece == [] then [] else [piece]
  }

  function DropCrAll(lines: seq<string>): (r: seq<string>)
    ensures |r| == |lines|
  {
    seq(|lines|, i requires 0 <= i < |lines| => DropCr(lines[i]))
  }

  /** The first line of a text comes off as the first element. */
  lemma RustLinesCons(a: string, b: string)
    requires '\n' !in a
    ensures RustLines(a + "\n" + b) == [DropCr(a)] + RustLines(b)
  {
    SplitCons(a, b, '\n');
    var parts := Split(b, '\n');
    var all := [a] + parts;
    assert all[..|all| - 1] == [a] + parts[..|parts| - 1];
    assert all[|all| - 1] == parts[|parts| - 1];
    DropCrAllCons(a, parts[..|parts| - 1]);
    assert [DropCr(a)] + DropCrAll(parts[..|parts| - 1]) + LastLine(parts[|parts| - 1])
      == [DropCr(a)] + (DropCrAll(parts[..|parts| - 1]) + LastLine(parts[|parts| - 1]));
  }

  /** Text without a '\n' is one line, kept whole: a final '\r' stays. */
  lemma {:induction false} RustLinesUnterminated(s: string)
    requires s != [] && '\n' !in s
    ensures RustLines(s) == [s]
  {
    SplitNone(s, '\n');
  }

  lemma DropCrAllCons(a: string, lines: seq<string>)
    ensures DropCrAll([a] + lines) == [DropCr(a)] + DropCrAll(lines)
  {
    var l := [a] + lines;
    assert forall i :: 1 <= i < |l| ==> l[i] == lines[i - 1];
  }

  function DropCr(line: string): (r: string)
    ensures r == line || (EndsWith(line, "\r") && r == line[..|line| - 1])
  {
    if EndsWith(line, "\r") then line[..|line| - 1] else line
  }

  /** Remove every leading copy of `p` (Rust's `trim_start_matches`). */
  function TrimStartMatches(s: string, p: string): (r: string)
    requires p != []
    ensures |r| <= |s| && r == s[|s| - |r|..] && !StartsWith(r, p)
    decreases |s|
  {
    if StartsWith(s, p) then TrimStartMatches(s[|p|..], p) else s
  }

  predicate AsciiUpper(c: char) { 'A' <= c <= 'Z' }
  predicate AsciiLower(c: char) { 'a' <= c <= 'z' }
  predicate AsciiDigit(c: char) { '0' <= c <= '9' }
  predicate AsciiAlnum(c: char) { AsciiUpper(c) || AsciiLower(c) || AsciiDigit(c) }

  function ToLowerChar(c: char): (r: char)
    ensures !AsciiUpper(r)
    ensures AsciiAlnum(c) <==> AsciiAlnum(r)
  {
    if AsciiUpper(c) then (c as int + 32) as char else c
  }

  /** ASCII lower-casing (Python `str.lower`, Rust `to_lowercase` on ASCII). */
  function ToLower(s: string): (r: string)
    ensures |r| == |s|
    ensures forall i :: 0 <= i < |s| ==> r[i] == ToLowerChar(s[i])
  {
    seq(|s|, i requires 0 <= i < |s| => ToLowerChar(s[i]))
  }

  /** Strict lexicographic order by code point (Python's `<` on str). */
  predicate Less(a: string, b: string)
    decreases |a|
  {
    if a == [] then b != []
    else if b == [] then false
    else if a[0] != b[0] then a[0] < b[0]
    else Less(a[1..], b[1..])
  }

  lemma {:induction false} LessIrreflexive(a: string)
    ensures !Less(a, a)
  {
    if a != [] { LessIrreflexive(a[1..]); }
  }

  lemma {:induction false} LessTransitive(a: string, b: string, c: string)
    requires Less(a, b) && Less(b, c)
    ensures Less(a, c)
    decreases |a|
  {
    if a != [] && b != [] && c != [] && a[0] == b[0] && b[0] == c[0] {
      LessTransitive(a[1..], b[1..], c[1..]);
    }
  }

  lemma {:induction false} LessTotal(a: string, b: string)
    ensures a == b || Less(a, b) || Less(b, a)
    decreases |a|
  {
    if a != [] && b != [] && a[0] == b[0] {
      LessTotal(a[1..], b[1..]);
      if a[1..] == b[1..] {
        assert a == [a[0]] + a[1..] && b == [b[0]] + b[1..];
      }
    }
  }

  lemma LessAsymmetric(a: string, b: string)
    requires Less(a, b)
    ensures !Less(b, a)
  {
    if Less(b, a) {
      LessTransitive(a, b, a);
      LessIrreflexive(a);
    }
  }

  /** A sequence of strings in strictly increasing order, hence without repeats. */
  predicate StrictlySorted(s: seq<string>)
  {
    forall i, j :: 0 <= i < j < |s| ==> Less(s[i], s[j])
  }

  /** Insert `x` into a strictly sorted sequence that does not hold it. */
  function InsertSorted(s: seq<string>, x: string): (r: seq<string>)
    requires StrictlySorted(s) && x !in s
    ensures StrictlySorted(r)
    ensures forall y :: y in r <==> y in s || y == x
    ensures |r| == |s| + 1
  {
    if s == [] then [x]
    else if Less(x, s[0]) then
      assert forall j :: 0 < j < |s| ==> Less(x, s[j]) by {
        forall j | 0 < j < |s| ensures Less(x, s[j]) { LessTransitive(x, s[0], s[j]); }
      }
      [x] + s
    else
      LessTotal(x, s[0]);
      var rest := InsertSorted(s[1..], x);
      assert forall y :: y in rest ==> Less(s[0], y) by {
        forall y | y in rest ensures Less(s[0], y) {
          if y != x {
            assert y in s[1..];
            var k :| 0 <= k < |s[1..]| && s[1..][k] == y;
            assert s[k + 1] == y;
          }
        }
      }
      assert forall y :: y in s <==> y == s[0] || y in s[1..] by {
        assert s == [s[0]] + s[1..];
      }
      [s[0]] + rest
  }

  /** Decimal digits of a natural number, most significant first. */
  function NatToString(n: nat): (r: string)
    ensures r != [] && forall i :: 0 <= i < |r| ==> AsciiDigit(r[i])
  {
    if n < 10 then [('0' as int + n) as char]
    else NatToString(n / 10) + [('0' as int + n % 10) as char]
  }

  /** Every character of `s` that `keep` accepts, in order. */
  function Filter(s: string, keep: char -> bool): (r: string)
    ensures |r| <= |s|
    ensures forall i :: 0 <= i < |r| ==> keep(r[i])
  {
    if s == [] then [] else (if keep(s[0]) then [s[0]] else []) + Filter(s[1..], keep)
  }

  lemma {:induction false} FilterAppend(a: string, b: string, keep: char -> bool)
    ensures Filter(a + b, keep) == Filter(a, keep) + Filter(b, keep)
  {
    if a != [] {
      assert (a + b)[1..] == a[1..] + b;
      FilterAppend(a[1..], b, keep);
    } else {
      assert a + b == b;
    }
  }

  /** Every kept character comes from `s`. */
  lemma {:induction false} FilterFrom(s: string, keep: char -> bool)
    ensures forall i :: 0 <= i < |Filter(s, keep)| ==> Filter(s, keep)[i] in s
  {
    if s != [] {
      FilterFrom(s[1..], keep);
      var rest := Filter(s[1..], keep);
      var head: string := if keep(s[0]) then [s[0]] else [];
      forall i | 0 <= i < |Filter(s, keep)|
        ensures Filter(s, keep)[i] in s
      {
        if i >= |head| {
          assert Filter(s, keep)[i] == rest[i - |head|];
          assert rest[i - |head|] in s[1..];
        }
      }
    }
  }

  lemma {:induction false} FilterAllKept(s: string, keep: char -> bool)
    requires forall i :: 0 <= i < |s| ==> keep(s[i])
    ensures Filter(s, keep) == s
  {
    if s != [] {
      FilterAllKept(s[1..], keep);
    }
  }

  lemma {:induction false} FilterNoneKept(s: string, keep: char -> bool)
    requires forall i :: 0 <= i < |s| ==> !keep(s[i])
    ensures Filter(s, keep) == []
  {
    if s != [] {
      FilterNoneKept(s[1..], keep);
    }
  }

  /** A character that is not Rust whitespace. */
  predicate Visible(c: char)
  {
    !RustSpace(c)
  }

  /** The length of the leading run of non-whitespace characters. */
  function WordEnd(s: string): (n: nat)
    ensures n <= |s| && (forall i :: 0 <= i < n ==> Visible(s[i])) && (n < |s| ==> RustSpace(s[n]))
  {
    if s == [] || RustSpace(s[0]) then 0 else 1 + WordEnd(s[1..])
  }

  /** Rust's `split_whitespace`: the maximal runs of non-whitespace, in order. */
  function Words(s: string): (r: seq<string>)
    ensures forall i :: 0 <= i < |r| ==> r[i] != [] && NoSpace(Rust, r[i])
    decreases |s|
  {
    if s == [] then []
    else if RustSpace(s[0]) then Words(s[1..])
    else
      var n := WordEnd(s);
      [s[..n]] + Words(s[n..])
  }

  function Concat(parts: seq<string>): string
  {
    if parts == [] then [] else parts[0] + Concat(parts[1..])
  }

  /** One more part puts its text after the others. */
  lemma {:induction false} ConcatSnoc(parts: seq<string>, last: string)
    ensures Concat(parts + [last]) == Concat(parts) + last
  {
    if parts == [] {
      assert [last][1..] == [];
    } else {
      assert (parts + [last])[1..] == parts[1..] + [last];
      ConcatSnoc(parts[1..], last);
      AppendAssoc(parts[0], Concat(parts[1..]), last);
    }
  }

  /** The words of a text, put together, are its non-whitespace characters. */
  lemma {:induction false} WordsVisible(s: string)
    ensures Concat(Words(s)) == Filter(s, Visible)
    decreases |s|
  {
    if s != [] {
      if RustSpace(s[0]) {
        WordsVisible(s[1..]);
      } else {
        var n := WordEnd(s);
        WordsVisible(s[n..]);
        assert s == s[..n] + s[n..];
        FilterAppend(s[..n], s[n..], Visible);
        FilterAllKept(s[..n], Visible);
        assert ([s[..n]] + Words(s[n..]))[1..] == Words(s[n..]);
      }
    }
  }

  /** The strictly sorted sequence holding exactly the strings of `s`. */
  ghost function SortedOf(s: set<string>): (r: seq<string>)
    ensures StrictlySorted(r)
    ensures forall x :: x in r <==> x in s
    decreases s
  {
    if s == {} then [] else var x :| x in s; InsertSorted(SortedOf(s - {x}), x)
  }

  /** A finite set of strings has only one strictly sorted listing. */
  lemma {:induction false} SortedUnique(a: seq<string>, b: seq<string>)
    requires StrictlySorted(a) && StrictlySorted(b)
    requires forall x :: x in a <==> x in b
    ensures a == b
    decreases |a|
  {
    if a != [] { assert a[0] in b; }
    if b != [] { assert b[0] in a; }
    if a != [] && b != [] {
      assert a[0] == b[0] by {
        var i :| 0 <= i < |a| && a[i] == b[0];
        var j :| 0 <= j < |b| && b[j] == a[0];
        if i > 0 && j > 0 { LessAsymmetric(a[0], b[0]); }
      }
      forall x ensures x in a[1..] <==> x in b[1..] {
        if x in a[1..] { TailMember(a, b, x); }
        if x in b[1..] { TailMember(b, a, x); }
      }
      SortedUnique(a[1..], b[1..]);
      assert a == [a[0]] + a[1..] && b == [b[0]] + b[1..];
    }
  }

  lemma TailMember(a: seq<string>, b: seq<string>, x: string)
    requires StrictlySorted(a) && StrictlySorted(b)
    requires forall y :: y in a <==> y in b
    requires a != [] && b != [] && a[0] == b[0] && x in a[1..]
    ensures x in b[1..]
  {
    var k :| 0 <= k < |a[1..]| && a[1..][k] == x;
    assert Less(a[0], a[k + 1]);
    LessIrreflexive(x);
    assert x in b;
    var m :| 0 <= m < |b| && b[m] == x;
    assert b[1..][m - 1] == x;
  }

  /** Python's `sorted` on a set of strings. */
  method SortStrings(s: set<string>) returns (r: seq<string>)
    ensures r == SortedOf(s)
  {
    r := [];
    var rest := s;
    while rest != {}
      invariant rest <= s
      invariant StrictlySorted(r)
      invariant forall x :: x in r <==> x in s && x !in rest
      decreases rest
    {
      var x :| x in rest;
      r := InsertSorted(r, x);
      rest := rest - {x};
    }
    SortedUnique(r, SortedOf(s));
  }

  // Sequence facts, stated once so that proofs about recursive string
  // functions need not rediscover them.

  lemma AppendAssoc<T>(a: seq<T>, b: seq<T>, c: seq<T>)
    ensures a + (b + c) == (a + b) + c
  {
  }

  lemma DropAppend<T>(a: seq<T>, b: seq<T>, k: nat)
    requires k <= |a|
    ensures (a + b)[k..] == a[k..] + b
  {
  }
}
