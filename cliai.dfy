/*
 * The two text helpers of the command generator: stripping Markdown code
 * fences from a model's JSON answer, and pulling the command string out of
 * JSON that failed to parse.
 */
module CliAi {
  import opened Text

  const Fence := "```"
  const JsonFence := "```json"

  /** `s` without the prefix `p`, or `s` itself when it does not start
      with `p`. */
  function StripPrefix(s: string, p: string): (r: string)
    ensures StartsWith(s, p) ==> s == p + r
    ensures !StartsWith(s, p) ==> r == s
  {
    if StartsWith(s, p) then s[|p|..] else s
  }

  /** `s` without the suffix `p`, or `s` itself when it does not end
      with `p`. */
  function StripSuffix(s: string, p: string): (r: string)
    ensures EndsWith(s, p) ==> s == r + p
    ensures !EndsWith(s, p) ==> r == s
  {
    if EndsWith(s, p) then s[..|s| - |p|] else s
  }

  /** The answer without surrounding whitespace and without an opening
      "```json" or "```" fence and a closing "```" fence. */
  function CleanJsonOutput(raw: string): (r: string)
    ensures Trimmed(Rust, r)
    ensures !StartsWith(Trim(Rust, raw), Fence) ==> r == Trim(Rust, raw)
  {
    var trimmed := Trim(Rust, raw);
    JsonFenceIsFence(trimmed);
    if StartsWith(trimmed, JsonFence) then
      Trim(Rust, StripSuffix(StripPrefix(trimmed, JsonFence), Fence))
    else if StartsWith(trimmed, Fence) then
      Trim(Rust, StripSuffix(StripPrefix(trimmed, Fence), Fence))
    else trimmed
  }

  lemma JsonFenceIsFence(s: string)
    ensures StartsWith(s, JsonFence) ==> StartsWith(s, Fence)
  {
    if StartsWith(s, JsonFence) {
      assert s[..3] == s[..7][..3];
    }
  }

  /** Stripping a prefix and a suffix undoes putting them on. */
  lemma StripBoth(p: string, m: string, q: string)
    ensures StripSuffix(StripPrefix(p + m + q, p), q) == m
  {
    var s := p + m + q;
    assert s[..|p|] == p;
    assert s[|p|..] == m + q;
    assert (m + q)[|m|..] == q;
    assert (m + q)[..|m|] == m;
  }

  /** A body without surrounding whitespace, on its own lines between
      an opening and a closing fence, comes back as it is. */
  lemma FencedRoundTrip(opening: string, body: string)
    requires opening == JsonFence || opening == Fence
    requires Trimmed(Rust, body)
    ensures CleanJsonOutput(opening + "\n" + body + "\n" + Fence) == body
  {
    var m := "\n" + body + "\n";
    assert CleanJsonOutput(opening + m + Fence) == Trim(Rust, m) by {
      FencedClean(opening, m);
    }
    assert Trim(Rust, m) == body by {
      TrimLines(body);
    }
    assert opening + "\n" + body + "\n" == opening + m by {
      AppendAssoc(opening, "\n" + body, "\n");
      AppendAssoc(opening, "\n", body);
    }
  }

  /** Whatever stands on its own lines between the fences is what the
      cleaning trims. */
  lemma FencedClean(opening: string, m: string)
    requires opening == JsonFence || opening == Fence
    requires m != [] && m[0] == '\n'
    ensures CleanJsonOutput(opening + m + Fence) == Trim(Rust, m)
  {
    if opening == Fence {
      PlainFenced(m);
    } else {
      JsonFenced(m);
    }
  }

  lemma JsonFenced(m: string)
    ensures CleanJsonOutput(JsonFence + m + Fence) == Trim(Rust, m)
  {
    var s := JsonFence + m + Fence;
    assert CleanJsonOutput(s) == Trim(Rust, StripSuffix(StripPrefix(s, JsonFence), Fence)) by {
      FencedEdges(JsonFence, m);
      CleanOpened(s, JsonFence);
    }
    StripBoth(JsonFence, m, Fence);
  }

  lemma PlainFenced(m: string)
    requires m != [] && m[0] == '\n'
    ensures CleanJsonOutput(Fence + m + Fence) == Trim(Rust, m)
  {
    var s := Fence + m + Fence;
    assert CleanJsonOutput(s) == Trim(Rust, StripSuffix(StripPrefix(s, Fence), Fence)) by {
      FencedEdges(Fence, m);
      PlainFenceNotJson(m);
      CleanOpened(s, Fence);
    }
    StripBoth(Fence, m, Fence);
  }

  /** A trimmed answer that opens with a fence loses that fence and a
      closing one. */
  lemma CleanOpened(s: string, opening: string)
    requires Trim(Rust, s) == s
    requires (opening == JsonFence && StartsWith(s, JsonFence))
          || (opening == Fence && StartsWith(s, Fence) && !StartsWith(s, JsonFence))
    ensures CleanJsonOutput(s) == Trim(Rust, StripSuffix(StripPrefix(s, opening), Fence))
  {
  }

  /** The text between fences, fenced, is already trimmed and starts with
      its opening. */
  lemma FencedEdges(opening: string, m: string)
    requires opening == JsonFence || opening == Fence
    ensures Trim(Rust, opening + m + Fence) == opening + m + Fence
    ensures StartsWith(opening + m + Fence, opening)
  {
    var s := opening + m + Fence;
    assert opening[0] == '`' && Fence[2] == '`';
    assert s[0] == '`' && s[|s| - 1] == '`';
    BacktickEdges(s);
    assert s[..|opening|] == opening;
  }

  lemma BacktickEdges(s: string)
    requires s != [] && s[0] == '`' && s[|s| - 1] == '`'
    ensures Trim(Rust, s) == s
  {
    TrimUnchanged(Rust, s);
  }

  lemma PlainFenceNotJson(m: string)
    requires m != [] && m[0] == '\n'
    ensures !StartsWith(Fence + m + Fence, JsonFence)
  {
    var s := Fence + m + Fence;
    assert s[3] == m[0];
    if StartsWith(s, JsonFence) {
      assert s[3] == s[..7][3];
    }
  }

  /** A fence that is never closed is still removed. */
  lemma UnclosedFence(body: string)
    requires Trimmed(Rust, body)
    requires !EndsWith(body, Fence)
    ensures CleanJsonOutput(JsonFence + "\n" + body) == body
  {
    var s := JsonFence + "\n" + body;
    assert s[..|JsonFence|] == JsonFence;
    assert StripPrefix(s, JsonFence) == "\n" + body by {
      assert s[|JsonFence|..] == "\n" + body;
    }
    if body == [] {
      assert s == JsonFence + "\n";
      TrimStartNonSpace(s);
      TrimEndSpace(Rust, JsonFence, '\n');
      TrimEndNonSpace(JsonFence);
      assert Trim(Rust, s) == JsonFence;
      assert StripPrefix(JsonFence, JsonFence) == [];
    } else {
      assert s[0] == '`' && s[|s| - 1] == body[|body| - 1];
      TrimUnchanged(Rust, s);
      assert !EndsWith("\n" + body, Fence) by {
        if |body| >= |Fence| {
          assert ("\n" + body)[|"\n" + body| - |Fence|..] == body[|body| - |Fence|..];
        }
      }
      TrimStartLine(body);
    }
  }

  lemma TrimStartNonSpace(s: string)
    requires s != [] && !RustSpace(s[0])
    ensures TrimStart(Rust, s) == s
  {
  }

  lemma TrimEndNonSpace(s: string)
    requires s != [] && !RustSpace(s[|s| - 1])
    ensures TrimEnd(Rust, s) == s
  {
  }

  /** A line break on each side trims away. */
  lemma TrimLines(body: string)
    requires Trimmed(Rust, body)
    ensures Trim(Rust, "\n" + body + "\n") == body
  {
    assert "\n" + body + "\n" == ['\n'] + (body + "\n");
    TrimStartSpace(Rust, '\n', body + "\n");
    if body == [] {
      assert body + "\n" == ['\n'] + [];
      TrimStartSpace(Rust, '\n', []);
    } else {
      assert (body + "\n")[0] == body[0];
      TrimStartNonSpace(body + "\n");
      TrimEndSpace(Rust, body, '\n');
      TrimEndNonSpace(body);
    }
  }

  lemma TrimStartLine(body: string)
    requires Trimmed(Rust, body) && body != []
    ensures Trim(Rust, "\n" + body) == body
  {
    TrimStartSpace(Rust, '\n', body);
    TrimStartNonSpace(body);
    TrimEndNonSpace(body);
  }

  // ---------------------------------------------------------------------
  // The fallback extractor

  const CommandKey := "\"command\""

  /** The command string of malformed JSON: after the first `"command"`,
      the first colon; after it and any whitespace, a quote; the command
      is what follows up to the next quote. */
  function ExtractCommandFallback(json: string): (r: Option<string>)
    ensures r.Some? ==> forall i :: 0 <= i < |r.value| ==> r.value[i] != '"'
  {
    match Find(json, CommandKey)
    case None => None
    case Some(start) =>
      var afterCommand := json[start..];
      match Find(afterCommand, ":")
      case None => None
      case Some(colonPos) =>
        var afterColon := Trim(Rust, afterCommand[colonPos + 1..]);
        if StartsWith(afterColon, "\"") then
          var afterQuote := afterColon[1..];
          match Find(afterQuote, "\"")
          case None => None
          case Some(endQuote) =>
            QuoteFree(afterQuote, endQuote);
            Some(afterQuote[..endQuote])
        else None
  }

  lemma QuoteFree(s: string, end: nat)
    requires end <= |s| && forall j :: 0 <= j < end ==> !OccursAt(s, "\"", j)
    ensures forall i :: 0 <= i < end ==> s[..end][i] != '"'
  {
    forall i | 0 <= i < end
      ensures s[..end][i] != '"'
    {
      assert !OccursAt(s, "\"", i);
      assert s[i..i + 1] == [s[i]];
    }
  }

  /** Text without the key gives nothing. */
  lemma NoKeyNoCommand(json: string)
    requires !Contains(json, CommandKey)
    ensures ExtractCommandFallback(json) == None
  {
  }

  /** Well-formed JSON holding only the command gives the command back. */
  lemma CommandRoundTrip(command: string)
    requires forall i :: 0 <= i < |command| ==> command[i] != '"'
    ensures ExtractCommandFallback("{" + CommandKey + ": \"" + command + "\"}") == Some(command)
  {
    var quoted := "\"" + command + "\"}";
    var afterCommand := CommandKey + ": " + quoted;
    assert "{" + CommandKey + ": \"" + command + "\"}" == "{" + afterCommand by {
      assert ": \"" + command == ": " + ("\"" + command);
      assert ": \"" + command + "\"}" == ": " + quoted;
    }
    KeyFound(afterCommand);
    ColonFound(quoted);
    QuotedCommand(command);
  }

  lemma KeyFound(afterCommand: string)
    requires StartsWith(afterCommand, CommandKey)
    ensures Find("{" + afterCommand, CommandKey) == Some(1)
    ensures ("{" + afterCommand)[1..] == afterCommand
  {
    var json := "{" + afterCommand;
    assert json[1..] == afterCommand;
    assert json[1..10] == afterCommand[..9];
    assert json[0..9][0] == '{' != CommandKey[0];
    FindAt(json, CommandKey, 1);
  }

  lemma ColonFound(quoted: string)
    ensures StartsWith(CommandKey + ": " + quoted, CommandKey)
    ensures Find(CommandKey + ": " + quoted, ":") == Some(9)
    ensures (CommandKey + ": " + quoted)[10..] == [' '] + quoted
  {
    var afterCommand := CommandKey + ": " + quoted;
    assert afterCommand[..9] == CommandKey;
    forall j | 0 <= j < 9
      ensures !OccursAt(afterCommand, ":", j)
    {
      assert afterCommand[j] == CommandKey[j];
      CharAt(afterCommand, ':', j);
    }
    CharAt(afterCommand, ':', 9);
    FindAt(afterCommand, ":", 9);
  }

  lemma QuotedCommand(command: string)
    requires forall i :: 0 <= i < |command| ==> command[i] != '"'
    ensures Trim(Rust, [' '] + ("\"" + command + "\"}")) == "\"" + command + "\"}"
    ensures StartsWith("\"" + command + "\"}", "\"")
    ensures ("\"" + command + "\"}")[1..] == command + "\"}"
    ensures Find(command + "\"}", "\"") == Some(|command|)
    ensures (command + "\"}")[..|command|] == command
  {
    QuotedTrim("\"" + command + "\"}");
    var quoted := "\"" + command + "\"}";
    assert quoted[1..] == command + "\"}";
    assert quoted[..1] == "\"";
    ClosingQuoteFound(command);
  }

  lemma QuotedTrim(quoted: string)
    requires |quoted| >= 2 && quoted[0] == '"' && quoted[|quoted| - 1] == '}'
    ensures Trim(Rust, [' '] + quoted) == quoted
  {
    TrimStartSpace(Rust, ' ', quoted);
    TrimStartNonSpace(quoted);
    TrimEndNonSpace(quoted);
  }

  lemma ClosingQuoteFound(command: string)
    requires forall i :: 0 <= i < |command| ==> command[i] != '"'
    ensures Find(command + "\"}", "\"") == Some(|command|)
    ensures (command + "\"}")[..|command|] == command
  {
    var afterQuote := command + "\"}";
    forall j | 0 <= j < |command|
      ensures !OccursAt(afterQuote, "\"", j)
    {
      assert afterQuote[j] == command[j];
      CharAt(afterQuote, '"', j);
    }
    CharAt(afterQuote, '"', |command|);
    FindAt(afterQuote, "\"", |command|);
  }

  /** The first occurrence is found. */
  lemma FindAt(s: string, p: string, k: nat)
    requires OccursAt(s, p, k) && forall j :: 0 <= j < k ==> !OccursAt(s, p, j)
    ensures Find(s, p) == Some(k)
  {
    assert Contains(s, p);
  }

  /** A one-character pattern occurs exactly where that character is. */
  lemma CharAt(s: string, c: char, j: nat)
    ensures OccursAt(s, [c], j) <==> j < |s| && s[j] == c
  {
    if j < |s| {
      assert s[j..j + 1] == [s[j]];
    }
  }
}
