/** The extension-to-language table of the bundler (wrap_codeblocks.py):
    the `filetypes` mappings of the configuration file first, then the
    `-f ext1,ext2=lang` options, which override them; and the language
    lookup by file extension that consults the table before the lexer
    guesser. */
module Filetypes {
  import opened Text

  /** A `-f` option without `=`; the program reports it and exits with
      status 1. */
  datatype MappingError = InvalidMapping(mapping: string)

  /** `ext.lstrip(".").strip().lower()`. */
  function NormalizeExt(ext: string): (r: string)
    ensures forall i :: 0 <= i < |r| ==> !AsciiUpper(r[i])
    ensures r == [] || (!PySpace(r[0]) && !PySpace(r[|r| - 1]))
  {
    var t := Trim(Python, TrimStartMatches(ext, "."));
    LowerKeepsSpace(t);
    ToLower(t)
  }

  lemma LowerKeepsSpace(t: string)
    requires t == [] || (!PySpace(t[0]) && !PySpace(t[|t| - 1]))
    ensures var r := ToLower(t); r == [] || (!PySpace(r[0]) && !PySpace(r[|r| - 1]))
  {
  }

  /** Normalized names of a comma-separated extension list. */
  function Names(exts: seq<string>): (r: seq<string>)
    ensures |r| == |exts|
  {
    if exts == [] then [] else Names(exts[..|exts| - 1]) + [NormalizeExt(exts[|exts| - 1])]
  }

  /** The entries one mapping assigns, as a table of its own. */
  function Assign(exts: seq<string>, lang: string): (r: map<string, string>)
    ensures forall e :: e in r ==> r[e] == lang
  {
    if exts == [] then map[]
    else
      var e := NormalizeExt(exts[|exts| - 1]);
      var before := Assign(exts[..|exts| - 1], lang);
      if e != [] then before[e := lang] else before
  }

  /** A mapping assigns exactly the non-empty normalized names of its list. */
  lemma {:induction false} AssignKeys(exts: seq<string>, lang: string)
    ensures forall e :: e in Assign(exts, lang) <==> e != [] && e in Names(exts)
  {
    if exts != [] {
      var init := exts[..|exts| - 1];
      AssignKeys(init, lang);
      var e := NormalizeExt(exts[|exts| - 1]);
      forall x ensures x in Assign(exts, lang) <==> x != [] && x in Names(exts) {
        assert x in Names(exts) <==> x in Names(init) || x == e;
      }
    }
  }

  /** One extension set to `lang`, unless it normalizes to nothing. */
  function SetExt(custom: map<string, string>, ext: string, lang: string): map<string, string>
  {
    var e := NormalizeExt(ext);
    if e != [] then custom[e := lang] else custom
  }

  /** The inner loop: set each non-empty normalized extension to `lang`. */
  function AddExts(custom: map<string, string>, exts: seq<string>, lang: string): map<string, string>
  {
    if exts == [] then custom
    else SetExt(AddExts(custom, exts[..|exts| - 1], lang), exts[|exts| - 1], lang)
  }

  /** Setting the extensions one by one overrides the table with the
      whole assignment at once: later mappings win, and keys the mapping
      does not name keep their values. */
  lemma {:induction false} AddExtsOverrides(custom: map<string, string>, exts: seq<string>, lang: string)
    ensures AddExts(custom, exts, lang) == custom + Assign(exts, lang)
  {
    if exts != [] {
      var init := exts[..|exts| - 1];
      AddExtsOverrides(custom, init, lang);
      var e := NormalizeExt(exts[|exts| - 1]);
      if e != [] {
        UpdateUnion(custom, Assign(init, lang), e, lang);
      }
    }
  }

  lemma UpdateUnion(a: map<string, string>, b: map<string, string>, k: string, v: string)
    ensures (a + b)[k := v] == a + b[k := v]
  {
  }

  lemma UnionAssoc(a: map<string, string>, b: map<string, string>, c: map<string, string>)
    ensures a + b + c == a + (b + c)
  {
  }

  /** `mapping.split("=", 1)`: the text before the first `=` and the text
      after it; None when there is no `=`. */
  function SplitMapping(mapping: string): (r: Option<(string, string)>)
    ensures r.None? <==> '=' !in mapping
    ensures r.Some? ==> mapping == r.value.0 + "=" + r.value.1 && '=' !in r.value.0
  {
    match Find(mapping, "=")
    case None =>
      assert forall i :: 0 <= i < |mapping| ==> mapping[i] != '=' by {
        forall i | 0 <= i < |mapping| ensures mapping[i] != '=' {
          assert !OccursAt(mapping, "=", i);
        }
      }
      None
    case Some(i) =>
      assert mapping[i] == '=' by { assert mapping[i..i + 1] == "="; }
      assert '=' !in mapping[..i] by {
        forall j | 0 <= j < i ensures mapping[..i][j] != '=' {
          assert !OccursAt(mapping, "=", j);
          assert mapping[j..j + 1] == [mapping[j]];
        }
      }
      assert mapping == mapping[..i] + "=" + mapping[i + 1..];
      Some((mapping[..i], mapping[i + 1..]))
  }

  /** One `-f` option applied to the table. */
  function ApplyMapping(custom: map<string, string>, mapping: string): Result<map<string, string>, MappingError>
  {
    match SplitMapping(mapping)
    case None => Err(InvalidMapping(mapping))
    case Some((exts, lang)) => Ok(AddExts(custom, Split(exts, ','), lang))
  }

  /** All `-f` options in order; the first one without `=` stops the program. */
  function ApplyMappings(custom: map<string, string>, mappings: seq<string>): Result<map<string, string>, MappingError>
  {
    if mappings == [] then Ok(custom)
    else match ApplyMappings(custom, mappings[..|mappings| - 1])
      case Err(e) => Err(e)
      case Ok(c) => ApplyMapping(c, mappings[|mappings| - 1])
  }

  /** The configuration file's mappings, in the order of the file; each key
      is normalized like an option's extension, and empty keys are skipped. */
  function ConfigTable(config: seq<(string, string)>): map<string, string>
  {
    if config == [] then map[]
    else SetExt(ConfigTable(config[..|config| - 1]), config[|config| - 1].0, config[|config| - 1].1)
  }

  /** The table `build_custom_filetypes` returns, or the option that made it
      exit. */
  function CustomFiletypes(mappings: seq<string>, config: seq<(string, string)>): Result<map<string, string>, MappingError>
  {
    ApplyMappings(ConfigTable(config), mappings)
  }

  /** The builder: the configuration's mappings, then each option's
      extensions one by one; an option without `=` ends the run. */
  method BuildCustomFiletypes(mappings: seq<string>, config: seq<(string, string)>)
    returns (r: Result<map<string, string>, MappingError>)
    ensures r == CustomFiletypes(mappings, config)
  {
    var custom := LoadConfigMappings(config);
    ghost var table := custom;
    for i := 0 to |mappings|
      invariant ApplyMappings(table, mappings[..i]) == Ok(custom)
      invariant forall j :: 0 <= j < i ==> '=' in mappings[j]
    {
      var step := AddMapping(custom, mappings[i]);
      if step.Err? {
        FirstInvalidStops(table, mappings, i);
        return step;
      }
      MappingStep(table, mappings, i, custom);
      assert '=' in mappings[i];
      assert forall j :: 0 <= j < i + 1 ==> '=' in mappings[j];
      custom := step.value;
    }
    assert mappings[..|mappings|] == mappings;
    r := Ok(custom);
  }

  /** One option: split at the first `=`, then set each extension. */
  method AddMapping(custom: map<string, string>, mapping: string) returns (r: Result<map<string, string>, MappingError>)
    ensures r == ApplyMapping(custom, mapping)
    ensures r.Err? <==> '=' !in mapping
    ensures r.Err? ==> r == Err(InvalidMapping(mapping))
  {
    var split := SplitMapping(mapping);
    if split.None? {
      return Err(InvalidMapping(mapping));
    }
    var exts := SetExts(custom, Split(split.value.0, ','), split.value.1);
    r := Ok(exts);
  }

  lemma MappingStep(table: map<string, string>, mappings: seq<string>, i: nat, custom: map<string, string>)
    requires i < |mappings| && ApplyMappings(table, mappings[..i]) == Ok(custom)
    ensures ApplyMappings(table, mappings[..i + 1]) == ApplyMapping(custom, mappings[i])
  {
    assert mappings[..i + 1][..i] == mappings[..i];
  }

  /** The configuration loop. */
  method LoadConfigMappings(config: seq<(string, string)>) returns (custom: map<string, string>)
    ensures custom == ConfigTable(config)
  {
    custom := map[];
    for i := 0 to |config|
      invariant custom == ConfigTable(config[..i])
    {
      ConfigStep(config, i);
      var e := NormalizeExt(config[i].0);
      if e != [] {
        custom := custom[e := config[i].1];
      }
    }
    assert config[..|config|] == config;
  }

  lemma ConfigStep(config: seq<(string, string)>, i: nat)
    requires i < |config|
    ensures ConfigTable(config[..i + 1]) == SetExt(ConfigTable(config[..i]), config[i].0, config[i].1)
  {
    assert config[..i + 1][..i] == config[..i];
  }

  lemma AddExtsStep(custom: map<string, string>, names: seq<string>, j: nat, lang: string)
    requires j < |names|
    ensures AddExts(custom, names[..j + 1], lang) == SetExt(AddExts(custom, names[..j], lang), names[j], lang)
  {
    assert names[..j + 1][..j] == names[..j];
  }

  /** The inner loop of one option. */
  method SetExts(custom: map<string, string>, names: seq<string>, lang: string) returns (r: map<string, string>)
    ensures r == AddExts(custom, names, lang)
  {
    r := custom;
    for j := 0 to |names|
      invariant r == AddExts(custom, names[..j], lang)
    {
      var e := NormalizeExt(names[j]);
      AddExtsStep(custom, names, j, lang);
      if e != [] {
        r := r[e := lang];
      }
    }
    assert names[..|names|] == names;
  }

  /** What the options alone assign, later options overriding earlier ones. */
  function CliTable(mappings: seq<string>): map<string, string>
    requires forall k :: 0 <= k < |mappings| ==> '=' in mappings[k]
  {
    if mappings == [] then map[]
    else
      var (exts, lang) := SplitMapping(mappings[|mappings| - 1]).value;
      CliTable(mappings[..|mappings| - 1]) + Assign(Split(exts, ','), lang)
  }

  /** Options override the configuration: when every option holds an `=`,
      the table is the configuration table overridden by what the options
      assign. */
  lemma {:induction false} OptionsOverrideConfig(custom: map<string, string>, mappings: seq<string>)
    requires forall k :: 0 <= k < |mappings| ==> '=' in mappings[k]
    ensures ApplyMappings(custom, mappings) == Ok(custom + CliTable(mappings))
  {
    if mappings != [] {
      var init := mappings[..|mappings| - 1];
      var last := mappings[|mappings| - 1];
      assert forall k :: 0 <= k < |init| ==> '=' in init[k] by {
        forall k | 0 <= k < |init| ensures '=' in init[k] { assert init[k] == mappings[k]; }
      }
      OptionsOverrideConfig(custom, init);
      var sm := SplitMapping(last).value;
      var exts := Split(sm.0, ',');
      var c := custom + CliTable(init);
      assert ApplyMappings(custom, mappings) == ApplyMapping(c, last);
      assert ApplyMapping(c, last) == Ok(AddExts(c, exts, sm.1));
      assert CliTable(mappings) == CliTable(init) + Assign(exts, sm.1);
      AddExtsOverrides(c, exts, sm.1);
      UnionAssoc(custom, CliTable(init), Assign(exts, sm.1));
    } else {
      assert custom + map[] == custom;
    }
  }

  lemma {:induction false} AllValidOk(custom: map<string, string>, mappings: seq<string>)
    requires forall k :: 0 <= k < |mappings| ==> '=' in mappings[k]
    ensures ApplyMappings(custom, mappings).Ok?
  {
    if mappings != [] {
      var init := mappings[..|mappings| - 1];
      assert forall k :: 0 <= k < |init| ==> '=' in init[k] by {
        forall k | 0 <= k < |init| ensures '=' in init[k] { assert init[k] == mappings[k]; }
      }
      AllValidOk(custom, init);
      assert SplitMapping(mappings[|mappings| - 1]).Some?;
    }
  }

  /** The first option without `=` stops the program, whatever follows it. */
  lemma {:induction false} FirstInvalidStops(custom: map<string, string>, mappings: seq<string>, k: nat)
    requires k < |mappings| && '=' !in mappings[k]
    requires forall j :: 0 <= j < k ==> '=' in mappings[j]
    ensures ApplyMappings(custom, mappings) == Err(InvalidMapping(mappings[k]))
    decreases |mappings|
  {
    var init := mappings[..|mappings| - 1];
    if k < |init| {
      assert init[k] == mappings[k];
      assert forall j :: 0 <= j < k ==> '=' in init[j] by {
        forall j | 0 <= j < k ensures '=' in init[j] { assert init[j] == mappings[j]; }
      }
      FirstInvalidStops(custom, init, k);
      ErrPersists(custom, mappings);
    } else {
      assert k == |mappings| - 1;
      InvalidAfterValid(custom, mappings);
    }
  }

  lemma InvalidAfterValid(custom: map<string, string>, mappings: seq<string>)
    requires mappings != [] && '=' !in mappings[|mappings| - 1]
    requires forall j :: 0 <= j < |mappings| - 1 ==> '=' in mappings[j]
    ensures ApplyMappings(custom, mappings) == Err(InvalidMapping(mappings[|mappings| - 1]))
  {
    var init := mappings[..|mappings| - 1];
    assert forall j :: 0 <= j < |init| ==> '=' in init[j] by {
      forall j | 0 <= j < |init| ensures '=' in init[j] { assert init[j] == mappings[j]; }
    }
    AllValidOk(custom, init);
    InvalidLast(custom, mappings);
  }

  lemma ErrPersists(custom: map<string, string>, mappings: seq<string>)
    requires mappings != [] && ApplyMappings(custom, mappings[..|mappings| - 1]).Err?
    ensures ApplyMappings(custom, mappings) == ApplyMappings(custom, mappings[..|mappings| - 1])
  {
  }

  lemma InvalidLast(custom: map<string, string>, mappings: seq<string>)
    requires mappings != [] && ApplyMappings(custom, mappings[..|mappings| - 1]).Ok?
    requires '=' !in mappings[|mappings| - 1]
    ensures ApplyMappings(custom, mappings) == Err(InvalidMapping(mappings[|mappings| - 1]))
  {
    assert SplitMapping(mappings[|mappings| - 1]).None?;
  }

  /** Every key of the table is a non-empty normalized extension: no ASCII
      upper case and no surrounding whitespace. */
  lemma {:induction false} KeysNormalized(mappings: seq<string>, config: seq<(string, string)>)
    requires CustomFiletypes(mappings, config).Ok?
    ensures forall k :: k in CustomFiletypes(mappings, config).value ==> Normalized(k)
  {
    ConfigKeys(config);
    MappingKeys(ConfigTable(config), mappings);
  }

  /** A non-empty extension with no ASCII upper case and no surrounding
      whitespace. */
  predicate Normalized(k: string)
  {
    k != [] && (forall i :: 0 <= i < |k| ==> !AsciiUpper(k[i])) && !PySpace(k[0]) && !PySpace(k[|k| - 1])
  }

  ghost predicate GoodKeys(m: map<string, string>)
  {
    forall k :: k in m ==> Normalized(k)
  }

  lemma {:induction false} ConfigKeys(config: seq<(string, string)>)
    ensures GoodKeys(ConfigTable(config))
  {
    if config != [] {
      ConfigKeys(config[..|config| - 1]);
    }
  }

  lemma {:induction false} MappingKeys(custom: map<string, string>, mappings: seq<string>)
    requires GoodKeys(custom)
    requires ApplyMappings(custom, mappings).Ok?
    ensures GoodKeys(ApplyMappings(custom, mappings).value)
  {
    if mappings != [] {
      MappingKeys(custom, mappings[..|mappings| - 1]);
      var c := ApplyMappings(custom, mappings[..|mappings| - 1]).value;
      var (exts, lang) := SplitMapping(mappings[|mappings| - 1]).value;
      AddExtsKeys(c, Split(exts, ','), lang);
    }
  }

  lemma {:induction false} AddExtsKeys(custom: map<string, string>, exts: seq<string>, lang: string)
    requires GoodKeys(custom)
    ensures GoodKeys(AddExts(custom, exts, lang))
  {
    if exts != [] {
      AddExtsKeys(custom, exts[..|exts| - 1], lang);
    }
  }

  // ---------------------------------------------------------------------
  // Looking up a file's language

  /** `os.path.splitext(path)[1]` for a POSIX path: from the last dot of
      the last path segment, provided that segment has a character other
      than a dot before it (so `.bashrc` has no extension); otherwise "". */
  function SplitExt(path: string): (ext: string)
    ensures ext == [] || (ext[0] == '.' && '/' !in ext)
    ensures ext == [] || EndsWith(path, ext)
  {
    var sep: int := match RFind(path, "/") case None => -1 case Some(i) => i;
    match RFind(path, ".")
    case None => []
    case Some(dot) =>
      if dot > sep && exists j :: sep + 1 <= j < dot && path[j] != '.' then
        assert path[dot] == '.' by { assert path[dot..dot + 1] == "."; }
        assert '/' !in path[dot..] by {
          forall j | 0 <= j < |path[dot..]| ensures path[dot..][j] != '/' {
            assert !OccursAt(path, "/", dot + j);
            assert path[dot + j..dot + j + 1] == [path[dot + j]];
          }
        }
        assert path == path[..dot] + path[dot..];
        path[dot..]
      else []
  }

  /** `detect_language`: the table wins for an extension it holds; only
      otherwise is the lexer guesser (`guess`, which stands for the
      Pygments lookup by file name) asked. */
  function DetectLanguage(path: string, custom: map<string, string>, guess: string -> Option<string>): (r: Option<string>)
    ensures var ext := ToLower(TrimStartMatches(SplitExt(path), "."));
      && (ext in custom ==> r == Some(custom[ext]))
      && (ext !in custom ==> r == guess(path))
  {
    var ext := ToLower(TrimStartMatches(SplitExt(path), "."));
    if ext in custom then Some(custom[ext]) else guess(path)
  }

  /** A file name that is only dots and a name, like `.bashrc`, has no
      extension, and no table the program builds holds the empty
      extension: such files are always left to the guesser. */
  lemma DotfileGoesToGuesser(dir: string, name: string, mappings: seq<string>, config: seq<(string, string)>, guess: string -> Option<string>)
    requires '.' !in name && '/' !in name && '/' !in dir
    requires CustomFiletypes(mappings, config).Ok?
    ensures var path := dir + "/." + name;
      SplitExt(path) == [] &&
      DetectLanguage(path, CustomFiletypes(mappings, config).value, guess) == guess(path)
  {
    var path := dir + "/." + name;
    var sepAt := |dir|;
    assert path[sepAt] == '/';
    assert OccursAt(path, "/", sepAt) by { assert path[sepAt..sepAt + 1] == "/"; }
    forall j | sepAt < j ensures !OccursAt(path, "/", j) {
      if j + 1 <= |path| {
        assert path[j] == ("." + name)[j - sepAt - 1];
        assert path[j..j + 1] == [path[j]];
      }
    }
    assert RFind(path, "/") == Some(sepAt);
    forall j | sepAt + 1 < j ensures !OccursAt(path, ".", j) {
      if j + 1 <= |path| {
        assert path[j] == name[j - sepAt - 2];
        assert path[j..j + 1] == [path[j]];
      }
    }
    assert OccursAt(path, ".", sepAt + 1) by { assert path[sepAt + 1..sepAt + 2] == "."; }
    KeysNormalized(mappings, config);
    assert TrimStartMatches([], ".") == [];
  }

  /** The extension of a path whose last dot follows a character other
      than a dot or a slash. */
  lemma SplitExtAt(path: string, dot: nat)
    requires 0 < dot < |path| && path[dot] == '.' && path[dot - 1] != '.' && path[dot - 1] != '/'
    requires forall j :: dot < j < |path| ==> path[j] != '.' && path[j] != '/'
    ensures SplitExt(path) == path[dot..]
  {
    assert OccursAt(path, ".", dot) by { assert path[dot..dot + 1] == "."; }
    forall j | dot < j ensures !OccursAt(path, ".", j) && !OccursAt(path, "/", j) {
      if j + 1 <= |path| {
        assert path[j..j + 1] == [path[j]];
      }
    }
    assert !OccursAt(path, "/", dot) && !OccursAt(path, "/", dot - 1) by {
      assert path[dot..dot + 1] == [path[dot]];
      assert path[dot - 1..dot] == [path[dot - 1]];
    }
    var sep: int := match RFind(path, "/") case None => -1 case Some(i) => i;
    assert sep < dot - 1;
    assert sep + 1 <= dot - 1 < dot && path[dot - 1] != '.';
  }

  /** A file whose name ends in `.ext` gets the table's language for the
      lower-cased `ext`, whatever the guesser would say. */
  lemma ExtensionUsesTable(base: string, ext: string, custom: map<string, string>, guess: string -> Option<string>)
    requires base != [] && base[|base| - 1] != '.' && base[|base| - 1] != '/'
    requires ext != [] && '.' !in ext && '/' !in ext
    requires ToLower(ext) in custom
    ensures DetectLanguage(base + "." + ext, custom, guess) == Some(custom[ToLower(ext)])
  {
    var path := base + "." + ext;
    var dot := |base|;
    forall j | dot < j < |path| ensures path[j] != '.' && path[j] != '/' {
      assert path[j] == ext[j - dot - 1];
    }
    SplitExtAt(path, dot);
    assert path[dot..] == "." + ext;
    assert TrimStartMatches("." + ext, ".") == ext by {
      assert ("." + ext)[1..] == ext;
      assert !StartsWith(ext, ".") by { assert ext[0] != '.'; }
    }
  }
}
