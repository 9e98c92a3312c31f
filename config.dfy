/** `torchext.config`: configuration values live in the module's own
    namespace (`globals()`), a mutable key-to-value dictionary. `_load`
    applies a list of configuration items in order (a YAML file path, or a
    `key=value` string whose value is coerced to int, float, boolean, None
    or string); the saved `config.yml` of the model directory, when it
    exists, goes first, so the command line overrides it.

    The file system is a parameter: the paths that exist, each with what
    `yaml.load` makes of it. Python's `int()` and `float()` on a string are
    parameters too: they either parse it or reject it. */
module Config {
  import opened Common
  import opened Strings

  const ConfigFileName: string := "config.yml"

  /** A configuration value: what `int()`/`float()`/the keywords give for a
      command-line value, or what YAML gives for a file entry. A float is
      kept as its IEEE bits; `Other` stands for any YAML value the model
      does not look into (a list, a nested mapping, a date). */
  datatype Value =
    | Int(i: int)
    | Float(bits: bv64)
    | Bool(b: bool)
    | Null
    | Str(s: string)
    | Other(id: nat)

  /** Python's `int(v)` and `float(v)`: a value, or `None` for a
      `ValueError`. */
  datatype Parsers = Parsers(parseInt: string -> Option<int>, parseFloat: string -> Option<bv64>)

  /** What `yaml.load` gives for a file: a mapping, with its entries in
      file order, or anything else (a scalar, a list, `None` for an empty
      file), which has no `items()`. */
  datatype Yaml = Mapping(pairs: seq<(string, Value)>) | NotMapping

  /** The paths that exist, with their YAML content. */
  datatype FileSystem = FileSystem(files: map<string, Yaml>)

  datatype LoadError =
    | InvalidModelDir(dir: string)       // "{} is an invalid model directory."
    | MissingConfigFile(path: string)    // "The configuration file doesn't exist; {}"
    | NoItems(path: string)              // `obj.items()` on a YAML document that is no mapping

  // =====================================================================
  // Items: `cfg.split("=", 1)`, both parts stripped

  datatype Item = FilePath(path: string) | Assignment(key: string, value: string)

  /** The index of the first occurrence of `c`. */
  function FirstIndex(s: string, c: char): (i: nat)
    requires c in s
    ensures i < |s| && s[i] == c && c !in s[..i]
  {
    if s[0] == c then 0
    else
      var i := FirstIndex(s[1..], c);
      assert s[1..][..i] == s[1..i + 1];
      i + 1
  }

  /** The first occurrence is the one with no earlier occurrence. */
  lemma {:induction false} FirstIndexAt(s: string, c: char, k: nat)
    requires k < |s| && s[k] == c && c !in s[..k]
    ensures c in s && FirstIndex(s, c) == k
  {
    assert s[k] in s;
    if k > 0 {
      assert s[0] == s[..k][0];
      assert s[1..][..k - 1] == s[..k][1..];
      FirstIndexAt(s[1..], c, k - 1);
    }
  }

  /** An item with no `=` is a file path, used exactly as given; otherwise
      the key is the stripped text before the first `=` and the value the
      stripped text after it (later `=` stay in the value). */
  function SplitItem(cfg: string): (r: Item)
    ensures r.FilePath? <==> '=' !in cfg
    ensures r.FilePath? ==> r.path == cfg
    ensures r.Assignment? ==> var i := FirstIndex(cfg, '=');
      r.key == Strip(cfg[..i]) && r.value == Strip(cfg[i + 1..])
  {
    if '=' !in cfg then FilePath(cfg)
    else
      var i := FirstIndex(cfg, '=');
      var before, after := cfg[..i], cfg[i + 1..];
      Assignment(Strip(before), Strip(after))
  }

  /** Writing `key=value` for a key with no `=` and no surrounding blanks,
      and a value with no surrounding blanks, splits back into that key
      and value, whatever `=` the value contains. */
  lemma SplitJoin(key: string, value: string)
    requires '=' !in key
    requires key == [] || (!IsSpace(key[0]) && !IsSpace(key[|key| - 1]))
    requires value == [] || (!IsSpace(value[0]) && !IsSpace(value[|value| - 1]))
    ensures SplitItem(key + "=" + value) == Assignment(key, value)
  {
    var cfg := key + "=" + value;
    assert cfg[|key|] == '=' && cfg[..|key|] == key;
    FirstIndexAt(cfg, '=', |key|);
    assert cfg[|key| + 1..] == value;
    StripUnpadded(key);
    StripUnpadded(value);
  }

  lemma StripUnpadded(s: string)
    requires s == [] || (!IsSpace(s[0]) && !IsSpace(s[|s| - 1]))
    ensures Strip(s) == s
  {
    StripSurrounded([], s, []);
    assert [] + s + [] == s;
  }

  // =====================================================================
  // Coercion: `int(v)`, else `float(v)`, else the keywords, else `v`

  /** `v.lower().strip()` compared with the three keywords. */
  function Keyword(v: string): (r: Option<Value>)
    ensures r == Some(Bool(true)) <==> Strip(AsciiLower(v)) == "true"
    ensures r == Some(Bool(false)) <==> Strip(AsciiLower(v)) == "false"
    ensures r == Some(Null) <==> Strip(AsciiLower(v)) == "null"
    ensures r.Some? ==> r.value in {Bool(true), Bool(false), Null}
  {
    var norm := Strip(AsciiLower(v));
    if norm == "true" then Some(Bool(true))
    else if norm == "false" then Some(Bool(false))
    else if norm == "null" then Some(Null)
    else None
  }

  /** The coerced value: an int when `int(v)` accepts it; else a float when
      `float(v)` does; else `True`, `False` or `None` for the keywords in
      any letter case; else the string itself. */
  function Coerce(ps: Parsers, v: string): (r: Value)
    ensures ps.parseInt(v).Some? ==> r == Int(ps.parseInt(v).value)
    ensures ps.parseInt(v).None? && ps.parseFloat(v).Some? ==> r == Float(ps.parseFloat(v).value)
    ensures ps.parseInt(v).None? && ps.parseFloat(v).None? ==>
      && (r == Bool(true) <==> Strip(AsciiLower(v)) == "true")
      && (r == Bool(false) <==> Strip(AsciiLower(v)) == "false")
      && (r == Null <==> Strip(AsciiLower(v)) == "null")
      && (Strip(AsciiLower(v)) !in {"true", "false", "null"} ==> r == Str(v))
    ensures r.Bool? || r.Null? ==> ps.parseInt(v).None? && ps.parseFloat(v).None?
  {
    match ps.parseInt(v)
    case Some(i) => Int(i)
    case None =>
      match ps.parseFloat(v)
      case Some(f) => Float(f)
      case None =>
        match Keyword(v)
        case Some(k) => k
        case None => Str(v)
  }

  /** The keywords ignore letter case: two values that differ only in the
      case of ASCII letters, and that neither parser accepts, coerce alike
      when either is a keyword. */
  lemma KeywordCaseInsensitive(ps: Parsers, v: string, w: string)
    requires AsciiLower(v) == AsciiLower(w)
    requires ps.parseInt(v).None? && ps.parseFloat(v).None?
    requires ps.parseInt(w).None? && ps.parseFloat(w).None?
    ensures Coerce(ps, v).Str? <==> Coerce(ps, w).Str?
    ensures !Coerce(ps, v).Str? ==> Coerce(ps, v) == Coerce(ps, w)
  {
    assert Keyword(v) == Keyword(w);
  }

  // =====================================================================
  // `_dict`

  /** The public configuration: the entries whose key does not start with
      `_` (the module's own names all do), with their values. */
  function Public(m: map<string, Value>): (r: map<string, Value>)
    ensures forall k :: k in r <==> k in m && !StartsWith(k, "_")
    ensures forall k :: k in r ==> r[k] == m[k]
  {
    map k | k in m && !StartsWith(k, "_") :: m[k]
  }

  /** An update shows in `_dict` exactly when its key is public. */
  lemma PublicUpdate(m: map<string, Value>, k: string, v: Value)
    ensures Public(m[k := v]) == if StartsWith(k, "_") then Public(m) else Public(m)[k := v]
  {
    if StartsWith(k, "_") {
      assert Public(m[k := v]) == Public(m);
    } else {
      assert Public(m[k := v]) == Public(m)[k := v];
    }
  }

  // =====================================================================
  // Applying items, as functions of the entries before

  /** `for k, v in obj.items(): _update(k, v)`. */
  function Assign(entries: map<string, Value>, pairs: seq<(string, Value)>): (r: map<string, Value>)
    ensures forall k :: k in r <==> k in entries || exists j :: 0 <= j < |pairs| && pairs[j].0 == k
    decreases |pairs|
  {
    if pairs == [] then entries
    else
      var r := Assign(entries[pairs[0].0 := pairs[0].1], pairs[1..]);
      assert forall j :: 0 < j < |pairs| ==> pairs[j] == pairs[1..][j - 1];
      r
  }

  /** The entries after one item, and the error it raised, if any. */
  datatype Applied = Applied(entries: map<string, Value>, error: Option<LoadError>)

  /** One item: a path that does not exist raises `MissingConfigFile`, a
      YAML document that is not a mapping raises `NoItems` (`obj.items()`
      fails), and an item that raises changes nothing. */
  function ApplyItem(entries: map<string, Value>, cfg: string, fs: FileSystem, ps: Parsers): (r: Applied)
    ensures r.error == Some(MissingConfigFile(cfg)) <==> '=' !in cfg && cfg !in fs.files
    ensures r.error == Some(NoItems(cfg)) <==> '=' !in cfg && cfg in fs.files && fs.files[cfg].NotMapping?
    ensures r.error.Some? ==> r.error.value in {MissingConfigFile(cfg), NoItems(cfg)} && r.entries == entries
  {
    match SplitItem(cfg)
    case FilePath(path) =>
      if path !in fs.files then Applied(entries, Some(MissingConfigFile(path)))
      else (
        match fs.files[path]
        case NotMapping => Applied(entries, Some(NoItems(path)))
        case Mapping(pairs) => Applied(Assign(entries, pairs), None)
      )
    case Assignment(key, value) => Applied(entries[key := Coerce(ps, value)], None)
  }

  /** The items in list order; the first error stops the loop and leaves
      the updates made before it in place. */
  function ApplyItems(entries: map<string, Value>, items: seq<string>, fs: FileSystem, ps: Parsers): (r: Applied)
    ensures items == [] ==> r == Applied(entries, None)
    ensures r.error.Some? ==> exists i :: 0 <= i < |items| && r.error.value in {MissingConfigFile(items[i]), NoItems(items[i])}
    decreases |items|
  {
    if items == [] then Applied(entries, None)
    else
      var first := ApplyItem(entries, items[0], fs, ps);
      if first.error.Some? then first else ApplyItems(first.entries, items[1..], fs, ps)
  }

  /** The loop over `a + b` is the loop over `a`, then, unless that raised,
      the loop over `b` from where `a` left the entries. */
  lemma {:induction false} ApplyItemsAppend(entries: map<string, Value>, a: seq<string>, b: seq<string>, fs: FileSystem, ps: Parsers)
    ensures var r := ApplyItems(entries, a, fs, ps);
      ApplyItems(entries, a + b, fs, ps) == if r.error.Some? then r else ApplyItems(r.entries, b, fs, ps)
    decreases |a|
  {
    if a == [] {
      assert a + b == b;
    } else {
      assert (a + b)[0] == a[0] && (a + b)[1..] == a[1..] + b;
      var first := ApplyItem(entries, a[0], fs, ps);
      if first.error.None? {
        ApplyItemsAppend(first.entries, a[1..], b, fs, ps);
      }
    }
  }

  /** The first item that raises stops the loop: its error is the result,
      the items after it are never applied, and the updates of the items
      before it stay in place. */
  lemma FirstErrorStops(entries: map<string, Value>, items: seq<string>, fs: FileSystem, ps: Parsers, i: nat)
    requires i < |items| && ApplyItems(entries, items[..i], fs, ps).error.None?
    requires ApplyItem(ApplyItems(entries, items[..i], fs, ps).entries, items[i], fs, ps).error.Some?
    ensures var before := ApplyItems(entries, items[..i], fs, ps).entries;
      ApplyItems(entries, items, fs, ps) == Applied(before, ApplyItem(before, items[i], fs, ps).error)
  {
    var before := ApplyItems(entries, items[..i], fs, ps).entries;
    ResumeAt(entries, items, fs, ps, i);
    ErrorAtHead(before, items[i..], fs, ps);
  }

  /** A loop that got through the first `i` items without error goes on
      with the rest from where they left the entries. */
  lemma ResumeAt(entries: map<string, Value>, items: seq<string>, fs: FileSystem, ps: Parsers, i: nat)
    requires i < |items| && ApplyItems(entries, items[..i], fs, ps).error.None?
    ensures var before := ApplyItems(entries, items[..i], fs, ps).entries;
      items[i..] != [] && items[i..][0] == items[i] &&
      ApplyItems(entries, items, fs, ps) == ApplyItems(before, items[i..], fs, ps)
  {
    ApplyItemsSplit(entries, items, fs, ps, i);
  }

  lemma {:induction false} ApplyItemsSplit(entries: map<string, Value>, items: seq<string>, fs: FileSystem, ps: Parsers, i: nat)
    requires i <= |items|
    ensures var r := ApplyItems(entries, items[..i], fs, ps);
      ApplyItems(entries, items, fs, ps) == if r.error.Some? then r else ApplyItems(r.entries, items[i..], fs, ps)
    decreases i
  {
    if i == 0 {
      assert items[..0] == [] && items[0..] == items;
    } else {
      var first := ApplyItem(entries, items[0], fs, ps);
      assert items[..i][0] == items[0] && items[..i][1..] == items[1..][..i - 1];
      assert items[1..][i - 1..] == items[i..];
      if first.error.None? {
        ApplyItemsSplit(first.entries, items[1..], fs, ps, i - 1);
      }
    }
  }

  lemma ErrorAtHead(entries: map<string, Value>, items: seq<string>, fs: FileSystem, ps: Parsers)
    requires items != [] && ApplyItem(entries, items[0], fs, ps).error.Some?
    ensures ApplyItems(entries, items, fs, ps) == Applied(entries, ApplyItem(entries, items[0], fs, ps).error)
  {
  }

  /** Whether an item writes `key` (when it applies at all). */
  predicate Touches(cfg: string, key: string, fs: FileSystem)
  {
    match SplitItem(cfg)
    case Assignment(k, _) => k == key
    case FilePath(path) =>
      path in fs.files && fs.files[path].Mapping?
      && exists j :: 0 <= j < |fs.files[path].pairs| && fs.files[path].pairs[j].0 == key
  }

  /** A key no pair names keeps its entry, or its absence. */
  lemma {:induction false} AssignUntouched(entries: map<string, Value>, pairs: seq<(string, Value)>, key: string)
    requires forall j :: 0 <= j < |pairs| ==> pairs[j].0 != key
    ensures key in Assign(entries, pairs) <==> key in entries
    ensures key in entries ==> Assign(entries, pairs)[key] == entries[key]
    decreases |pairs|
  {
    if pairs != [] {
      AssignUntouched(entries[pairs[0].0 := pairs[0].1], pairs[1..], key);
    }
  }

  /** A file's last pair for a key decides the key. */
  lemma {:induction false} AssignLast(entries: map<string, Value>, pairs: seq<(string, Value)>, j: nat)
    requires j < |pairs|
    requires forall l :: j < l < |pairs| ==> pairs[l].0 != pairs[j].0
    ensures Assign(entries, pairs)[pairs[j].0] == pairs[j].1
    decreases j
  {
    var next := entries[pairs[0].0 := pairs[0].1];
    if j == 0 {
      AssignUntouched(next, pairs[1..], pairs[0].0);
    } else {
      AssignLast(next, pairs[1..], j - 1);
    }
  }

  /** An item that does not write a key leaves its entry, or its absence,
      as it was. */
  lemma ApplyItemUntouched(entries: map<string, Value>, cfg: string, fs: FileSystem, ps: Parsers, key: string)
    requires !Touches(cfg, key, fs)
    ensures var r := ApplyItem(entries, cfg, fs, ps);
      && (key in r.entries <==> key in entries)
      && (key in entries ==> r.entries[key] == entries[key])
  {
    match SplitItem(cfg) {
      case Assignment(k, v) =>
      case FilePath(path) =>
        if path in fs.files && fs.files[path].Mapping? {
          AssignUntouched(entries, fs.files[path].pairs, key);
        }
    }
  }

  /** No item of the list writes `key`. */
  ghost predicate NoneTouch(items: seq<string>, key: string, fs: FileSystem)
    decreases |items|
  {
    items == [] || (!Touches(items[0], key, fs) && NoneTouch(items[1..], key, fs))
  }

  lemma {:induction false} NoneTouchAll(items: seq<string>, key: string, fs: FileSystem)
    requires forall j :: 0 <= j < |items| ==> !Touches(items[j], key, fs)
    ensures NoneTouch(items, key, fs)
    decreases |items|
  {
    if items != [] {
      var rest := items[1..];
      assert forall j :: 0 <= j < |rest| ==> rest[j] == items[j + 1];
      NoneTouchAll(rest, key, fs);
    }
  }

  /** Items that do not write a key leave its entry, or its absence, as it
      was: `_update` changes no other key. */
  lemma {:induction false} ApplyUntouched(entries: map<string, Value>, items: seq<string>, fs: FileSystem, ps: Parsers, key: string)
    requires NoneTouch(items, key, fs)
    ensures var r := ApplyItems(entries, items, fs, ps);
      && (key in r.entries <==> key in entries)
      && (key in entries ==> r.entries[key] == entries[key])
    decreases |items|
  {
    if items != [] {
      var first := ApplyItem(entries, items[0], fs, ps);
      ApplyItemUntouched(entries, items[0], fs, ps, key);
      if first.error.None? {
        ApplyUntouched(first.entries, items[1..], fs, ps, key);
      }
    }
  }

  /** The last item that writes a key decides it: a `key=value` item
      followed by no other item writing `key` leaves `key` mapped to the
      coerced value, once the whole list has applied without error. */
  lemma LastAssignmentWins(entries: map<string, Value>, items: seq<string>, fs: FileSystem, ps: Parsers, i: nat)
    requires i < |items| && SplitItem(items[i]).Assignment?
    requires NoneTouch(items[i + 1..], SplitItem(items[i]).key, fs)
    requires ApplyItems(entries, items, fs, ps).error.None?
    ensures var key := SplitItem(items[i]).key;
      var r := ApplyItems(entries, items, fs, ps);
      key in r.entries && r.entries[key] == Coerce(ps, SplitItem(items[i]).value)
  {
    var item := SplitItem(items[i]);
    LastAssignmentDecides(entries, items, fs, ps, i, item.key, item.value);
  }

  lemma {:induction false} LastAssignmentDecides(entries: map<string, Value>, items: seq<string>, fs: FileSystem, ps: Parsers,
                                                 i: nat, key: string, value: string)
    requires i < |items| && SplitItem(items[i]) == Assignment(key, value)
    requires NoneTouch(items[i + 1..], key, fs)
    requires ApplyItems(entries, items, fs, ps).error.None?
    ensures var r := ApplyItems(entries, items, fs, ps);
      key in r.entries && r.entries[key] == Coerce(ps, value)
    decreases i
  {
    var first := ApplyItem(entries, items[0], fs, ps);
    var rest := items[1..];
    if i == 0 {
      assert items[i + 1..] == rest;
      FirstAssignmentWins(entries, items, fs, ps, key, value);
    } else {
      assert first.error.None?;
      assert ApplyItems(entries, items, fs, ps) == ApplyItems(first.entries, rest, fs, ps);
      SliceShift(items, i);
      LastAssignmentDecides(first.entries, rest, fs, ps, i - 1, key, value);
    }
  }

  /** An assignment at the head that nothing after it overrides. */
  lemma FirstAssignmentWins(entries: map<string, Value>, items: seq<string>, fs: FileSystem, ps: Parsers,
                            key: string, value: string)
    requires items != [] && SplitItem(items[0]) == Assignment(key, value)
    requires NoneTouch(items[1..], key, fs)
    ensures var r := ApplyItems(entries, items, fs, ps);
      key in r.entries && r.entries[key] == Coerce(ps, value)
  {
    var next := entries[key := Coerce(ps, value)];
    assert ApplyItem(entries, items[0], fs, ps) == Applied(next, None);
    assert ApplyItems(entries, items, fs, ps) == ApplyItems(next, items[1..], fs, ps);
    ApplyUntouched(next, items[1..], fs, ps, key);
  }

  /** Dropping the head shifts every index by one. */
  lemma SliceShift(items: seq<string>, i: nat)
    requires 0 < i < |items|
    ensures items[1..][i - 1] == items[i] && items[1..][i..] == items[i + 1..]
  {
  }

  // =====================================================================
  // `_load`

  /** The path `_load` looks for the saved configuration at. */
  function SavedConfigPath(modelDir: string): (r: string)
    ensures EndsWith(r, ConfigFileName)
  {
    JoinPath(modelDir, ConfigFileName)
  }

  /** The whole effect of `_load`: the entries after it, the error it
      raised, if any, and the public configuration `_save` wrote, if it
      ran. */
  datatype Loaded = Loaded(entries: map<string, Value>, error: Option<LoadError>, written: Option<map<string, Value>>)

  /** The saved configuration goes first when it exists; without it and
      without `initialize` the model directory is rejected before anything
      is applied; a fresh directory that was initialized gets the final
      public configuration saved. */
  function LoadSpec(entries: map<string, Value>, modelDir: string, configs: seq<string>, initialize: bool,
                    fs: FileSystem, ps: Parsers): (r: Loaded)
    ensures SavedConfigPath(modelDir) !in fs.files && !initialize ==>
      r == Loaded(entries, Some(InvalidModelDir(modelDir)), None)
    ensures r.written.Some? ==> r.error.None? && r.written.value == Public(r.entries)
    ensures SavedConfigPath(modelDir) in fs.files ==> r.written.None?
    ensures SavedConfigPath(modelDir) in fs.files ==>
      var a := ApplyItems(entries, [SavedConfigPath(modelDir)] + configs, fs, ps);
      r.entries == a.entries && r.error == a.error
    ensures SavedConfigPath(modelDir) !in fs.files && initialize ==>
      r.entries == ApplyItems(entries, configs, fs, ps).entries
    ensures SavedConfigPath(modelDir) !in fs.files && initialize ==>
      r.error == ApplyItems(entries, configs, fs, ps).error && (r.written.Some? <==> r.error.None?)
  {
    var saved := SavedConfigPath(modelDir);
    if saved in fs.files then
      var a := ApplyItems(entries, [saved] + configs, fs, ps);
      Loaded(a.entries, a.error, None)
    else if !initialize then Loaded(entries, Some(InvalidModelDir(modelDir)), None)
    else
      var a := ApplyItems(entries, configs, fs, ps);
      Loaded(a.entries, a.error, if a.error.None? then Some(Public(a.entries)) else None)
  }

  /** The command line overrides the saved configuration: when the saved
      file exists, a `key=value` item that no later item overrides decides
      `key`, whatever the saved file says about it. */
  lemma CommandLineOverridesSaved(entries: map<string, Value>, modelDir: string, configs: seq<string>, initialize: bool,
                                  fs: FileSystem, ps: Parsers, i: nat)
    requires SavedConfigPath(modelDir) in fs.files
    requires i < |configs| && SplitItem(configs[i]).Assignment?
    requires forall j :: i < j < |configs| ==> !Touches(configs[j], SplitItem(configs[i]).key, fs)
    requires LoadSpec(entries, modelDir, configs, initialize, fs, ps).error.None?
    ensures var key := SplitItem(configs[i]).key;
      var r := LoadSpec(entries, modelDir, configs, initialize, fs, ps);
      key in r.entries && r.entries[key] == Coerce(ps, SplitItem(configs[i]).value)
  {
    var items := [SavedConfigPath(modelDir)] + configs;
    var item := SplitItem(configs[i]);
    var r := LoadSpec(entries, modelDir, configs, initialize, fs, ps);
    assert r.entries == ApplyItems(entries, items, fs, ps).entries && r.error.None?;
    LaterItems(modelDir, configs, i, item.key, fs);
    LastAssignmentDecides(entries, items, fs, ps, i + 1, item.key, item.value);
  }

  /** The items after the `i`-th command-line item, once the saved path is
      put in front. */
  lemma LaterItems(modelDir: string, configs: seq<string>, i: nat, key: string, fs: FileSystem)
    requires i < |configs|
    requires forall j :: i < j < |configs| ==> !Touches(configs[j], key, fs)
    ensures var items := [SavedConfigPath(modelDir)] + configs;
      items[i + 1] == configs[i] && NoneTouch(items[i + 2..], key, fs)
  {
    var items := [SavedConfigPath(modelDir)] + configs;
    var later := configs[i + 1..];
    assert forall j :: 0 <= j < |later| ==> later[j] == configs[i + 1 + j];
    NoneTouchAll(later, key, fs);
    assert items[i + 2..] == later;
  }

  /** The saved path is a file item when the model directory has no `=`. */
  lemma SavedPathIsFile(modelDir: string)
    requires '=' !in modelDir
    ensures SplitItem(SavedConfigPath(modelDir)) == FilePath(SavedConfigPath(modelDir))
  {
    var p := JoinPrefix(modelDir);
    assert '=' !in p by {
      if modelDir != [] && modelDir[|modelDir| - 1] != '/' {
        assert p == modelDir + "/";
      }
    }
    assert '=' !in ConfigFileName;
    assert SavedConfigPath(modelDir) == p + ConfigFileName;
  }

  /** A model directory with `=` in its name turns the saved path into a
      `key=value` item: for `lr=0.1` the saved file is not read, and the key
      `lr` is bound to the string `0.1/config.yml` instead. */
  lemma SavedPathWithEquals()
    ensures SplitItem(SavedConfigPath("lr=0.1")) == Assignment("lr", "0.1/config.yml")
  {
    assert SavedConfigPath("lr=0.1") == "lr" + "=" + "0.1/config.yml";
    SplitJoin("lr", "0.1/config.yml");
  }

  /** A key the command line does not write keeps the value the saved file
      gives it last. */
  lemma SavedValueKept(entries: map<string, Value>, modelDir: string, configs: seq<string>, initialize: bool,
                       fs: FileSystem, ps: Parsers, j: nat)
    requires '=' !in modelDir
    requires SavedConfigPath(modelDir) in fs.files
    requires fs.files[SavedConfigPath(modelDir)].Mapping?
    requires var pairs := fs.files[SavedConfigPath(modelDir)].pairs;
      j < |pairs| && forall l :: j < l < |pairs| ==> pairs[l].0 != pairs[j].0
    requires forall c :: 0 <= c < |configs| ==> !Touches(configs[c], fs.files[SavedConfigPath(modelDir)].pairs[j].0, fs)
    requires LoadSpec(entries, modelDir, configs, initialize, fs, ps).error.None?
    ensures var pair := fs.files[SavedConfigPath(modelDir)].pairs[j];
      var r := LoadSpec(entries, modelDir, configs, initialize, fs, ps);
      pair.0 in r.entries && r.entries[pair.0] == pair.1
  {
    var saved := SavedConfigPath(modelDir);
    var pairs := fs.files[saved].pairs;
    var items := [saved] + configs;
    SavedPathIsFile(modelDir);
    var first := ApplyItem(entries, saved, fs, ps);
    assert first == Applied(Assign(entries, pairs), None);
    assert items[1..] == configs;
    AssignLast(entries, pairs, j);
    NoneTouchAll(configs, pairs[j].0, fs);
    ApplyUntouched(first.entries, configs, fs, ps, pairs[j].0);
  }

  // =====================================================================
  // The module namespace

  /** The module's `globals()`: every configuration value and the module's
      own names. */
  class Registry {
    var entries: map<string, Value>

    constructor (initial: map<string, Value>)
      ensures entries == initial
    {
      entries := initial;
    }

    /** `_update(key, value)`: `key` is bound to `value`, every other entry
        stays as it was. */
    method Update(key: string, value: Value)
      modifies this
      ensures entries == old(entries)[key := value]
      ensures forall k :: k != key ==> (k in entries <==> k in old(entries))
      ensures forall k :: k != key && k in entries ==> entries[k] == old(entries)[k]
    {
      entries := entries[key := value];
    }

    /** `_dict()`. */
    function Dict(): (r: map<string, Value>)
      reads this
      ensures forall k :: k in r <==> k in entries && !StartsWith(k, "_")
      ensures forall k :: k in r ==> r[k] == entries[k]
    {
      Public(entries)
    }

    /** `_load(model_dir, configs, initialize)`; the returned map is what
        `_save` wrote, when it ran. */
    method Load(modelDir: string, configs: seq<string>, initialize: bool, fs: FileSystem, ps: Parsers)
      returns (error: Option<LoadError>, written: Option<map<string, Value>>)
      modifies this
      ensures Loaded(entries, error, written) == LoadSpec(old(entries), modelDir, configs, initialize, fs, ps)
    {
      error, written := None, None;
      var saved := SavedConfigPath(modelDir);
      var items := configs;
      if saved in fs.files {
        items := [saved] + configs;
      } else if !initialize {
        error := Some(InvalidModelDir(modelDir));
        return;
      }
      ghost var before := entries;
      for i := 0 to |items|
        invariant ApplyItems(before, items, fs, ps) == ApplyItems(entries, items[i..], fs, ps)
      {
        assert items[i..][0] == items[i] && items[i..][1..] == items[i + 1..];
        match SplitItem(items[i]) {
          case FilePath(path) =>
            if path !in fs.files {
              error := Some(MissingConfigFile(path));
              return;
            }
            match fs.files[path] {
              case NotMapping =>
                error := Some(NoItems(path));
                return;
              case Mapping(pairs) =>
                ApplyPairs(pairs);
            }
          case Assignment(key, value) =>
            var v := Coerce(ps, value);
            Update(key, v);
        }
      }
      if saved !in fs.files && initialize {
        written := Some(Dict());
      }
    }

    /** The loop over one file's `obj.items()`. */
    method ApplyPairs(pairs: seq<(string, Value)>)
      modifies this
      ensures entries == Assign(old(entries), pairs)
    {
      for j := 0 to |pairs|
        invariant Assign(old(entries), pairs) == Assign(entries, pairs[j..])
      {
        assert pairs[j..][0] == pairs[j] && pairs[j..][1..] == pairs[j + 1..];
        Update(pairs[j].0, pairs[j].1);
      }
    }
  }
}
