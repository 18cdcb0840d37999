/** `ConfigManager` of `config.py`: a nested configuration tree built from
    defaults and environment variables, read and written by dotted keys. */
module Config {
  import opened Wrappers
  import opened PyDict
  import opened Text
  import opened Values
  import CommonUtils

  /** `_load_defaults`. */
  const DefaultConfig: Dict<string, Value> := [
    ("app", Dict([("name", Str("python-template")), ("version", Str("0.1.0")),
                  ("debug", Bool(false)), ("environment", Str("development"))])),
    ("logging", Dict([("level", Str("INFO")), ("format", Str("standard")), ("file", Null),
                      ("rotation", Str("10 MB")), ("retention", Str("1 week")), ("json_format", Bool(false))])),
    ("performance", Dict([("timeout", Int(30)), ("max_retries", Int(3)), ("buffer_size", Int(1024)),
                          ("concurrent_workers", Int(4))])),
    ("security", Dict([("secret_key", Null), ("api_key", Null), ("ssl_verify", Bool(true)),
                       ("allowed_hosts", List([Str("localhost"), Str("127.0.0.1")]))]))
  ]

  // ---------------------------------------------------------------------
  // Copying and merging

  /** The value `_deep_copy_dict` stores for `v`: nested dicts copied
      recursively, lists copied, everything else shared. */
  function CopyValue(v: Value): (r: Value)
    ensures r == v
    decreases v, if v.Dict? then |v.entries| + 1 else 0
  {
    match v
    case Dict(_) => Dict(CopyFrom(v, 0))
    case List(xs) => List(xs[..])
    case _ => v
  }

  /** `_deep_copy_dict` over the items of `d` from position `i` on. */
  function CopyFrom(d: Value, i: nat): (r: Dict<string, Value>)
    requires d.Dict? && i <= |d.entries|
    ensures r == d.entries[i..]
    decreases d, |d.entries| - i
  {
    if i == |d.entries| then []
    else
      assert d.entries[i] in d.entries;
      [(d.entries[i].0, CopyValue(d.entries[i].1))] + CopyFrom(d, i + 1)
  }

  /** `_deep_copy_dict(source)`: equal to its source. */
  function DeepCopyDict(source: Dict<string, Value>): (r: Dict<string, Value>)
    ensures r == source
  {
    CopyFrom(Dict(source), 0)
  }

  /** `_deep_merge_dict(base, update)`: a copy of `base` overlaid with
      `update`, two dicts under one key merged recursively. It is
      `merge_dicts` of `common_utils.py`, whose laws carry over. */
  function DeepMergeDict(base: Dict<string, Value>, update: Dict<string, Value>): (r: Dict<string, Value>)
    ensures r == CommonUtils.MergeDicts(base, update)
  {
    CommonUtils.MergeFrom(DeepCopyDict(base), Dict(update), 0)
  }

  // ---------------------------------------------------------------------
  // Environment variables

  const TrueWords: set<string> := {"true", "yes", "1", "on"}
  const FalseWords: set<string> := {"false", "no", "0", "off"}

  /** The list a comma-separated value becomes, or the value itself. */
  function ListOrString(value: string): (r: Value)
    ensures r.List? <==> ',' in value
    ensures r.List? ==> |r.items| == |Split(value, ",")|
    ensures r.List? ==> forall k :: 0 <= k < |r.items| ==> r.items[k] == Str(Strip(Split(value, ",")[k]))
    ensures !r.List? ==> r == Str(value)
  {
    if ',' in value then
      var parts := Split(value, ",");
      List(seq(|parts|, k requires 0 <= k < |parts| => Str(Strip(parts[k]))))
    else Str(value)
  }

  /** `_convert_env_value(value)`. Whether Python's `float` accepts a
      string with a dot is the parameter `floatOk`; the float keeps its
      text. */
  function ConvertEnvValue(value: string, floatOk: string -> bool): (r: Value)
    ensures Lower(value) in TrueWords ==> r == Bool(true)
    ensures Lower(value) in FalseWords ==> r == Bool(false)
    ensures r.Bool? ==> Lower(value) in TrueWords + FalseWords
    ensures r.Int? <==> Lower(value) !in TrueWords + FalseWords && '.' !in value && ParseInt(value).Some?
    ensures r.Int? ==> ParseInt(value) == Some(r.i)
    ensures r.Float? ==> '.' in value && floatOk(value) && r.literal == value
    ensures r.List? ==> ',' in value
    ensures r.Str? ==> r == Str(value) && ',' !in value
    ensures Lower(value) !in TrueWords + FalseWords && '.' in value && floatOk(value) ==> r == Float(value)
    ensures Lower(value) !in TrueWords + FalseWords && '.' in value && !floatOk(value) ==> r == ListOrString(value)
    ensures Lower(value) !in TrueWords + FalseWords && '.' !in value && ParseInt(value).None? ==> r == ListOrString(value)
    ensures !r.Null? && !r.Dict?
  {
    var lowered := Lower(value);
    if lowered in TrueWords then Bool(true)
    else if lowered in FalseWords then Bool(false)
    else if '.' in value then
      if floatOk(value) then Float(value) else ListOrString(value)
    else
      match ParseInt(value)
      case Some(i) => Int(i)
      case None => ListOrString(value)
  }

  /** An integer written out by `str` comes back as that integer, unless it
      is 0 or 1, which read as booleans first. */
  lemma ConvertInt(i: int, floatOk: string -> bool)
    requires i != 0 && i != 1
    ensures ConvertEnvValue(IntToString(i), floatOk) == Int(i)
  {
    var s := IntToString(i);
    IntRoundTrip(i);
    IntStringChars(i);
    LowerIntString(i);
    NotAWord(i);
    assert '.' !in s by {
      forall k | 0 <= k < |s| ensures s[k] != '.' {
        assert IsDigit(s[k]) || s[k] == '-';
      }
    }
  }

  /** `str(i)` is made of digits and a leading minus. */
  lemma IntStringChars(i: int)
    ensures forall k :: 0 <= k < |IntToString(i)| ==> IsDigit(IntToString(i)[k]) || IntToString(i)[k] == '-'
  {
    if i < 0 {
      var n: nat := -i;
      assert IntToString(i) == "-" + NatToString(n);
      assert forall k :: 0 < k < |IntToString(i)| ==> IntToString(i)[k] == NatToString(n)[k - 1];
    }
  }

  lemma LowerIntString(i: int)
    ensures Lower(IntToString(i)) == IntToString(i)
  {
    var s := IntToString(i);
    IntStringChars(i);
    forall k | 0 <= k < |s| ensures Lower(s)[k] == s[k] {
      assert IsDigit(s[k]) || s[k] == '-';
    }
  }

  /** Only `str(0)` and `str(1)` read as boolean words. */
  lemma NotAWord(i: int)
    requires i != 0 && i != 1
    ensures IntToString(i) !in TrueWords + FalseWords
  {
    IntStringChars(i);
    if i >= 0 {
      NatRoundTrip(i);
    }
  }

  const EnvPrefix: string := "PYTHON_TEMPLATE_"

  predicate HasPrefix(s: string, prefix: string) {
    |prefix| <= |s| && s[..|prefix|] == prefix
  }

  /** The configuration key an environment variable names: the rest after
      the prefix, lower-cased. */
  function EnvKey(name: string): string
    requires HasPrefix(name, EnvPrefix)
  {
    Lower(name[|EnvPrefix|..])
  }

  /** One turn of the loop of `_load_from_env`: a prefixed variable is
      stored at the path its key splits into on `_`, creating dicts on the
      way; reaching a value that is not a dict raises `TypeError`. */
  function EnvEntry(acc: Dict<string, Value>, name: string, value: string, floatOk: string -> bool): (r: Result<Dict<string, Value>>)
    ensures r.Err? ==> r.error == TypeError
    ensures !HasPrefix(name, EnvPrefix) ==> r == Ok(acc)
  {
    if !HasPrefix(name, EnvPrefix) then Ok(acc)
    else
      var key := EnvKey(name);
      var v := ConvertEnvValue(value, floatOk);
      if '_' in key then
        match CommonUtils.SetPath(acc, Split(key, "_"), v, true)
        case Some(d) => Ok(d)
        case None => Err(TypeError)
      else Ok(PyDict.Set(acc, key, v))
  }

  /** The `env_config` that `_load_from_env` builds from the environment,
      in its iteration order. */
  function EnvConfig(environ: seq<(string, string)>, floatOk: string -> bool): (r: Result<Dict<string, Value>>)
    ensures r.Err? ==> r.error == TypeError
    decreases |environ|
  {
    if environ == [] then Ok([])
    else
      var acc :- EnvConfig(environ[..|environ| - 1], floatOk);
      var (name, value) := environ[|environ| - 1];
      EnvEntry(acc, name, value, floatOk)
  }

  /** A key without `_` splits into itself. */
  lemma SplitWhole(s: string, sep: string)
    requires sep != [] && sep[0] !in s
    ensures Split(s, sep) == [s]
  {
    NoFirstCharNoOccurrence(s, sep);
  }

  /** A prefixed variable is stored where its key points: it succeeds
      exactly when every value met on the way is a dict, and then the
      converted value is found there. */
  lemma EnvEntryThenGet(acc: Dict<string, Value>, name: string, value: string, floatOk: string -> bool, default: Value)
    requires HasPrefix(name, EnvPrefix)
    ensures EnvEntry(acc, name, value, floatOk).Ok? <==> CommonUtils.PathOpen(acc, Split(EnvKey(name), "_"), true)
    ensures EnvEntry(acc, name, value, floatOk).Ok? ==>
      CommonUtils.GetPath(Dict(EnvEntry(acc, name, value, floatOk).value), Split(EnvKey(name), "_"), default)
        == ConvertEnvValue(value, floatOk)
  {
    var key := EnvKey(name);
    var v := ConvertEnvValue(value, floatOk);
    if '_' !in key {
      SplitWhole(key, "_");
      LookupSet(acc, key, v, key);
    }
    CommonUtils.SetPathThenGet(acc, Split(key, "_"), v, true, default);
  }

  // ---------------------------------------------------------------------
  // Lookups by dotted key

  /** Every segment of `keys` is found, each in a dict. */
  predicate Present(current: Value, keys: seq<string>)
    decreases |keys|
  {
    keys == [] ||
    match Child(current, keys[0])
    case Some(c) => Present(c, keys[1..])
    case None => false
  }

  /** What comparing `get`'s result with a sentinel default decides: a
      present path gives a value that does not depend on the default, a
      missing one gives the default. */
  lemma {:induction false} PresentGet(current: Value, keys: seq<string>, d1: Value, d2: Value)
    ensures Present(current, keys) ==> CommonUtils.GetPath(current, keys, d1) == CommonUtils.GetPath(current, keys, d2)
    ensures !Present(current, keys) ==> CommonUtils.GetPath(current, keys, d1) == d1
    decreases |keys|
  {
    if keys != [] {
      match Child(current, keys[0]) {
        case Some(c) => PresentGet(c, keys[1..], d1, d2);
        case None =>
      }
    }
  }

  /** A fresh manager has no key `missing`, yet `has("missing")` is true. */
  lemma MissingKeyAbsent()
    ensures !Present(Dict(DefaultConfig), Split("missing", "."))
  {
    SplitWhole("missing", ".");
    assert "missing" !in Keys(DefaultConfig);
  }

  /** `ConfigManager`. The configuration file is not read here; the
      environment is a parameter. */
  class ConfigManager {
    var config: Dict<string, Value>

    constructor (config: Dict<string, Value>)
      ensures this.config == config
    {
      this.config := config;
    }

    /** `get(key, default)`: walks the segments of `key`; a missing
        segment or a value that is not a dict gives the default. */
    method Get(key: string, default: Value) returns (r: Value)
      ensures r == CommonUtils.GetPath(Dict(config), Split(key, "."), default)
      ensures !Present(Dict(config), Split(key, ".")) ==> r == default
    {
      var keys := Split(key, ".");
      PresentGet(Dict(config), keys, default, default);
      var current := Dict(config);
      var i := 0;
      while i < |keys|
        invariant 0 <= i <= |keys|
        invariant CommonUtils.GetPath(Dict(config), keys, default) == CommonUtils.GetPath(current, keys[i..], default)
      {
        assert keys[i..][0] == keys[i] && keys[i..][1..] == keys[i + 1..];
        match Child(current, keys[i]) {
          case None => return default;
          case Some(c) => current := c;
        }
        i := i + 1;
      }
      assert keys[i..] == [];
      r := current;
    }

    /** `set(key, value)`: walks the segments of `key`, creating missing
        dicts; a value on the way that is not a dict raises `TypeError`
        before anything is written. */
    method Set(key: string, value: Value) returns (r: Result<()>)
      modifies this
      ensures r.Ok? <==> CommonUtils.PathOpen(old(config), Split(key, "."), true)
      ensures r.Err? ==> r.error == TypeError && config == old(config)
      ensures r.Ok? ==> CommonUtils.SetPath(old(config), Split(key, "."), value, true).Some?
      ensures r.Ok? ==> config == CommonUtils.SetPath(old(config), Split(key, "."), value, true).value
      ensures r.Ok? ==> forall d :: CommonUtils.GetPath(Dict(config), Split(key, "."), d) == value
    {
      var keys := Split(key, ".");
      forall d ensures CommonUtils.SetPath(config, keys, value, true).Some? ==>
        CommonUtils.GetPath(Dict(CommonUtils.SetPath(config, keys, value, true).value), keys, d) == value
      {
        CommonUtils.SetPathThenGet(config, keys, value, true, d);
      }
      CommonUtils.SetPathThenGet(config, keys, value, true, Null);
      match CommonUtils.SetPath(config, keys, value, true) {
        case None => r := Err(TypeError);
        case Some(c) =>
          config := c;
          r := Ok(());
      }
    }

    /** `has(key)` as written: `get(key, object()) is not object()`
        compares with a second, new object, so it holds for every key. */
    method Has(key: string) returns (b: bool)
      ensures b
    {
      var found := Get(key, Null);
      b := true;
    }

    /** What `has` is evidently meant to decide: whether `get` finds the
        key rather than falling back to its default (see `PresentGet`). */
    function Contains(key: string): (b: bool)
      reads this
      ensures !b ==> forall d :: CommonUtils.GetPath(Dict(config), Split(key, "."), d) == d
      ensures b ==> forall d :: CommonUtils.GetPath(Dict(config), Split(key, "."), d)
                              == CommonUtils.GetPath(Dict(config), Split(key, "."), Null)
    {
      var keys := Split(key, ".");
      forall d ensures Present(Dict(config), keys) ==>
        CommonUtils.GetPath(Dict(config), keys, d) == CommonUtils.GetPath(Dict(config), keys, Null)
      {
        PresentGet(Dict(config), keys, d, Null);
      }
      forall d ensures !Present(Dict(config), keys) ==> CommonUtils.GetPath(Dict(config), keys, d) == d {
        PresentGet(Dict(config), keys, d, Null);
      }
      Present(Dict(config), keys)
    }

    /** `get_section(section)`: the dict found there, or `{}` when the key
        is missing or holds something else. */
    method GetSection(section: string) returns (r: Dict<string, Value>)
      ensures !Present(Dict(config), Split(section, ".")) ==> r == []
      ensures CommonUtils.GetPath(Dict(config), Split(section, "."), EmptyDict).Dict? ==>
        r == CommonUtils.GetPath(Dict(config), Split(section, "."), EmptyDict).entries
      ensures !CommonUtils.GetPath(Dict(config), Split(section, "."), EmptyDict).Dict? ==> r == []
    {
      var s := Get(section, EmptyDict);
      r := if s.Dict? then s.entries else [];
    }

    /** `update(config_dict)`. */
    method Update(configDict: Dict<string, Value>)
      modifies this
      ensures config == CommonUtils.MergeDicts(old(config), configDict)
    {
      config := DeepMergeDict(config, configDict);
    }

    /** `reset_to_defaults()`. */
    method ResetToDefaults()
      modifies this
      ensures config == DefaultConfig
    {
      config := DeepCopyDict(DefaultConfig);
    }

    /** `validate_required(required_keys)` as written: since `has` holds
        for every key, nothing is ever missing and nothing is raised. */
    method ValidateRequired(requiredKeys: seq<string>) returns (r: Result<()>)
      ensures r == Ok(())
    {
      var missing: seq<string> := [];
      for i := 0 to |requiredKeys|
        invariant missing == []
      {
        var key := requiredKeys[i];
        var present := Has(key);
        if !present {
          missing := missing + [key];
        }
      }
      r := if missing != [] then Err(ValueError) else Ok(());
    }

    /** `validate_required` with the intended `has`: `ValueError` exactly
        when some required key is missing. */
    method RequireKeys(requiredKeys: seq<string>) returns (r: Result<()>)
      ensures r.Err? ==> r.error == ValueError
      ensures r.Ok? <==> forall k :: k in requiredKeys ==> Contains(k)
    {
      var missing: seq<string> := [];
      for i := 0 to |requiredKeys|
        invariant forall k :: k in missing <==> k in requiredKeys[..i] && !Contains(k)
      {
        assert requiredKeys[..i + 1] == requiredKeys[..i] + [requiredKeys[i]];
        if !Contains(requiredKeys[i]) {
          missing := missing + [requiredKeys[i]];
        }
      }
      assert requiredKeys[..|requiredKeys|] == requiredKeys;
      if missing != [] {
        assert missing[0] in missing;
        r := Err(ValueError);
      } else {
        r := Ok(());
      }
    }

    /** `to_dict()`: a copy equal to the configuration. */
    method ToDict() returns (r: Dict<string, Value>)
      ensures r == config
    {
      r := DeepCopyDict(config);
    }
  }

  /** `ConfigManager()` without a configuration file: the defaults, then
      the environment's entries merged over them when there are any;
      `TypeError` when a variable's path runs into a value that is not a
      dict. */
  method NewConfigManager(environ: seq<(string, string)>, floatOk: string -> bool) returns (r: Result<ConfigManager>)
    ensures r.Err? <==> EnvConfig(environ, floatOk).Err?
    ensures r.Err? ==> r.error == TypeError
    ensures r.Ok? ==> fresh(r.value)
    ensures r.Ok? && EnvConfig(environ, floatOk).value == [] ==> r.value.config == DefaultConfig
    ensures r.Ok? && EnvConfig(environ, floatOk).value != [] ==>
      r.value.config == CommonUtils.MergeDicts(DefaultConfig, EnvConfig(environ, floatOk).value)
  {
    var m := new ConfigManager(DeepCopyDict(DefaultConfig));
    var env := EnvConfig(environ, floatOk);
    if env.Err? {
      return Err(TypeError);
    }
    if env.value != [] {
      m.Update(env.value);
    }
    r := Ok(m);
  }
}
