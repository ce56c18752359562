/** The checkpointing configuration (checkpointing/config.py): the defaults,
    per-field validation of the `checkpointing` object of the settings file,
    the fallbacks when the file is missing or unreadable, and the exclusion
    test applied to a file before a checkpoint is taken. */
module Config {
  import opened Wrappers
  import opened Text
  import opened Json

  datatype Config = Config(
    enabled: bool,
    retentionDays: int,
    excludePatterns: seq<string>,
    maxFileSizeMb: real,
    checkpointOnStop: bool,
    autoCleanup: bool)

  const DefaultRetentionDays := 7
  const DefaultMaxFileSizeMb := 100.0
  const DefaultPatterns: seq<string> := ["*.log", "node_modules/", ".env", "__pycache__/"]
  const DefaultPatternsJson: Json := JList([JStr("*.log"), JStr("node_modules/"), JStr(".env"), JStr("__pycache__/")])

  /** `_default_config()`. */
  function DefaultConfig(): Config {
    Config(true, DefaultRetentionDays, DefaultPatterns, DefaultMaxFileSizeMb, false, true)
  }

  /** The same defaults as the JSON object `_default_config()` returns; it is
      what `_load_config` validates when the settings have no `checkpointing`
      key. */
  function DefaultConfigJson(): map<string, Json> {
    map[
      "enabled" := JBool(true),
      "retention_days" := JInt(7),
      "exclude_patterns" := DefaultPatternsJson,
      "max_file_size_mb" := JInt(100),
      "checkpoint_on_stop" := JBool(false),
      "auto_cleanup" := JBool(true)]
  }

  /** `max(lo, min(x, hi))` on integers. */
  function ClampInt(x: int, lo: int, hi: int): (r: int)
    requires lo <= hi
    ensures lo <= r <= hi
    ensures lo <= x <= hi ==> r == x
    ensures x < lo ==> r == lo
    ensures x > hi ==> r == hi
  {
    var m := if hi < x then hi else x;
    if m > lo then m else lo
  }

  /** `retention_days`: `int(value)` clamped to 1..365; a value `int` rejects
      gives the default, one it overflows on (an infinite float) raises. */
  function ValidRetention(v: Json): (r: Result<int>)
    ensures r.Ok? ==> 1 <= r.value <= 365
    ensures r.Raised? <==> ToInt(v).Overflow?
    ensures ToInt(v).Rejected? ==> r == Ok(DefaultRetentionDays)
    ensures ToInt(v).Value? ==> r == Ok(ClampInt(ToInt(v).v, 1, 365))
  {
    match ToInt(v)
    case Value(n) => Ok(ClampInt(n, 1, 365))
    case Rejected => Ok(DefaultRetentionDays)
    case Overflow => Raised("OverflowError")
  }

  /** `max(0.1, min(f, 1000))` with Python's `min`/`max`, which keep their
      first argument unless the second compares strictly smaller/larger:
      +inf gives 1000, and both -inf and NaN give 0.1. */
  function ClampSize(f: PyFloat): (r: real)
    ensures 0.1 <= r <= 1000.0
    ensures f.Finite? && 0.1 <= f.r <= 1000.0 ==> r == f.r
    ensures f.Finite? && f.r < 0.1 ==> r == 0.1
    ensures f.Finite? && f.r > 1000.0 ==> r == 1000.0
    ensures f == PosInf ==> r == 1000.0
    ensures f == NegInf || f == NaN ==> r == 0.1
  {
    match f
    case Finite(x) =>
      var m := if 1000.0 < x then 1000.0 else x;
      if m > 0.1 then m else 0.1
    case PosInf => 1000.0
    case NegInf => 0.1
    case NaN => 0.1
  }

  /** `max_file_size_mb`: `float(value)` clamped to 0.1..1000; a value `float`
      rejects gives the default 100. */
  function ValidMaxSize(v: Json): (r: real)
    ensures 0.1 <= r <= 1000.0
    ensures ToFloat(v).Value? ==> r == ClampSize(ToFloat(v).v)
    ensures !ToFloat(v).Value? ==> r == DefaultMaxFileSizeMb
  {
    match ToFloat(v)
    case Value(f) => ClampSize(f)
    case _ => DefaultMaxFileSizeMb
  }

  /** `[str(p) for p in patterns if p]`. */
  function KeepTruthy(items: seq<Json>): (r: seq<string>)
    ensures |r| <= |items|
  {
    if items == [] then []
    else if Truthy(items[0]) then [Str(items[0])] + KeepTruthy(items[1..])
    else KeepTruthy(items[1..])
  }

  /** `KeepTruthy` is an order-preserving filter-and-map: its result is the
      `str` of the truthy items, in their order. */
  lemma {:induction false} KeepTruthySpec(items: seq<Json>)
    ensures (forall i :: 0 <= i < |items| ==> Truthy(items[i])) ==> |KeepTruthy(items)| == |items|
    ensures (forall i :: 0 <= i < |items| ==> !Truthy(items[i])) ==> KeepTruthy(items) == []
    ensures forall x :: x in KeepTruthy(items) ==> exists i :: 0 <= i < |items| && Truthy(items[i]) && Str(items[i]) == x
    ensures forall i :: 0 <= i < |items| && Truthy(items[i]) ==> Str(items[i]) in KeepTruthy(items)
  {
    if items != [] {
      KeepTruthySpec(items[1..]);
      forall x | x in KeepTruthy(items)
        ensures exists i :: 0 <= i < |items| && Truthy(items[i]) && Str(items[i]) == x
      {
        if !(Truthy(items[0]) && x == Str(items[0])) {
          assert x in KeepTruthy(items[1..]);
          var j :| 0 <= j < |items[1..]| && Truthy(items[1..][j]) && Str(items[1..][j]) == x;
          assert items[j + 1] == items[1..][j];
        }
      }
      forall i | 0 <= i < |items| && Truthy(items[i])
        ensures Str(items[i]) in KeepTruthy(items)
      {
        if i > 0 {
          assert items[1..][i - 1] == items[i];
        }
      }
    }
  }

  /** `exclude_patterns`: a list keeps its truthy entries, stringified; any
      other value gives the four default patterns. */
  function ValidPatterns(v: Json): (r: seq<string>)
    ensures v.JList? ==> r == KeepTruthy(v.items)
    ensures !v.JList? ==> r == DefaultPatterns
  {
    match v
    case JList(items) => KeepTruthy(items)
    case _ => DefaultPatterns
  }

  /** `_validate_config(config)`: each field comes from its own key, with the
      default when the key is missing. */
  function ValidateConfig(c: map<string, Json>): (r: Result<Config>)
    ensures r.Raised? <==> ValidRetention(Get(c, "retention_days", JInt(7))).Raised?
    ensures r.Ok? ==> 1 <= r.value.retentionDays <= 365 && 0.1 <= r.value.maxFileSizeMb <= 1000.0
    ensures r.Ok? ==> r.value.enabled == Truthy(Get(c, "enabled", JBool(true)))
    ensures r.Ok? ==> r.value.checkpointOnStop == Truthy(Get(c, "checkpoint_on_stop", JBool(false)))
    ensures r.Ok? ==> r.value.autoCleanup == Truthy(Get(c, "auto_cleanup", JBool(true)))
    ensures r.Ok? ==> r.value.retentionDays == ValidRetention(Get(c, "retention_days", JInt(7))).value
    ensures r.Ok? ==> r.value.excludePatterns == ValidPatterns(Get(c, "exclude_patterns", DefaultPatternsJson))
    ensures r.Ok? ==> r.value.maxFileSizeMb == ValidMaxSize(Get(c, "max_file_size_mb", JInt(100)))
  {
    var retention := ValidRetention(Get(c, "retention_days", JInt(7)));
    match retention
    case Raised(e) => Raised(e)
    case Ok(days) =>
      Ok(Config(
        Truthy(Get(c, "enabled", JBool(true))),
        days,
        ValidPatterns(Get(c, "exclude_patterns", DefaultPatternsJson)),
        ValidMaxSize(Get(c, "max_file_size_mb", JInt(100))),
        Truthy(Get(c, "checkpoint_on_stop", JBool(false))),
        Truthy(Get(c, "auto_cleanup", JBool(true)))))
  }

  /** Validating the default object gives back the default configuration. */
  lemma ValidateDefaults()
    ensures ValidateConfig(DefaultConfigJson()) == Ok(DefaultConfig())
  {
    DefaultPatternsSurvive();
    assert ToFloat(JInt(100)) == Value(Finite(100.0));
  }

  /** An empty `checkpointing` object gives the default configuration too. */
  lemma ValidateEmpty()
    ensures ValidateConfig(map[]) == Ok(DefaultConfig())
  {
    DefaultPatternsSurvive();
    assert ToFloat(JInt(100)) == Value(Finite(100.0));
  }

  /** The default pattern list passes the list validation unchanged. */
  lemma DefaultPatternsSurvive()
    ensures ValidPatterns(DefaultPatternsJson) == DefaultPatterns
  {
    var items := DefaultPatternsJson.items;
    assert KeepTruthy(items[3..]) == ["__pycache__/"];
    assert KeepTruthy(items[2..]) == [".env", "__pycache__/"];
    assert KeepTruthy(items[1..]) == ["node_modules/", ".env", "__pycache__/"];
  }

  /** What reading the settings file produced: nothing there, a file
      `json.load` or `open` failed on, or a parsed document. */
  datatype SettingsFile = Missing | Unreadable | Parsed(doc: Json)

  /** `_load_config()`. A missing or unreadable file gives the defaults. A
      document that is not an object, or whose `checkpointing` value is not an
      object, makes `.get` raise `AttributeError`, which is not caught. */
  function LoadConfig(f: SettingsFile): (r: Result<Config>)
    ensures f.Missing? || f.Unreadable? ==> r == Ok(DefaultConfig())
    ensures f.Parsed? && !f.doc.JObject? ==> r.Raised?
    ensures f.Parsed? && f.doc.JObject? && "checkpointing" in f.doc.fields ==>
      r == (match f.doc.fields["checkpointing"]
            case JObject(c) => ValidateConfig(c)
            case _ => Raised("AttributeError"))
  {
    match f
    case Missing => Ok(DefaultConfig())
    case Unreadable => Ok(DefaultConfig())
    case Parsed(doc) =>
      match doc
      case JObject(settings) =>
        if "checkpointing" in settings then
          (match settings["checkpointing"]
           case JObject(c) => ValidateConfig(c)
           case _ => Raised("AttributeError"))
        else
          ValidateDefaults();
          ValidateConfig(DefaultConfigJson())
      case _ => Raised("AttributeError")
  }

  /** Settings without a `checkpointing` key give the default configuration. */
  lemma LoadWithoutSection(settings: map<string, Json>)
    requires "checkpointing" !in settings
    ensures LoadConfig(Parsed(JObject(settings))) == Ok(DefaultConfig())
  {
    ValidateDefaults();
  }

  /** `fnmatch.fnmatch(name, pattern)`, which the model takes as given. */
  type Matcher = (string, string) -> bool

  /** The pattern loop of `should_exclude_file`: true at the first pattern
      that matches the whole path text. */
  predicate AnyPatternMatches(path: string, patterns: seq<string>, fnmatch: Matcher) {
    patterns != [] && (fnmatch(path, patterns[0]) || AnyPatternMatches(path, patterns[1..], fnmatch))
  }

  lemma {:induction false} AnyPatternMatchesIff(path: string, patterns: seq<string>, fnmatch: Matcher)
    ensures AnyPatternMatches(path, patterns, fnmatch) <==>
            exists i :: 0 <= i < |patterns| && fnmatch(path, patterns[i])
  {
    if patterns != [] {
      AnyPatternMatchesIff(path, patterns[1..], fnmatch);
      if exists i :: 0 <= i < |patterns| && fnmatch(path, patterns[i]) {
        var i :| 0 <= i < |patterns| && fnmatch(path, patterns[i]);
        if i > 0 {
          assert patterns[1..][i - 1] == patterns[i];
        }
      }
      if AnyPatternMatches(path, patterns[1..], fnmatch) {
        var i :| 0 <= i < |patterns[1..]| && fnmatch(path, patterns[1..][i]);
        assert fnmatch(path, patterns[i + 1]);
      }
    }
  }

  /** A size in bytes, as megabytes: `st_size / (1024 * 1024)`. */
  function SizeMb(bytes: nat): real {
    bytes as real / (1024 * 1024) as real
  }

  /** `should_exclude_file(path)`. `path` is `str(file_path)`; `regularFileSize`
      is the size of the file when it exists and is a regular file, and
      `None` otherwise. */
  predicate ShouldExcludeFile(cfg: Config, path: string, fnmatch: Matcher, regularFileSize: Option<nat>) {
    AnyPatternMatches(path, cfg.excludePatterns, fnmatch)
    || (regularFileSize.Some? && SizeMb(regularFileSize.value) > cfg.maxFileSizeMb)
  }

  /** A file is excluded exactly when some pattern matches its whole path or
      it is a regular file larger than the limit. */
  lemma ShouldExcludeFileIff(cfg: Config, path: string, fnmatch: Matcher, regularFileSize: Option<nat>)
    ensures ShouldExcludeFile(cfg, path, fnmatch, regularFileSize) <==>
            (exists i :: 0 <= i < |cfg.excludePatterns| && fnmatch(path, cfg.excludePatterns[i]))
            || (regularFileSize.Some? && regularFileSize.value as real > cfg.maxFileSizeMb * 1048576.0)
  {
    AnyPatternMatchesIff(path, cfg.excludePatterns, fnmatch);
  }

  /** With no patterns and no oversized file, nothing is excluded. */
  lemma NothingExcludedWithoutPatterns(cfg: Config, path: string, fnmatch: Matcher, regularFileSize: Option<nat>)
    requires cfg.excludePatterns == []
    requires regularFileSize.None? || SizeMb(regularFileSize.value) <= cfg.maxFileSizeMb
    ensures !ShouldExcludeFile(cfg, path, fnmatch, regularFileSize)
  {
  }
}
