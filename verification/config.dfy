/** The launcher's settings record (`config.json`), as the Python code sees it after
    `json.load`: a dictionary from key to JSON value. Loading backfills two keys;
    the per-version directory flag decides where a game version lives. */
module LauncherConfig {

  /** A JSON value as Python holds it. Arrays (lists) and objects (dicts) matter to the
      launcher only through their truthiness and whether they can be sliced, so each
      keeps just its size. */
  datatype Value =
    | Null
    | Bool(b: bool)
    | Int(i: int)
    | Real(r: real)
    | Str(s: string)
    | Array(size: nat)
    | Object(size: nat)

  type Config = map<string, Value>

  const ArgsKey: string := "java_args"
  const VersionKey: string := "selected_version"
  const AccountKey: string := "current_account"
  const SeparateKey: string := "separate_version_dirs"
  const JavaPathKey: string := "java_path"

  const DefaultArgs: string := "-Xmx2G -Xms1G"

  /** The record used when there is no readable settings file. */
  const Default: Config := map[
    ArgsKey := Str(DefaultArgs),
    VersionKey := Null,
    AccountKey := Null,
    SeparateKey := Bool(false),
    JavaPathKey := Null
  ]

  /** What reading `config.json` can give: no file, text that is not JSON, or a JSON object. */
  datatype ConfigFile = NoFile | Malformed | Parsed(obj: Config)

  /** Python truthiness of a JSON value. */
  predicate Truthy(v: Value) {
    match v
    case Null => false
    case Bool(b) => b
    case Int(i) => i != 0
    case Real(r) => r != 0.0
    case Str(s) => s != ""
    case Array(n) => n > 0
    case Object(n) => n > 0
  }

  /** Python `v == n` for an integer `n` (so `True == 1` and `1.0 == 1`). */
  predicate EqualsInt(v: Value, n: int) {
    match v
    case Bool(b) => (if b then 1 else 0) == n
    case Int(i) => i == n
    case Real(r) => r == n as real
    case _ => false
  }

  /** `cfg.get(key, default)`. */
  function Get(cfg: Config, key: string, default: Value): Value {
    if key in cfg then cfg[key] else default
  }

  /** `load_config()` (Cobalt_Launcher_Nano_0.7_alpha.py:35-47). A parsed object keeps
      every key it has with its value, gains `separate_version_dirs = false` and
      `java_path = null` only where those are missing, and gains nothing else; a missing
      or undecodable file gives the fixed default record. */
  function Load(f: ConfigFile): (cfg: Config)
    ensures !f.Parsed? ==> cfg == Default
    ensures f.Parsed? ==> cfg.Keys == f.obj.Keys + {SeparateKey, JavaPathKey}
    ensures f.Parsed? ==> forall k :: k in f.obj ==> cfg[k] == f.obj[k]
    ensures f.Parsed? && SeparateKey !in f.obj ==> cfg[SeparateKey] == Bool(false)
    ensures f.Parsed? && JavaPathKey !in f.obj ==> cfg[JavaPathKey] == Null
  {
    match f
    case Parsed(obj) =>
      var withFlag := if SeparateKey in obj then obj else obj[SeparateKey := Bool(false)];
      if JavaPathKey in withFlag then withFlag else withFlag[JavaPathKey := Null]
    case _ => Default
  }

  /** Every loaded record carries the two backfilled keys. */
  predicate Backfilled(cfg: Config) {
    SeparateKey in cfg && JavaPathKey in cfg
  }

  /** Saving a loaded record and loading it again gives the same record: backfilling
      is idempotent and never overwrites. (JSON encoding is taken to be lossless.) */
  lemma SaveLoadRoundTrip(f: ConfigFile)
    ensures Backfilled(Load(f))
    ensures Load(Parsed(Load(f))) == Load(f)
  {
  }

  /** `toggle_separate_dirs()` (Cobalt_Launcher_Nano_0.7_alpha.py:585-599) on the loaded
      record: the flag becomes the boolean negation of its truthiness, every other key
      keeps its value. */
  function ToggleSeparateDirs(cfg: Config): (r: Config)
    ensures r.Keys == cfg.Keys + {SeparateKey}
    ensures r[SeparateKey].Bool?
    ensures Truthy(r[SeparateKey]) == !Truthy(Get(cfg, SeparateKey, Bool(false)))
    ensures forall k :: k in cfg && k != SeparateKey ==> r[k] == cfg[k]
  {
    cfg[SeparateKey := Bool(!Truthy(Get(cfg, SeparateKey, Bool(false))))]
  }

  /** Where a version's game files live: the shared `~/.minecraft`, or
      `~/.minecraft_<version>` of its own. */
  datatype GameDir = SharedDir | VersionDir(version: Value)

  /** `get_minecraft_dir_for_version` (Cobalt_Launcher_Nano_0.7_alpha.py:312-316). */
  function DirFor(cfg: Config, version: Value): (d: GameDir)
    ensures d.VersionDir? <==> Truthy(Get(cfg, SeparateKey, Bool(false)))
    ensures d.VersionDir? ==> d.version == version
  {
    if Truthy(Get(cfg, SeparateKey, Bool(false))) then VersionDir(version) else SharedDir
  }

  /** Toggling always moves every version to the other kind of directory. */
  lemma ToggleSwitchesDir(cfg: Config, version: Value)
    ensures DirFor(ToggleSeparateDirs(cfg), version).SharedDir? <==> DirFor(cfg, version).VersionDir?
  {
  }

  /** Toggling twice restores a boolean flag, and otherwise normalises it to the boolean
      with the same truthiness. */
  lemma ToggleTwice(cfg: Config)
    ensures ToggleSeparateDirs(ToggleSeparateDirs(cfg)) ==
              cfg[SeparateKey := Bool(Truthy(Get(cfg, SeparateKey, Bool(false))))]
    ensures SeparateKey in cfg && cfg[SeparateKey].Bool? ==>
              ToggleSeparateDirs(ToggleSeparateDirs(cfg)) == cfg
  {
  }
}
