/**
 * Application settings (src/utils/config.rs): the defaults, the log level
 * they select, loading with a default written on first use, and where the
 * database file lives. Paths follow Unix `PathBuf::join`.
 */
module Config {
  import opened Basics

  datatype LogConfig = LogConfig(level: string)
  datatype DatabaseConfig = DatabaseConfig(dbName: string)
  datatype Config = Config(logging: LogConfig, database: DatabaseConfig)

  /** `Config::default`: log level "info", database file "pass.db". */
  function Default(): (c: Config)
    ensures c.logging.level == "info"
    ensures c.database.dbName == "pass.db"
  {
    Config(LogConfig("info"), DatabaseConfig("pass.db"))
  }

  // ---------------------------------------------------------------------
  // Log level

  /** The `log` crate's level filters. */
  datatype LevelFilter = Off | Error | Warn | Info | Debug | Trace

  /** The configuration spelling of a filter; `Off` has none. */
  function LevelName(f: LevelFilter): (s: Option<string>)
    ensures s.None? <==> f == Off
  {
    match f
    case Off => None
    case Error => Some("error")
    case Warn => Some("warn")
    case Info => Some("info")
    case Debug => Some("debug")
    case Trace => Some("trace")
  }

  /**
   * The level `setup_logger` installs for a configured level string: the
   * five exact lower-case names select their filter, and anything else
   * falls back to `Info`. Never `Off`.
   */
  function LevelOf(level: string): (f: LevelFilter)
    ensures f != Off
    ensures f != Info ==> LevelName(f) == Some(level)
  {
    match level
    case "trace" => Trace
    case "debug" => Debug
    case "info" => Info
    case "warn" => Warn
    case "error" => Error
    case _ => Info
  }

  /** Every filter but `Off` is selected by its own name. */
  lemma LevelOfName(f: LevelFilter)
    requires f != Off
    ensures LevelOf(LevelName(f).value) == f
  {
  }

  /** A string that is no filter's name selects `Info`. */
  lemma UnknownLevelIsInfo(level: string)
    requires forall f :: LevelName(f) != Some(level)
    ensures LevelOf(level) == Info
  {
    assert LevelName(Info) != Some(level);
  }

  /** Spellings that differ from the names only in case also select `Info`. */
  lemma LevelNamesAreCaseSensitive()
    ensures LevelOf("DEBUG") == Info && LevelOf("Error") == Info && LevelOf("") == Info
  {
  }

  /** The default configuration logs at `Info`. */
  lemma DefaultLevel()
    ensures LevelOf(Default().logging.level) == Info
  {
  }

  // ---------------------------------------------------------------------
  // Paths

  predicate IsAbsolute(p: string) {
    |p| > 0 && p[0] == '/'
  }

  /**
   * `PathBuf::join` on Unix: an absolute path replaces the base; otherwise
   * the two are joined with one `/`, unless the base is empty or already
   * ends in one.
   */
  function Join(base: string, p: string): (r: string)
    ensures IsAbsolute(p) ==> r == p
    ensures !IsAbsolute(p) ==> r == base + p || r == base + "/" + p
    ensures !IsAbsolute(p) ==> (r == base + p <==> base == [] || base[|base| - 1] == '/')
  {
    if IsAbsolute(p) then p
    else if base == [] || base[|base| - 1] == '/' then base + p
    else base + "/" + p
  }

  /** The application's directory below the user's configuration directory. */
  const AppDir: string := "karnes-development/rusty-toolkit"

  datatype ConfigError =
    | NoConfigDir
      /** The configuration file does not parse. */
    | Unparsable

  /**
   * `get_config_dir`, given what the platform reports as the user's
   * configuration directory (`None` when it has none).
   */
  function ConfigDir(platformDir: Option<string>): (r: Result<string, ConfigError>)
    ensures platformDir.None? <==> r == Err(NoConfigDir)
    ensures r.Ok? ==> |r.value| > 0 && r.value[|r.value| - 1] != '/'
  {
    match platformDir
    case None => Err(NoConfigDir)
    case Some(d) => Ok(Join(d, AppDir))
  }

  /** `get_db_path`: the configured database file name joined onto the application directory. */
  function DbPath(c: Config, platformDir: Option<string>): (r: Result<string, ConfigError>)
    ensures platformDir.None? <==> r == Err(NoConfigDir)
  {
    match ConfigDir(platformDir)
    case Err(e) => Err(e)
    case Ok(dir) => Ok(Join(dir, c.database.dbName))
  }

  /**
   * A relative database name is the final component of the database path:
   * it follows the application directory after exactly one `/`, and when it
   * holds no `/` itself, no `/` follows that one.
   */
  lemma DbNameIsLastComponent(c: Config, d: string)
    requires !IsAbsolute(c.database.dbName)
    ensures var path := DbPath(c, Some(d));
      && path.Ok?
      && path.value == ConfigDir(Some(d)).value + "/" + c.database.dbName
      && path.value[|path.value| - |c.database.dbName| - 1] == '/'
      && ('/' !in c.database.dbName ==>
            forall i :: |path.value| - |c.database.dbName| <= i < |path.value| ==> path.value[i] != '/')
  {
    var path := DbPath(c, Some(d)).value;
    var name := c.database.dbName;
    forall i | |path| - |name| <= i < |path|
      ensures path[i] == name[i - (|path| - |name|)]
    {
    }
  }

  /** The default database is `pass.db` in the application directory below the platform's one. */
  lemma DefaultDbPath(d: string)
    requires d != [] && d[|d| - 1] != '/'
    ensures DbPath(Default(), Some(d)) == Ok(d + "/" + AppDir + "/" + "pass.db")
  {
    assert ConfigDir(Some(d)) == Ok(d + "/" + AppDir);
  }

  /** An absolute database name is used as it stands, wherever the configuration lives. */
  lemma AbsoluteDbNameWins(c: Config, d: string)
    requires IsAbsolute(c.database.dbName)
    ensures DbPath(c, Some(d)) == Ok(c.database.dbName)
  {
  }

  // ---------------------------------------------------------------------
  // Loading

  /**
   * The `config.toml` file in the application directory: absent, or present
   * with the configuration it parses to (`None` when it does not parse).
   */
  class ConfigFile {
    var stored: Option<Option<Config>>

    constructor (stored: Option<Option<Config>>)
      ensures this.stored == stored
    {
      this.stored := stored;
    }
  }

  /**
   * `Config::load`: the configuration the file holds; when there is no
   * file, the default, which is also written out so later loads find it.
   */
  method Load(file: ConfigFile, platformDir: Option<string>) returns (r: Result<Config, ConfigError>)
    modifies file
    ensures platformDir.None? ==> r == Err(NoConfigDir) && file.stored == old(file.stored)
    ensures platformDir.Some? && old(file.stored).None? ==>
      r == Ok(Default()) && file.stored == Some(Some(Default()))
    ensures platformDir.Some? && old(file.stored).Some? ==>
      && file.stored == old(file.stored)
      && (r.Ok? <==> old(file.stored).value.Some?)
      && (r.Ok? ==> r.value == old(file.stored).value.value)
      && (r.Err? ==> r.error == Unparsable)
  {
    var dir := ConfigDir(platformDir);
    if dir.Err? {
      return Err(dir.error);
    }
    match file.stored
    case Some(parsed) =>
      if parsed.None? {
        return Err(Unparsable);
      }
      r := Ok(parsed.value);
    case None =>
      var defaultConfig := Default();
      file.stored := Some(Some(defaultConfig));
      r := Ok(defaultConfig);
  }

  /**
   * First start and the start after it: with no configuration file, both
   * loads give the default configuration, with level "info" and database
   * "pass.db".
   */
  method LoadTwice(platformDir: string) returns (first: Result<Config, ConfigError>, second: Result<Config, ConfigError>)
    ensures first == Ok(Default()) && second == first
    ensures first.value.logging.level == "info" && first.value.database.dbName == "pass.db"
  {
    var file := new ConfigFile(None);
    first := Load(file, Some(platformDir));
    second := Load(file, Some(platformDir));
  }
}
