/**
 * Settings of the gateway (app/config.py): the declared defaults of the base
 * Settings record, the two environment-specific variants, and get_settings,
 * which picks one from the value of the ENVIRONMENT variable.
 */
module Config {
  import opened Wrappers
  import Models

  datatype Settings = Settings(
    appName: string,
    appVersion: string,
    debug: bool,
    host: string,
    port: nat,
    reload: bool,
    apiKey: Option<string>,
    secretKey: string,
    semgrepTimeout: nat,
    semgrepMaxMemory: nat,
    maxFileSize: nat,
    maxFilesPerRequest: nat,
    logLevel: string)

  /** Two settings that agree on everything but debug, reload and the log level. */
  predicate SameExceptMode(a: Settings, b: Settings) {
    a.(debug := b.debug, reload := b.reload, logLevel := b.logLevel) == b
  }

  /** The defaults declared on the base Settings class: debugging and
      reloading off at INFO level, no API key, and upload limits equal to the
      ones the request models enforce. */
  function BaseSettings(): (s: Settings)
    ensures !s.debug && !s.reload && s.logLevel == "INFO"
    ensures s.apiKey == None
    ensures s.maxFileSize == Models.MaxFileContentLength
    ensures s.maxFilesPerRequest == Models.MaxFiles
  {
    Settings(
      appName := "Semgrep API",
      appVersion := "2.0.0",
      debug := false,
      host := "0.0.0.0",
      port := 8000,
      reload := false,
      apiKey := None,
      secretKey := "your-secret-key-change-in-production",
      semgrepTimeout := 300,
      semgrepMaxMemory := 4096,
      maxFileSize := 10 * 1024 * 1024,
      maxFilesPerRequest := 50,
      logLevel := "INFO")
  }

  /** DevelopmentConfig: the base settings with debugging and reloading on at
      DEBUG level, and nothing else changed. */
  function DevelopmentSettings(): (s: Settings)
    ensures SameExceptMode(s, BaseSettings())
    ensures s.debug && s.reload && s.logLevel == "DEBUG"
  {
    BaseSettings().(debug := true, reload := true, logLevel := "DEBUG")
  }

  /** ProductionConfig: the base settings with debugging and reloading off at
      WARNING level, and nothing else changed. */
  function ProductionSettings(): (s: Settings)
    ensures SameExceptMode(s, BaseSettings())
    ensures !s.debug && !s.reload && s.logLevel == "WARNING"
  {
    BaseSettings().(debug := false, reload := false, logLevel := "WARNING")
  }

  /** The value os.getenv("ENVIRONMENT", "development") yields; None when the variable is unset. */
  function EnvironmentName(env: Option<string>): string {
    match env
    case None => "development"
    case Some(v) => v
  }

  /** get_settings: exact, case-sensitive dispatch on the environment name. */
  function GetSettings(env: Option<string>): (s: Settings)
    ensures EnvironmentName(env) == "production" ==>
      !s.debug && !s.reload && s.logLevel == "WARNING"
    ensures EnvironmentName(env) == "development" ==>
      s.debug && s.reload && s.logLevel == "DEBUG"
    ensures EnvironmentName(env) !in {"production", "development"} ==>
      !s.debug && !s.reload && s.logLevel == "INFO"
    ensures SameExceptMode(s, BaseSettings())
    ensures s.debug <==> s.reload
    ensures s.maxFileSize == Models.MaxFileContentLength
    ensures s.maxFilesPerRequest == Models.MaxFiles
  {
    var name := EnvironmentName(env);
    if name == "production" then ProductionSettings()
    else if name == "development" then DevelopmentSettings()
    else BaseSettings()
  }

  /** An unset ENVIRONMENT selects the development settings. */
  lemma UnsetEnvironmentIsDevelopment()
    ensures GetSettings(None) == DevelopmentSettings()
    ensures GetSettings(None).debug && GetSettings(None).logLevel == "DEBUG"
  {
  }

  /** Matching is case-sensitive: "Production" gets the base settings, not production's. */
  lemma EnvironmentMatchIsCaseSensitive()
    ensures GetSettings(Some("Production")) == BaseSettings()
    ensures GetSettings(Some("Production")) != GetSettings(Some("production"))
  {
  }

  /** Every environment shares the same scan limits, server address, version and key. */
  lemma SharedDefaults(env: Option<string>)
    ensures var s := GetSettings(env);
      && s.semgrepTimeout == 300 && s.semgrepMaxMemory == 4096
      && s.maxFileSize == 10 * 1024 * 1024 && s.maxFilesPerRequest == 50
      && s.host == "0.0.0.0" && s.port == 8000
      && s.appVersion == "2.0.0" && s.apiKey == None
  {
  }

  /** The three possible outcomes are pairwise different, so the environment
      name determines which variant is in force. */
  lemma VariantsDistinct()
    ensures BaseSettings() != DevelopmentSettings()
    ensures BaseSettings() != ProductionSettings()
    ensures DevelopmentSettings() != ProductionSettings()
  {
  }
}
