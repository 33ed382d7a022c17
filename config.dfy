/** Choosing the logger's level from the configured level name. */
module Config {
  import opened GoStrings

  /** The four levels of Go's `slog`, as its integer constants. */
  const LevelDebug: int := -4
  const LevelInfo: int := 0
  const LevelWarn: int := 4
  const LevelError: int := 8

  /** `GetLogLevel`: the name is lower-cased and matched against "debug",
      "info", "warn" and "error"; every other name, the empty one included,
      gives Info. */
  function GetLogLevel(logLevel: string): (level: int)
    ensures level == LevelDebug || level == LevelInfo || level == LevelWarn || level == LevelError
    ensures level == LevelDebug <==> ToLower(logLevel) == "debug"
    ensures level == LevelWarn <==> ToLower(logLevel) == "warn"
    ensures level == LevelError <==> ToLower(logLevel) == "error"
    ensures level == LevelInfo <==>
      ToLower(logLevel) != "debug" && ToLower(logLevel) != "warn" && ToLower(logLevel) != "error"
  {
    var level := ToLower(logLevel);
    if level == "debug" then LevelDebug
    else if level == "info" then LevelInfo
    else if level == "warn" then LevelWarn
    else if level == "error" then LevelError
    else LevelInfo
  }

  /** Only the lower-cased name matters: names that differ in letter case
      give the same level. */
  lemma GetLogLevelIgnoresCase(a: string, b: string)
    requires ToLower(a) == ToLower(b)
    ensures GetLogLevel(a) == GetLogLevel(b)
  {
  }

  lemma GetLogLevelLowered(logLevel: string)
    ensures GetLogLevel(ToLower(logLevel)) == GetLogLevel(logLevel)
  {
    ToLowerIdempotent(logLevel);
  }

  /** "DEBUG" and "Debug" are both Debug. */
  lemma GetLogLevelDebugAnyCase()
    ensures GetLogLevel("DEBUG") == LevelDebug && GetLogLevel("Debug") == LevelDebug
  {
    assert ToLower("DEBUG") == "debug";
    assert ToLower("Debug") == "debug";
  }

  /** "info" and the empty name are Info, "warn" is Warn and "error" is
      Error. */
  lemma GetLogLevelExamples()
    ensures GetLogLevel("info") == LevelInfo && GetLogLevel("") == LevelInfo
    ensures GetLogLevel("warn") == LevelWarn && GetLogLevel("error") == LevelError
  {
    ToLowerNoUpper("info");
    ToLowerNoUpper("warn");
    ToLowerNoUpper("error");
  }
}
