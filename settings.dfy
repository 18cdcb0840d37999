/** The validators of `Settings` in `utils/setting.py`. */
module Settings {
  import opened Wrappers
  import opened Text

  const Environments: seq<string> := ["development", "staging", "production"]
  const LogLevels: seq<string> := ["TRACE", "DEBUG", "INFO", "SUCCESS", "WARNING", "ERROR", "CRITICAL"]

  /** `validate_environment`: one of the three names, exactly as written. */
  function ValidateEnvironment(v: string): (r: Result<string>)
    ensures r.Ok? <==> v in Environments
    ensures r.Ok? ==> r.value == v
    ensures r.Err? ==> r.error == ValueError
  {
    if v in Environments then Ok(v) else Err(ValueError)
  }

  /** `validate_log_level`: the upper-cased name, when it is a level. */
  function ValidateLogLevel(v: string): (r: Result<string>)
    ensures r.Ok? <==> Upper(v) in LogLevels
    ensures r.Ok? ==> r.value == Upper(v) && r.value in LogLevels
    ensures r.Err? ==> r.error == ValueError
  {
    if Upper(v) in LogLevels then Ok(Upper(v)) else Err(ValueError)
  }

  /** Validating a validated level gives it back. */
  lemma LogLevelIdempotent(v: string)
    requires ValidateLogLevel(v).Ok?
    ensures ValidateLogLevel(ValidateLogLevel(v).value) == ValidateLogLevel(v)
  {
    UpperIdempotent(v);
  }

  /** The case of a level name does not matter. */
  lemma LogLevelCase(v: string, w: string)
    requires Upper(v) == Upper(w)
    ensures ValidateLogLevel(v) == ValidateLogLevel(w)
  {
  }

  /** `Path(p).is_absolute()` for a POSIX path. */
  predicate IsAbsolute(p: string) { p != [] && p[0] == '/' }

  /** `get_log_file_path`: an absolute `log_file` as it is, a relative one
      under the project root (the root is a parameter). */
  function GetLogFilePath(logFile: string, projectRoot: string): (r: string)
    ensures IsAbsolute(logFile) ==> r == logFile
    ensures !IsAbsolute(logFile) ==> |r| == |projectRoot| + 1 + |logFile|
    ensures !IsAbsolute(logFile) ==> r[|r| - |logFile|..] == logFile && r[..|projectRoot|] == projectRoot
  {
    if IsAbsolute(logFile) then logFile else projectRoot + "/" + logFile
  }

  /** With an absolute project root the log file path is always absolute. */
  lemma LogFileAbsolute(logFile: string, projectRoot: string)
    requires IsAbsolute(projectRoot)
    ensures IsAbsolute(GetLogFilePath(logFile, projectRoot))
  {
  }
}
