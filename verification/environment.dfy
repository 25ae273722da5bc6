/** `get_env_var` and `fatal_error`, identical in both server scripts.
    The process environment is a map; ending the process is an error value. */
module Environment {
  import opened Outcomes

  type Env = map<string, string>

  /** Why `fatal_error` raises `SystemExit`. At start-up that ends the
      process; inside a request handler of the threading server it ends only
      that request's worker thread, which closes the connection unanswered. */
  datatype FatalReason =
    | MustBeSet(name: string)       // a required variable is missing
    | NoDefault(name: string)       // an optional variable is missing and has no default
    | NotADirectory(path: string)   // the scan directory path is a regular file

  /** `fatal_error(message, exit_code)`: message to stderr, then `sys.exit(exit_code)`. */
  datatype Fatal = Fatal(exitCode: int, reason: FatalReason)

  /** The default `exit_code` of `fatal_error`. */
  const ExitFailure := 1

  /** The scanner address both scripts read. */
  const ScannerIpVar := "SCANNER_IP"

  /** The scan resolution both scripts read. */
  const DpiVar := "DPI"

  /** The resolution both scripts fall back to when `DPI` is not set. */
  const DefaultDpi := "300"

  /** The resolution `get_env_var("DPI", default="300")` yields. */
  function Dpi(env: Env): (r: string)
    ensures r == DefaultDpi <==> DpiVar !in env || env[DpiVar] == DefaultDpi
    ensures GetEnvVar(env, DpiVar, Some(DefaultDpi), false) == Success(r)
  {
    if DpiVar in env then env[DpiVar] else DefaultDpi
  }

  /** `get_env_var(name, default, required)`. A set variable wins over
      everything; a missing one is fatal when required (even with a default)
      or when no default is given, and otherwise yields the default. */
  function GetEnvVar(env: Env, name: string, default: Option<string>, required: bool): (r: Result<string, Fatal>)
    ensures r.Success? <==> name in env || (!required && default.Some?)
    ensures name in env ==> r == Success(env[name])
    ensures name !in env && required ==> r == Failure(Fatal(1, MustBeSet(name)))
    ensures name !in env && !required && default.None? ==> r == Failure(Fatal(1, NoDefault(name)))
    ensures name !in env && !required && default.Some? ==> r == Success(default.value)
  {
    if name in env then Success(env[name])
    else if required then Failure(Fatal(ExitFailure, MustBeSet(name)))
    else if default.None? then Failure(Fatal(ExitFailure, NoDefault(name)))
    else Success(default.value)
  }
}
