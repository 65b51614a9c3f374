/** The command line (`main`): which of help, version, config path or the
    daemon the first argument selects, and the exit status. */
module Cli {
  import opened Errors
  import Config
  import Monitor

  /** The compiled-in configuration path. */
  const ConfigPath: string := "/usr/local/etc/conf.d/templimiter.conf"

  /** A C string cannot hold a NUL. */
  predicate NoNul(s: string) {
    forall k :: 0 <= k < |s| ==> s[k] != '\0'
  }

  /** The character a C string shows at its start: its terminator once it
      is exhausted. */
  function Head(s: string): char {
    if |s| == 0 then '\0' else s[0]
  }

  /** `strncmp(a, b, n) == 0`: the first `n` characters agree, where the
      comparison also stops after a shared terminator. */
  function StrnEq(a: string, b: string, n: nat): bool
    decreases n
  {
    if n == 0 then true
    else if Head(a) != Head(b) then false
    else if Head(a) == '\0' then true
    else StrnEq(a[1..], b[1..], n - 1)
  }

  /** What `strncmp` decides, in string terms: with a bound past the end of
      the literal it is equality, otherwise a shared prefix of `n`
      characters. */
  lemma {:induction false} StrnEqMeaning(a: string, b: string, n: nat)
    requires NoNul(a) && NoNul(b)
    ensures n > |b| ==> (StrnEq(a, b, n) <==> a == b)
    ensures n <= |b| ==> (StrnEq(a, b, n) <==> |a| >= n && a[..n] == b[..n])
    decreases n
  {
    if n > 0 && |a| > 0 && |b| > 0 && a[0] == b[0] {
      StrnEqMeaning(a[1..], b[1..], n - 1);
      assert a == [a[0]] + a[1..] && b == [b[0]] + b[1..];
      if n <= |b| {
        assert |a| >= n ==> a[..n] == [a[0]] + a[1..][..n - 1];
        assert b[..n] == [b[0]] + b[1..][..n - 1];
      }
    } else if n > 0 && |a| > 0 && |b| > 0 {
      assert n <= |b| && |a| >= n ==> a[..n][0] == a[0] && b[..n][0] == b[0];
    } else if n > 0 && |a| > 0 {
      assert a[0] != '\0';
    } else if n > 0 && |b| > 0 {
      assert b[0] != '\0';
    }
  }

  datatype Action = Help | Version | WhichConf | Run(debug: bool)

  /** What `main` does with its arguments (those after the program name):
      the action, and whether it warns that only the first is used. */
  datatype Invocation = Invocation(action: Action, warned: bool)

  function Select(arg: string): Action {
    if StrnEq(arg, "-h", 3) || StrnEq(arg, "--help", 7) then Help
    else if StrnEq(arg, "-v", 3) || StrnEq(arg, "--version", 10) then Version
    else if StrnEq(arg, "-w", 3) || StrnEq(arg, "--which-conf", 7) then WhichConf
    else Run(StrnEq(arg, "-d", 3) || StrnEq(arg, "--debug", 8))
  }

  /** `main`'s flag dispatch. Help, version and debug need the exact flag;
      any argument that starts with "--which" prints the configuration
      path, because the comparison stops after seven characters. */
  function Dispatch(args: seq<string>): (r: Invocation)
    requires forall k :: 0 <= k < |args| ==> NoNul(args[k])
    ensures r.warned <==> |args| > 1
    ensures |args| == 0 ==> r.action == Run(false)
    ensures |args| > 0 ==>
              var a := args[0];
              && (r.action == Help <==> a == "-h" || a == "--help")
              && (r.action == Version <==> a == "-v" || a == "--version")
              && (r.action == WhichConf <==> a == "-w" || (|a| >= 7 && a[..7] == "--which"))
              && (r.action.Run? <==> a !in {"-h", "--help", "-v", "--version", "-w"} && !(|a| >= 7 && a[..7] == "--which"))
              && (r.action.Run? ==> (r.action.debug <==> a == "-d" || a == "--debug"))
  {
    if |args| == 0 then Invocation(Run(false), false)
    else
      var a := args[0];
      StrnEqMeaning(a, "-h", 3);
      StrnEqMeaning(a, "--help", 7);
      StrnEqMeaning(a, "-v", 3);
      StrnEqMeaning(a, "--version", 10);
      StrnEqMeaning(a, "-w", 3);
      StrnEqMeaning(a, "--which-conf", 7);
      StrnEqMeaning(a, "-d", 3);
      StrnEqMeaning(a, "--debug", 8);
      assert "--which-conf"[..7] == "--which";
      Invocation(Select(a), |args| > 1)
  }

  /** Only the first argument counts: the rest change nothing but the
      warning. */
  lemma FirstArgumentDecides(a: string, rest: seq<string>)
    requires NoNul(a) && forall k :: 0 <= k < |rest| ==> NoNul(rest[k])
    ensures Dispatch([a] + rest).action == Dispatch([a]).action
    ensures "--which-conf-please" == a ==> Dispatch([a]).action == WhichConf
  {
    assert ([a] + rest)[0] == a;
  }

  /** The daemon's start: load the configuration, then construct the
      monitor, whose loop only ends by an error. */
  function Launch(env: Config.Env, ceilings: seq<int>): (r: Result<Monitor.Loop>)
    requires Config.SelfStatUsable(env.fs)
    requires Config.ConfigLines(env.fs, ConfigPath).Ok? ==> Config.WellFormed(Config.ConfigLines(env.fs, ConfigPath).value)
    ensures r.Ok? ==> Config.Load(env, ConfigPath).Ok? && Config.Load(env, ConfigPath).value.settings.useThrottle
    ensures Config.Load(env, ConfigPath).Err? ==> r == Err(Config.Load(env, ConfigPath).error)
    ensures Config.Load(env, ConfigPath).Ok? && !Config.Load(env, ConfigPath).value.settings.useThrottle ==>
              r.Err? && r.error.InternalError?
  {
    var c :- Config.Load(env, ConfigPath);
    Monitor.Start(c, ceilings)
  }

  /** The exit status `main` returns, or None while the daemon runs: 0 for
      help, version and the config path, 1 when starting the daemon
      fails. An error from a later iteration of the loop, such as a failed
      stat read, also ends `main` with 1 through the same catch blocks; the
      iterations are not part of this function. */
  function Exit(args: seq<string>, env: Config.Env, ceilings: seq<int>): (r: Option<int>)
    requires forall k :: 0 <= k < |args| ==> NoNul(args[k])
    requires Config.SelfStatUsable(env.fs)
    requires Config.ConfigLines(env.fs, ConfigPath).Ok? ==> Config.WellFormed(Config.ConfigLines(env.fs, ConfigPath).value)
    ensures !Dispatch(args).action.Run? ==> r == Some(0)
    ensures Dispatch(args).action.Run? ==> (r == Some(1) <==> Launch(env, ceilings).Err?)
    ensures Dispatch(args).action.Run? ==> (r.None? <==> Launch(env, ceilings).Ok?)
  {
    if !Dispatch(args).action.Run? then Some(0)
    else if Launch(env, ceilings).Err? then Some(1)
    else None
  }

  /** A configuration that enables SIGSTOP alone passes validation, yet the
      daemon exits with status 1: the monitor's constructor reads the
      ceilings through a throttle-only accessor. */
  lemma SigstopOnlyExitsWithError(args: seq<string>, env: Config.Env, ceilings: seq<int>)
    requires forall k :: 0 <= k < |args| ==> NoNul(args[k])
    requires Config.SelfStatUsable(env.fs)
    requires Config.ConfigLines(env.fs, ConfigPath).Ok? ==> Config.WellFormed(Config.ConfigLines(env.fs, ConfigPath).value)
    requires Dispatch(args).action.Run?
    requires Config.Load(env, ConfigPath).Ok? && !Config.Load(env, ConfigPath).value.settings.useThrottle
    ensures Exit(args, env, ceilings) == Some(1)
    ensures Config.Load(env, ConfigPath).value.settings.useSigstop
  {
  }
}
