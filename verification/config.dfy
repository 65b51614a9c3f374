/** The daemon's configuration: tag lookup over the lines of the
    configuration file, scalar and list loading with defaults, the
    cross-field validation that derives the file collections, and the
    mode-gated accessors. */
module Config {
  import opened Errors
  import Text
  import Vectors
  import Convert
  import Files

  // ---------------------------------------------------------------------
  // lines and tags

  /** Every line has a first token; a blank line would make the loader
      index an empty split, which the source leaves undefined. */
  predicate WellFormed(lines: seq<string>) {
    forall k :: 0 <= k < |lines| ==> |Text.Split(lines[k], ' ')| > 0
  }

  function FirstToken(line: string): string
    requires |Text.Split(line, ' ')| > 0
  {
    Text.Split(line, ' ')[0]
  }

  /** The tokens right of the tag, as `subvect(spl, 1, size - 1)` cuts them. */
  function ValueTokens(line: string): (r: seq<string>)
    requires |Text.Split(line, ' ')| > 0
    ensures [FirstToken(line)] + r == Text.Split(line, ' ')
  {
    var spl := Text.Split(line, ' ');
    var r := Vectors.Subvect(spl, 1, |spl| - 1).value;
    assert r == spl[1..];
    r
  }

  /** The indices, from `from` on, of the lines whose first token is `tag`. */
  function IndicesFrom(lines: seq<string>, tag: string, from: nat): (r: seq<nat>)
    requires WellFormed(lines) && from <= |lines|
    ensures forall k: nat :: k in r <==> from <= k < |lines| && FirstToken(lines[k]) == tag
    ensures forall a :: 0 <= a < |r| ==> from <= r[a]
    ensures forall a, b :: 0 <= a < b < |r| ==> r[a] < r[b]
    decreases |lines| - from
  {
    if from == |lines| then []
    else
      var rest := IndicesFrom(lines, tag, from + 1);
      if FirstToken(lines[from]) == tag then
        assert forall k: nat :: k in [from] + rest <==> k == from || k in rest;
        [from] + rest
      else rest
  }

  /** `indices_of_tag_(tag)`: every line whose first token is the tag, in
      increasing order. */
  function IndicesOfTag(lines: seq<string>, tag: string): (r: seq<nat>)
    requires WellFormed(lines)
    ensures forall k: nat :: k in r <==> k < |lines| && FirstToken(lines[k]) == tag
    ensures forall a, b :: 0 <= a < b < |r| ==> r[a] < r[b]
  {
    IndicesFrom(lines, tag, 0)
  }

  /** No line configures the tag. */
  predicate Absent(lines: seq<string>, tag: string)
    requires WellFormed(lines)
  {
    forall k :: 0 <= k < |lines| ==> FirstToken(lines[k]) != tag
  }

  /** Two different lines configure the tag. */
  predicate Repeated(lines: seq<string>, tag: string)
    requires WellFormed(lines)
  {
    exists i, j :: 0 <= i < j < |lines| && FirstToken(lines[i]) == tag && FirstToken(lines[j]) == tag
  }

  /** Line `i`, and no other, configures the tag. */
  predicate OnlyAt(lines: seq<string>, tag: string, i: int)
    requires WellFormed(lines)
  {
    && 0 <= i < |lines|
    && FirstToken(lines[i]) == tag
    && forall k :: 0 <= k < |lines| && k != i ==> FirstToken(lines[k]) != tag
  }

  /** The three shapes of a tag lookup: no index, several, or exactly one. */
  lemma IndicesCases(lines: seq<string>, tag: string)
    requires WellFormed(lines)
    ensures Absent(lines, tag) <==> |IndicesOfTag(lines, tag)| == 0
    ensures Repeated(lines, tag) <==> |IndicesOfTag(lines, tag)| > 1
    ensures forall i :: OnlyAt(lines, tag, i) ==> IndicesOfTag(lines, tag) == [i]
  {
    var r := IndicesOfTag(lines, tag);
    if |r| > 0 {
      assert r[0] in r;
    }
    if !Absent(lines, tag) {
      var k :| 0 <= k < |lines| && FirstToken(lines[k]) == tag;
      assert k in r;
    }
    if |r| > 1 {
      assert r[0] in r && r[1] in r;
      assert r[0] < r[1];
    }
    if Repeated(lines, tag) {
      var i, j :| 0 <= i < j < |lines| && FirstToken(lines[i]) == tag && FirstToken(lines[j]) == tag;
      assert i in r && j in r;
    }
    forall i | OnlyAt(lines, tag, i)
      ensures r == [i]
    {
      assert i in r;
      assert !Repeated(lines, tag);
      assert r[0] in r;
    }
  }

  // ---------------------------------------------------------------------
  // loading

  const DuplicateMessage: string := "Multiple indices found for tag. Config should only have one value."
  const SeveralValuesMessage: string := "Expected only one element in configuration setting."
  const DefaultThermalMatcher: string := "/sys/devices/virtual/thermal/thermal_zone*/temp"
  const DefaultScalingMaxMatcher: string := "/sys/devices/system/cpu/cpu*/cpufreq/scaling_max_freq"
  const DefaultCpuinfoMaxMatcher: string := "/sys/devices/system/cpu/cpu*/cpufreq/cpuinfo_max_freq"
  const DefaultCpuinfoMinMatcher: string := "/sys/devices/system/cpu/cpu*/cpufreq/cpuinfo_min_freq"
  const DefaultAvailableMatcher: string := "/sys/devices/system/cpu/cpu*/cpufreq/scaling_available_frequencies"

  function Duplicate(tag: string): Error {
    ConfigError(tag, "", DuplicateMessage)
  }

  /** The catch block around `convert`: a type error becomes a configuration
      error naming the tag and the offending text; others pass through. */
  function Rewrap<T>(tag: string, shown: string, c: Result<T>): Result<T> {
    if c.Err? && c.error.TypeError? then Err(ConfigError(tag, shown, "Unable to convert type.")) else c
  }

  /** `load_from_tag_<T>(tag, defval)` for a scalar setting. */
  function LoadScalar<T>(lines: seq<string>, tag: string, def: T, conv: string -> Result<T>): (r: Result<T>)
    requires WellFormed(lines)
    ensures Absent(lines, tag) ==> r == Ok(def)
    ensures Repeated(lines, tag) ==> r == Err(Duplicate(tag))
  {
    IndicesCases(lines, tag);
    var idx := IndicesOfTag(lines, tag);
    if |idx| == 0 then Ok(def)
    else if |idx| > 1 then Err(Duplicate(tag))
    else
      assert idx[0] in idx;
      var vals := ValueTokens(lines[idx[0]]);
      if |vals| < 1 then Ok(def)
      else if |vals| > 1 then
        Err(ConfigError(tag, Vectors.Join(vals, ", "), SeveralValuesMessage))
      else Rewrap(tag, vals[0], conv(vals[0]))
  }

  /** A scalar lookup: the default when no line or an empty line configures
      the tag, an error for a repeated tag or several values, and otherwise
      the converted value, a type error becoming a configuration error. */
  lemma LoadScalarCases<T>(lines: seq<string>, tag: string, def: T, conv: string -> Result<T>)
    requires WellFormed(lines)
    ensures Absent(lines, tag) ==> LoadScalar(lines, tag, def, conv) == Ok(def)
    ensures Repeated(lines, tag) ==> LoadScalar(lines, tag, def, conv) == Err(Duplicate(tag))
    ensures forall i | OnlyAt(lines, tag, i) :: |ValueTokens(lines[i])| == 0 ==>
              LoadScalar(lines, tag, def, conv) == Ok(def)
    ensures forall i | OnlyAt(lines, tag, i) :: |ValueTokens(lines[i])| > 1 ==>
              LoadScalar(lines, tag, def, conv)
              == Err(ConfigError(tag, Vectors.Join(ValueTokens(lines[i]), ", "),
                                 SeveralValuesMessage))
    ensures forall i | OnlyAt(lines, tag, i) :: |ValueTokens(lines[i])| == 1 ==>
              var x := ValueTokens(lines[i])[0];
              var r := LoadScalar(lines, tag, def, conv);
              && (conv(x).Ok? ==> r == conv(x))
              && (conv(x).Err? && conv(x).error.TypeError? ==> r == Err(ConfigError(tag, x, "Unable to convert type.")))
              && (conv(x).Err? && !conv(x).error.TypeError? ==> r == conv(x))
  {
    IndicesCases(lines, tag);
  }

  /** `load_from_tag_<T>(tag, defval)` for a list setting. */
  function LoadVector<T>(lines: seq<string>, tag: string, def: seq<T>, conv: string -> Result<T>): (r: Result<seq<T>>)
    requires WellFormed(lines)
    ensures Absent(lines, tag) ==> r == Ok(def)
    ensures Repeated(lines, tag) ==> r == Err(Duplicate(tag))
  {
    IndicesCases(lines, tag);
    var idx := IndicesOfTag(lines, tag);
    if |idx| == 0 then Ok(def)
    else if |idx| > 1 then Err(Duplicate(tag))
    else
      assert idx[0] in idx;
      var vals := ValueTokens(lines[idx[0]]);
      if |vals| < 1 then Ok(def)
      else Rewrap(tag, Vectors.Join(vals, ", "), Convert.ConvertEach(conv, vals))
  }

  /** A list lookup: the default when no line or an empty line configures
      the tag, an error for a repeated tag, and otherwise every value token
      converted in order, a type error becoming a configuration error that
      shows all the tokens. */
  lemma LoadVectorCases<T>(lines: seq<string>, tag: string, def: seq<T>, conv: string -> Result<T>)
    requires WellFormed(lines)
    ensures Absent(lines, tag) ==> LoadVector(lines, tag, def, conv) == Ok(def)
    ensures Repeated(lines, tag) ==> LoadVector(lines, tag, def, conv) == Err(Duplicate(tag))
    ensures forall i | OnlyAt(lines, tag, i) :: |ValueTokens(lines[i])| == 0 ==>
              LoadVector(lines, tag, def, conv) == Ok(def)
    ensures forall i | OnlyAt(lines, tag, i) :: |ValueTokens(lines[i])| > 0 ==>
              var xs := ValueTokens(lines[i]);
              var r := LoadVector(lines, tag, def, conv);
              && (r.Ok? <==> forall k :: 0 <= k < |xs| ==> conv(xs[k]).Ok?)
              && (r.Ok? ==> |r.value| == |xs| && forall k :: 0 <= k < |xs| ==> r.value[k] == conv(xs[k]).value)
              && (r.Err? ==> exists k :: 0 <= k < |xs| && conv(xs[k]).Err?
                                         && (forall j :: 0 <= j < k ==> conv(xs[j]).Ok?)
                                         && r.error == (if conv(xs[k]).error.TypeError?
                                                        then ConfigError(tag, Vectors.Join(xs, ", "), "Unable to convert type.")
                                                        else conv(xs[k]).error))
  {
    IndicesCases(lines, tag);
  }

  // ---------------------------------------------------------------------
  // settings

  /** The configurable values, before validation derives anything. */
  datatype Settings = Settings(
    logFilePath: string,
    whitelistPid: seq<int>,
    whitelistComm: seq<string>,
    whitelistState: seq<char>,
    whitelistPpid: seq<int>,
    whitelistPgrp: seq<int>,
    whitelistSession: seq<int>,
    whitelistTtyNr: seq<int>,
    whitelistTpgid: seq<int>,
    whitelistFlags: seq<int>,
    maxNice: int,
    matcherThermal: string,
    matcherScalingMax: string,
    matcherCpuinfoMax: string,
    matcherCpuinfoMin: string,
    matcherScalingAvailable: string,
    useThrottle: bool,
    useSigstop: bool,
    useScalingAvailable: bool,
    stepwiseSigstop: bool,
    stepwiseSigcont: bool,
    tempSigstop: int,
    tempSigcont: int,
    tempThrottle: int,
    tempDethrottle: int,
    minSleep: int)

  const DefaultComms: seq<string> := [
    "dnsmasq", "systemd", "(sd-pam)", "startx", "xinit", "Xorg",
    "dbus-daemon", "rtkit-daemon", "at-spi-bus-laun", "at-spi2-registr",
    "wpa_supplicant", "dhcpcd", "systemd-journal", "lvmetad", "systemd-udevd",
    "upowerd", "systemd-timesyn", "systemd-machine", "firewalld",
    "systemd-logind", "polkitd", "haveged", "systemd-resolve", "systemd-network"]

  /** The hard-coded values a missing tag falls back to. */
  const Defaults: Settings := Settings(
    logFilePath := "/var/log/templimiter.log",
    whitelistPid := [],
    whitelistComm := DefaultComms,
    whitelistState := [],
    whitelistPpid := [],
    whitelistPgrp := [],
    whitelistSession := [],
    whitelistTtyNr := [],
    whitelistTpgid := [],
    whitelistFlags := [],
    maxNice := -21,
    matcherThermal := DefaultThermalMatcher,
    matcherScalingMax := DefaultScalingMaxMatcher,
    matcherCpuinfoMax := DefaultCpuinfoMaxMatcher,
    matcherCpuinfoMin := DefaultCpuinfoMinMatcher,
    matcherScalingAvailable := DefaultAvailableMatcher,
    useThrottle := true,
    useSigstop := false,
    useScalingAvailable := false,
    stepwiseSigstop := true,
    stepwiseSigcont := false,
    tempSigstop := 70000,
    tempSigcont := 66000,
    tempThrottle := 66000,
    tempDethrottle := 60000,
    minSleep := 500)

  /** `convert<std::string>(std::string)` is the identity. */
  function Verbatim(s: string): Result<string> {
    Ok(s)
  }

  function IntOf(t: Convert.IntType): string -> Result<int> {
    s => Convert.ConvertInt(t, s)
  }

  /** Whitelisted command names are matched against the parenthesised
      `comm` field of a stat line. */
  function Parenthesise(name: string): string {
    "(" + name + ")"
  }

  /** The log path and the whitelist tags, in source order. */
  function LoadWhitelists(lines: seq<string>, d: Settings): Result<Settings>
    requires WellFormed(lines)
  {
    var logFilePath :- LoadScalar(lines, "log_file_path", d.logFilePath, Verbatim);
    var pids :- LoadVector(lines, "whitelist_pid", d.whitelistPid, IntOf(Convert.Int));
    var comms :- LoadVector(lines, "whitelist_comm", d.whitelistComm, Verbatim);
    var states :- LoadVector(lines, "whitelist_state", d.whitelistState, Convert.ConvertChar);
    var ppids :- LoadVector(lines, "whitelist_ppid", d.whitelistPpid, IntOf(Convert.Int));
    var pgrps :- LoadVector(lines, "whitelist_pgrp", d.whitelistPgrp, IntOf(Convert.Int));
    var sessions :- LoadVector(lines, "whitelist_session", d.whitelistSession, IntOf(Convert.Int));
    var ttys :- LoadVector(lines, "whitelist_tty_nr", d.whitelistTtyNr, IntOf(Convert.Int));
    var tpgids :- LoadVector(lines, "whitelist_tpgid", d.whitelistTpgid, IntOf(Convert.Int));
    var flags :- LoadVector(lines, "whitelist_flags", d.whitelistFlags, IntOf(Convert.UInt));
    var maxNice :- LoadScalar(lines, "whitelist_max_nice", d.maxNice, IntOf(Convert.Long));
    Ok(d.(logFilePath := logFilePath, whitelistPid := pids, whitelistComm := comms,
          whitelistState := states, whitelistPpid := ppids, whitelistPgrp := pgrps,
          whitelistSession := sessions, whitelistTtyNr := ttys, whitelistTpgid := tpgids,
          whitelistFlags := flags, maxNice := maxNice))
  }

  /** The file matchers, in source order. */
  function LoadMatchers(lines: seq<string>, d: Settings): Result<Settings>
    requires WellFormed(lines)
  {
    var mThermal :- LoadScalar(lines, "matcher_thermal", d.matcherThermal, Verbatim);
    var mScalingMax :- LoadScalar(lines, "matcher_scaling_max_freq", d.matcherScalingMax, Verbatim);
    var mCpuMax :- LoadScalar(lines, "matcher_cpuinfo_max_freq", d.matcherCpuinfoMax, Verbatim);
    var mCpuMin :- LoadScalar(lines, "matcher_cpuinfo_min_freq", d.matcherCpuinfoMin, Verbatim);
    var mAvailable :- LoadScalar(lines, "matcher_scaling_available_frequencies", d.matcherScalingAvailable, Verbatim);
    Ok(d.(matcherThermal := mThermal, matcherScalingMax := mScalingMax, matcherCpuinfoMax := mCpuMax,
          matcherCpuinfoMin := mCpuMin, matcherScalingAvailable := mAvailable))
  }

  /** The mode switches, thresholds and sleep time, in source order. */
  function LoadModes(lines: seq<string>, d: Settings): Result<Settings>
    requires WellFormed(lines)
  {
    var useThrottle :- LoadScalar(lines, "use_throttle", d.useThrottle, Convert.ConvertBool);
    var useSigstop :- LoadScalar(lines, "use_SIGSTOP", d.useSigstop, Convert.ConvertBool);
    var useAvailable :- LoadScalar(lines, "use_scaling_available", d.useScalingAvailable, Convert.ConvertBool);
    var stepStop :- LoadScalar(lines, "use_stepwise_SIGSTOP", d.stepwiseSigstop, Convert.ConvertBool);
    var stepCont :- LoadScalar(lines, "use_stepwise_SIGCONT", d.stepwiseSigcont, Convert.ConvertBool);
    var tStop :- LoadScalar(lines, "temp_SIGSTOP", d.tempSigstop, IntOf(Convert.ULong));
    var tCont :- LoadScalar(lines, "temp_SIGCONT", d.tempSigcont, IntOf(Convert.ULong));
    var tThrottle :- LoadScalar(lines, "temp_throttle", d.tempThrottle, IntOf(Convert.ULong));
    var tDethrottle :- LoadScalar(lines, "temp_dethrottle", d.tempDethrottle, IntOf(Convert.ULong));
    var minSleep :- LoadScalar(lines, "min_sleep", d.minSleep, IntOf(Convert.UInt));
    Ok(d.(useThrottle := useThrottle, useSigstop := useSigstop, useScalingAvailable := useAvailable,
          stepwiseSigstop := stepStop, stepwiseSigcont := stepCont, tempSigstop := tStop,
          tempSigcont := tCont, tempThrottle := tThrottle, tempDethrottle := tDethrottle,
          minSleep := minSleep))
  }

  /** `load_config_values_()`: every tag in source order over the defaults,
      the own pid appended to the pid whitelist and every command name
      parenthesised. */
  function LoadValues(lines: seq<string>, ownPid: int): (r: Result<Settings>)
    requires WellFormed(lines)
    ensures r.Ok? ==> |r.value.whitelistPid| > 0 && r.value.whitelistPid[|r.value.whitelistPid| - 1] == ownPid
    ensures r.Ok? ==> forall k :: 0 <= k < |r.value.whitelistComm| ==>
                        var c := r.value.whitelistComm[k];
                        |c| >= 2 && c[0] == '(' && c[|c| - 1] == ')'
  {
    var a :- LoadWhitelists(lines, Defaults);
    var b :- LoadMatchers(lines, a);
    var c :- LoadModes(lines, b);
    Ok(c.(whitelistPid := c.whitelistPid + [ownPid],
          whitelistComm := Vectors.Map(c.whitelistComm, Parenthesise)))
  }

  /** No line configures any tag. */
  lemma NoLinesNoIndices()
    ensures WellFormed([])
    ensures forall tag :: IndicesOfTag([], tag) == []
  {
    assert WellFormed([]);
  }

  lemma WhitelistsDefault(d: Settings)
    ensures WellFormed([]) && LoadWhitelists([], d) == Ok(d)
  {
    NoLinesNoIndices();
  }

  lemma MatchersDefault(d: Settings)
    ensures WellFormed([]) && LoadMatchers([], d) == Ok(d)
  {
    NoLinesNoIndices();
  }

  lemma ModesDefault(d: Settings)
    ensures WellFormed([]) && LoadModes([], d) == Ok(d)
  {
    NoLinesNoIndices();
  }

  /** When every section leaves the settings unchanged, the values are the
      given ones with the own pid appended and the names parenthesised. */
  lemma LoadValuesFromSections(lines: seq<string>, ownPid: int, d: Settings)
    requires WellFormed(lines) && d == Defaults
    requires LoadWhitelists(lines, d) == Ok(d)
    requires LoadMatchers(lines, d) == Ok(d)
    requires LoadModes(lines, d) == Ok(d)
    ensures LoadValues(lines, ownPid)
            == Ok(d.(whitelistPid := d.whitelistPid + [ownPid],
                     whitelistComm := Vectors.Map(d.whitelistComm, Parenthesise)))
  {
  }

  /** An empty configuration file yields every default, with the own pid
      whitelisted and the default names parenthesised. */
  lemma EmptyConfigGivesDefaults(ownPid: int)
    ensures WellFormed([])
    ensures LoadValues([], ownPid)
            == Ok(Defaults.(whitelistPid := [ownPid],
                            whitelistComm := Vectors.Map(DefaultComms, Parenthesise)))
  {
    WhitelistsDefault(Defaults);
    MatchersDefault(Defaults);
    ModesDefault(Defaults);
    LoadValuesFromSections([], ownPid, Defaults);
    assert Defaults.whitelistPid + [ownPid] == [ownPid];
  }

  // ---------------------------------------------------------------------
  // validation

  /** The file system and the paths each pattern globs to. */
  datatype Env = Env(fs: Files.FileSystem, glob: map<string, seq<string>>)

  function Glob(env: Env, pattern: string): seq<string> {
    if pattern in env.glob then env.glob[pattern] else []
  }

  /** Everything derived when throttling is set up. */
  datatype Throttling = Throttling(
    settings: Settings,
    scalingMax: Option<Files.Collection>,
    cores: nat,
    ladder: seq<seq<int>>,
    cpuMax: seq<int>,
    cpuMin: seq<int>)

  // The setup's diagnostics, named so that proofs see them as opaque constants.
  const NoCpuinfoMaxMessage: string := "Cannot find any cpuinfo_max_freq values using the provided matcher."
  const NoCpuinfoMinMessage: string := "Cannot find any cpuinfo_min_freq values using the provided matcher."
  const CpuinfoMaxCountMessage: string := "Number of matched scaling_max_freq values does not match the number of matched cpuinfo_max_freq values."
  const CpuinfoMinCountMessage: string := "Number of matched scaling_max_freq values does not match the number of matched cpuinfo_min_freq values."
  const NoAvailableMessage: string := "Cannot find any scaling_available_frequencies values using the provided matcher."
  const AvailableCountMessage: string := "Number of matched scaling_max_freq values does not match the number of matched scaling_available_frequencies values."
  const NoScalingMaxMessage: string := "Cannot find any scaling_max_freq values using the provided matcher."
  const NoModeMessage: string := "Cannot choose false for both <use_throttle> and <use_SIGSTOP>."
  const ThrottleOrderMessage: string := "Throttle temp must not be lower than dethrottle temp."
  const SigstopOrderMessage: string := "SIGSTOP temp must not be lower than SIGCONT temp."

  function NoModeError(): Error {
    ConfigError("use_throttle", "false", NoModeMessage)
  }

  function ThrottleOrderError(s: Settings): Error {
    ConfigError("temp_throttle", Convert.IntToString(s.tempThrottle),
                ThrottleOrderMessage)
  }

  function SigstopOrderError(s: Settings): Error {
    ConfigError("temp_SIGSTOP", Convert.IntToString(s.tempSigstop),
                SigstopOrderMessage)
  }

  /** The values a line of `scaling_available_frequencies` lists. */
  /** The row converts exactly when every token is an unsigned long
      written canonically, and then each value prints back as its token. */
  function LadderRow(line: string): (r: Result<seq<int>>)
    ensures r.Ok? <==> forall k :: 0 <= k < |Text.Split(line, ' ')| ==> Convert.ConvertInt(Convert.ULong, Text.Split(line, ' ')[k]).Ok?
    ensures r.Ok? ==> |r.value| == |Text.Split(line, ' ')|
                      && forall k :: 0 <= k < |r.value| ==>
                           Convert.InRange(Convert.ULong, r.value[k]) && Convert.IntToString(r.value[k]) == Text.Split(line, ' ')[k]
  {
    var toks := Text.Split(line, ' ');
    var r := Convert.ConvertAll(Convert.ULong, toks);
    LadderRowPrints(toks, r);
    r
  }

  lemma LadderRowPrints(toks: seq<string>, r: Result<seq<int>>)
    requires r == Convert.ConvertAll(Convert.ULong, toks)
    ensures r.Ok? ==> forall k :: 0 <= k < |r.value| ==> Convert.IntToString(r.value[k]) == toks[k]
  {
    if r.Ok? {
      forall k | 0 <= k < |r.value| ensures Convert.IntToString(r.value[k]) == toks[k] {
        Convert.ConvertIsExact(Convert.ULong, toks[k]);
      }
    }
  }

  /** The min/max branch: both cpuinfo collections, their values, and the
      four cardinality checks in source order. */
  function SetUpMinMax(s: Settings, env: Env, scalingMax: Files.Collection, cores: nat): (r: Result<Throttling>)
    ensures r.Ok? ==> r.value.settings == s && r.value.cores == cores && r.value.scalingMax == Some(scalingMax)
    ensures r.Ok? ==> |r.value.cpuMax| == cores && |r.value.cpuMin| == cores && r.value.ladder == []
    ensures r.Ok? ==> forall x :: x in r.value.cpuMax ==> Convert.InRange(Convert.ULong, x)
    ensures r.Ok? ==> forall x :: x in r.value.cpuMin ==> Convert.InRange(Convert.ULong, x)
  {
    var maxFiles :- Files.FromPattern(env.fs, Glob(env, s.matcherCpuinfoMax));
    var minFiles :- Files.FromPattern(env.fs, Glob(env, s.matcherCpuinfoMin));
    var maxs :- Files.ReadAllValues(env.fs, maxFiles.files, Convert.ULong);
    var mins :- Files.ReadAllValues(env.fs, minFiles.files, Convert.ULong);
    if |maxs| == 0 then
      Err(ConfigError("matcher_cpuinfo_max_freq", s.matcherCpuinfoMax,
                      NoCpuinfoMaxMessage))
    else if |mins| == 0 then
      Err(ConfigError("matcher_cpuinfo_min_freq", s.matcherCpuinfoMax,
                      NoCpuinfoMinMessage))
    else if cores != |maxs| then
      Err(ConfigError("matcher_cpuinfo_max_freq", s.matcherCpuinfoMax,
                      CpuinfoMaxCountMessage))
    else if cores != |mins| then
      Err(ConfigError("matcher_cpuinfo_min_freq", s.matcherCpuinfoMin,
                      CpuinfoMinCountMessage))
    else Ok(Throttling(s, Some(scalingMax), cores, [], maxs, mins))
  }

  /** The ladder branch: every line of the available-frequency files is one
      core's ladder. */
  function SetUpLadder(s: Settings, env: Env, scalingMax: Files.Collection, cores: nat, available: Files.Collection)
    : (r: Result<Throttling>)
    ensures r.Ok? ==> r.value.settings == s && r.value.cores == cores && r.value.scalingMax == Some(scalingMax)
    ensures r.Ok? ==> |r.value.ladder| == cores > 0
    ensures r.Ok? ==> forall k, j :: 0 <= k < |r.value.ladder| && 0 <= j < |r.value.ladder[k]| ==>
                        Convert.InRange(Convert.ULong, r.value.ladder[k][j])
  {
    var lines :- Files.ReadAll(env.fs, available.files);
    var ladder :- Convert.ConvertEach(LadderRow, lines);
    if |ladder| == 0 then
      Err(ConfigError("matcher_scaling_available_frequencies", s.matcherScalingAvailable,
                      NoAvailableMessage))
    else if cores != |ladder| then
      Err(ConfigError("matcher_scaling_max_freq", s.matcherScalingMax,
                      AvailableCountMessage))
    else
      assert forall k :: 0 <= k < |ladder| ==> ladder[k] == LadderRow(lines[k]).value;
      Ok(Throttling(s, Some(scalingMax), cores, ladder, [], []))
  }

  /** Choosing between the ladder and the min/max tables: a ladder that
      cannot be found (an argument error from its collection) quietly turns
      the ladder off; any other error propagates. */
  function SetUpScaling(s: Settings, env: Env, scalingMax: Files.Collection, cores: nat): (r: Result<Throttling>)
    requires cores > 0
    ensures r.Ok? ==> r.value.settings == s.(useScalingAvailable := r.value.settings.useScalingAvailable)
    ensures r.Ok? ==> r.value.scalingMax == Some(scalingMax) && r.value.cores == cores
    ensures r.Ok? && r.value.settings.useScalingAvailable ==> s.useScalingAvailable && |r.value.ladder| == cores
    ensures r.Ok? && !r.value.settings.useScalingAvailable ==> |r.value.cpuMax| == cores && |r.value.cpuMin| == cores
    ensures s.useScalingAvailable && Glob(env, s.matcherScalingAvailable) == [] && r.Ok? ==>
              !r.value.settings.useScalingAvailable
  {
    var probe := Files.FromPattern(env.fs, Glob(env, s.matcherScalingAvailable));
    if s.useScalingAvailable && probe.Ok? then
      SetUpLadder(s, env, scalingMax, cores, probe.value)
    else if s.useScalingAvailable && !probe.error.ArgumentError? then
      Err(probe.error)
    else
      SetUpMinMax(s.(useScalingAvailable := false), env, scalingMax, cores)
  }

  /** The throttle half of `set_and_assert_config_()`. */
  function SetUpThrottle(s: Settings, env: Env): (r: Result<Throttling>)
    ensures !s.useThrottle ==> r.Ok? && r.value.settings == s.(tempThrottle := Vectors.ULongMax, tempDethrottle := 0)
                               && r.value.scalingMax.None?
    ensures s.useThrottle && s.tempThrottle < s.tempDethrottle ==> r == Err(ThrottleOrderError(s))
    ensures s.useThrottle && r.Ok? ==>
              && r.value.settings == s.(useScalingAvailable := r.value.settings.useScalingAvailable)
              && r.value.scalingMax.Some?
              && r.value.cores > 0
              && Files.ReadAllValues(env.fs, r.value.scalingMax.value.files, Convert.ULong).Ok?
              && r.value.cores == |Files.ReadAllValues(env.fs, r.value.scalingMax.value.files, Convert.ULong).value|
              && (r.value.settings.useScalingAvailable ==> s.useScalingAvailable && |r.value.ladder| == r.value.cores)
              && (!r.value.settings.useScalingAvailable ==>
                    |r.value.cpuMax| == r.value.cores && |r.value.cpuMin| == r.value.cores)
    ensures s.useThrottle && s.useScalingAvailable && Glob(env, s.matcherScalingAvailable) == [] && r.Ok? ==>
              !r.value.settings.useScalingAvailable
    ensures r.Ok? ==> r.value.settings.tempThrottle >= r.value.settings.tempDethrottle
  {
    if !s.useThrottle then
      Ok(Throttling(s.(tempThrottle := Vectors.ULongMax, tempDethrottle := 0), None, 0, [], [], []))
    else if s.tempThrottle < s.tempDethrottle then Err(ThrottleOrderError(s))
    else
      var scalingMax :- Files.FromPattern(env.fs, Glob(env, s.matcherScalingMax));
      var current :- Files.ReadAllValues(env.fs, scalingMax.files, Convert.ULong);
      if |current| == 0 then
        Err(ConfigError("matcher_scaling_max_freq", s.matcherScalingMax,
                        NoScalingMaxMessage))
      else SetUpScaling(s, env, scalingMax, |current|)
  }

  const ProcStat: string := "/proc/stat"

  /** The SIGSTOP half of `set_and_assert_config_()`. */
  function SetUpSigstop(s: Settings, env: Env): (r: Result<(Settings, Option<Files.File>)>)
    ensures !s.useSigstop ==> r == Ok((s.(tempSigstop := Vectors.ULongMax, tempSigcont := 0), None))
    ensures s.useSigstop && s.tempSigstop < s.tempSigcont ==> r == Err(SigstopOrderError(s))
    ensures s.useSigstop && s.tempSigstop >= s.tempSigcont ==>
              (r.Ok? <==> Files.Read(env.fs, Files.File(ProcStat, Files.Exists(env.fs, ProcStat))).Ok?
                          && |Files.Read(env.fs, Files.File(ProcStat, Files.Exists(env.fs, ProcStat))).value| > 0)
    ensures s.useSigstop && r.Ok? ==> r.value.0 == s && r.value.1.Some? && r.value.1.value.path == ProcStat
  {
    if !s.useSigstop then Ok((s.(tempSigstop := Vectors.ULongMax, tempSigcont := 0), None))
    else if s.tempSigstop < s.tempSigcont then Err(SigstopOrderError(s))
    else
      var f := Files.Open(env.fs, ProcStat).value;
      var lines :- Files.Read(env.fs, f);
      if |lines| == 0 then Err(InternalError("Could not load a valid /proc/stat file."))
      else Ok((s, Some(f)))
  }

  /** A validated configuration with its derived objects; the optional ones
      exist exactly when their mode is on. */
  datatype Config = Config(
    settings: Settings,
    thermal: Files.Collection,
    scalingMax: Option<Files.Collection>,
    cores: nat,
    ladder: seq<seq<int>>,
    cpuMax: seq<int>,
    cpuMin: seq<int>,
    procStat: Option<Files.File>)

  /** The settings validation leaves as loaded. */
  predicate KeepsLoaded(a: Settings, b: Settings) {
    b == a.(useScalingAvailable := b.useScalingAvailable,
            tempThrottle := b.tempThrottle, tempDethrottle := b.tempDethrottle,
            tempSigstop := b.tempSigstop, tempSigcont := b.tempSigcont)
  }

  /** `set_and_assert_config_()` */
  function Validate(s: Settings, env: Env): (r: Result<Config>)
    ensures !s.useThrottle && !s.useSigstop ==> r == Err(NoModeError())
    ensures r.Ok? ==> KeepsLoaded(s, r.value.settings)
    ensures r.Ok? ==> r.value.settings.whitelistPid == s.whitelistPid
    ensures r.Ok? ==> r.value.settings.useThrottle || r.value.settings.useSigstop
    ensures r.Ok? ==> r.value.settings.tempThrottle >= r.value.settings.tempDethrottle
    ensures r.Ok? ==> r.value.settings.tempSigstop >= r.value.settings.tempSigcont
    ensures r.Ok? && !s.useThrottle ==> r.value.settings.tempThrottle == Vectors.ULongMax
                                        && r.value.settings.tempDethrottle == 0
    ensures r.Ok? && !s.useSigstop ==> r.value.settings.tempSigstop == Vectors.ULongMax
                                       && r.value.settings.tempSigcont == 0
    ensures r.Ok? ==> |r.value.thermal.files| > 0
    ensures r.Ok? ==> (r.value.scalingMax.Some? <==> s.useThrottle) && (r.value.procStat.Some? <==> s.useSigstop)
    ensures r.Ok? && s.useThrottle ==>
              && r.value.cores > 0
              && (r.value.settings.useScalingAvailable ==> |r.value.ladder| == r.value.cores)
              && (!r.value.settings.useScalingAvailable ==>
                    |r.value.cpuMax| == r.value.cores && |r.value.cpuMin| == r.value.cores)
  {
    if !s.useThrottle && !s.useSigstop then Err(NoModeError())
    else
      var thermal :- Files.FromPattern(env.fs, Glob(env, s.matcherThermal));
      var t :- SetUpThrottle(s, env);
      var g :- SetUpSigstop(t.settings, env);
      Ok(Config(g.0, thermal, t.scalingMax, t.cores, t.ladder, t.cpuMax, t.cpuMin, g.1))
  }

  /** Disabling both modes is refused before anything is read, and equal
      thresholds are allowed in either mode. */
  lemma ThresholdOrder(s: Settings, env: Env)
    requires s.useThrottle && s.useSigstop
    requires Files.FromPattern(env.fs, Glob(env, s.matcherThermal)).Ok?
    ensures s.tempThrottle < s.tempDethrottle ==> Validate(s, env) == Err(ThrottleOrderError(s))
    ensures s.tempThrottle >= s.tempDethrottle && SetUpThrottle(s, env).Ok? && s.tempSigstop < s.tempSigcont ==>
              Validate(s, env) == Err(SigstopOrderError(s))
  {
  }

  // ---------------------------------------------------------------------
  // construction

  /** `load_config_lines_(config_path)` */
  function ConfigLines(fs: Files.FileSystem, path: string): (r: Result<seq<string>>)
    ensures Files.ValidPath(path) && !Files.Exists(fs, path) ==> r == Err(InternalError("Cannot find config file."))
    ensures r.Ok? ==> Files.ValidPath(path) && r == Files.Read(fs, Files.File(path, true))
  {
    var f :- Files.Open(fs, path);
    if !f.existed then Err(InternalError("Cannot find config file.")) else Files.Read(fs, f)
  }

  const ProcSelfStat: string := "/proc/self/stat"

  function SelfStat(fs: Files.FileSystem): Result<seq<string>> {
    Files.Read(fs, Files.File(ProcSelfStat, Files.Exists(fs, ProcSelfStat)))
  }

  /** `/proc/self/stat` has a first line with a first token (the source
      indexes both unchecked). */
  predicate SelfStatUsable(fs: Files.FileSystem) {
    SelfStat(fs).Ok? ==> |SelfStat(fs).value| > 0 && |Text.Split(SelfStat(fs).value[0], ' ')| > 0
  }

  /** `get_own_pid_()`: the first token of `/proc/self/stat`, which must be
      exactly the printed form of an `int`. */
  function OwnPid(fs: Files.FileSystem): (r: Result<int>)
    requires SelfStatUsable(fs)
    ensures r.Ok? ==> SelfStat(fs).Ok?
                      && Convert.IntToString(r.value) == Text.Split(SelfStat(fs).value[0], ' ')[0]
                      && Convert.InRange(Convert.Int, r.value)
    ensures SelfStat(fs).Err? ==> r == Err(SelfStat(fs).error)
  {
    var f := Files.Open(fs, ProcSelfStat).value;
    var lines :- Files.Read(fs, f);
    var token := Text.Split(lines[0], ' ')[0];
    var pid := Convert.ConvertInt(Convert.Int, token);
    if pid.Ok? then Convert.ConvertIsExact(Convert.Int, token); pid else pid
  }

  /** Values then validation, for given configuration lines and own pid. */
  function LoadFrom(env: Env, lines: seq<string>, pid: int): (r: Result<Config>)
    requires WellFormed(lines)
    ensures r.Ok? ==> var pids := r.value.settings.whitelistPid;
                      |pids| > 0 && pids[|pids| - 1] == pid
    ensures r.Ok? ==> r.value.settings.useThrottle || r.value.settings.useSigstop
  {
    var s :- LoadValues(lines, pid);
    Validate(s, env)
  }

  /** The configuration constructor: lines, own pid, values, validation. */
  function Load(env: Env, path: string): (r: Result<Config>)
    requires SelfStatUsable(env.fs)
    requires ConfigLines(env.fs, path).Ok? ==> WellFormed(ConfigLines(env.fs, path).value)
    ensures r.Ok? ==> ConfigLines(env.fs, path).Ok? && OwnPid(env.fs).Ok?
    ensures r.Ok? ==> var pids := r.value.settings.whitelistPid;
                      |pids| > 0 && pids[|pids| - 1] == OwnPid(env.fs).value
    ensures r.Ok? ==> r.value.settings.useThrottle || r.value.settings.useSigstop
  {
    var lines :- ConfigLines(env.fs, path);
    var pid :- OwnPid(env.fs);
    LoadFrom(env, lines, pid)
  }

  // ---------------------------------------------------------------------
  // mode-gated accessors

  const SigstopAccessors: set<string> := {
    "whitelist_pid", "whitelist_comm", "whitelist_state", "whitelist_ppid",
    "whitelist_pgrp", "whitelist_session", "whitelist_tty_nr", "whitelist_tpgid",
    "whitelist_flags", "whitelist_max_nice", "use_stepwise_SIGSTOP",
    "use_stepwise_SIGCONT", "temp_SIGSTOP", "temp_SIGCONT", "proc_stat_file"}

  const ThrottleAccessors: set<string> := {
    "use_scaling_available", "temp_throttle", "temp_dethrottle",
    "scaling_max_freq_files", "cpuinfo_max_freqs", "cpuinfo_min_freqs",
    "scaling_available_frequencies"}

  /** `assert_SIGSTOP_mode_(value)` */
  function SigstopGuard(c: Config, value: string): (r: Result<()>)
    ensures r.Ok? <==> c.settings.useSigstop
    ensures r.Err? && value != "" ==>
              r.error == InternalError("Attempting to access " + value + " without having enabled SIGSTOP mode.")
  {
    if c.settings.useSigstop then Ok(())
    else if value == "" then
      Err(InternalError("Attempting to access SIGSTOP-related value without having enabled SIGSTOP mode."))
    else Err(InternalError("Attempting to access " + value + " without having enabled SIGSTOP mode."))
  }

  /** `assert_throttle_mode_(value)` */
  function ThrottleGuard(c: Config, value: string): (r: Result<()>)
    ensures r.Ok? <==> c.settings.useThrottle
    ensures r.Err? ==> r.error == InternalError("Attempting to access " + value + " without having enabled throttle mode.")
  {
    if c.settings.useThrottle then Ok(())
    else Err(InternalError("Attempting to access " + value + " without having enabled throttle mode."))
  }

  lemma AccessorsDisjoint()
    ensures SigstopAccessors * ThrottleAccessors == {}
  {
  }

  /** Calling the accessor `name`: SIGSTOP-only values need SIGSTOP mode,
      throttle-only values need throttle mode, the rest are always there. */
  function Access(c: Config, name: string): (r: Result<()>)
    ensures r.Ok? <==> (name in SigstopAccessors ==> c.settings.useSigstop)
                       && (name in ThrottleAccessors ==> c.settings.useThrottle)
    ensures name in SigstopAccessors && !c.settings.useSigstop ==>
              r == Err(InternalError("Attempting to access " + name + " without having enabled SIGSTOP mode."))
    ensures name in ThrottleAccessors && !c.settings.useThrottle ==>
              r == Err(InternalError("Attempting to access " + name + " without having enabled throttle mode."))
  {
    AccessorsDisjoint();
    assert name in SigstopAccessors ==> name != "";
    if name in SigstopAccessors then SigstopGuard(c, name)
    else if name in ThrottleAccessors then ThrottleGuard(c, name)
    else Ok(())
  }
}
