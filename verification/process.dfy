/** A process record: its `/proc/<pid>/stat` fields, the whitelist test and
    the CPU-accounting state machine that makes a usage figure available
    after two samples. */
module Process {
  import opened Errors
  import Text
  import Vectors
  import Convert
  import Files
  import Config

  /** The stat fields the daemon reads (proc(5) field numbers 2-9, 14-17
      and 19, counted from 1). */
  datatype Stat = Stat(
    comm: string,
    state: char,
    ppid: int,
    pgrp: int,
    session: int,
    ttyNr: int,
    tpgid: int,
    flags: int,
    utime: int,
    stime: int,
    cutime: int,
    cstime: int,
    nice: int)

  /** The fields of a record whose stat was never read; the source leaves
      them uninitialised, the model takes zeros. */
  const Unread: Stat := Stat("", ' ', 0, 0, 0, 0, 0, 0, 0, 0, 0, 0, 0)

  /** A `float` usage figure: the ratio of the process-time difference to
      the CPU-time difference, or what the division gives when the CPU time
      has not moved: infinity when the process time has, NaN when it has
      not either. */
  datatype Usage = Ratio(value: real) | Infinity | NaN

  /** One tracked process. */
  datatype Record = Record(
    pid: int,
    stat: Stat,
    isProcess: bool,
    whitelisted: bool,
    firstUpdate: bool,
    ready: bool,
    selfStopped: bool,
    pidTimePrev: int,
    cpuTimePrev: int,
    pct: Usage)

  /** A record before its first stat read: every flag off. */
  function Fresh(pid: int): (r: Record)
    ensures r.pid == pid
    ensures !r.isProcess && !r.whitelisted && !r.firstUpdate && !r.ready && !r.selfStopped
  {
    Record(pid, Unread, false, false, false, false, false, 0, 0, Ratio(0.0))
  }

  // ---------------------------------------------------------------------
  // stat

  function StatPath(pid: int): string {
    "/proc/" + Convert.IntToString(pid) + "/stat"
  }

  function StatLines(fs: Files.FileSystem, pid: int): Result<seq<string>> {
    Files.Read(fs, Files.File(StatPath(pid), Files.Exists(fs, StatPath(pid))))
  }

  /** A stat file the source can index: it has a line, and a single line has
      the nineteen tokens the parser reads (fewer is undefined behaviour). */
  predicate StatUsable(fs: Files.FileSystem, pid: int) {
    StatLines(fs, pid).Ok? ==>
      |StatLines(fs, pid).value| > 0
      && (|StatLines(fs, pid).value| == 1 ==> |Text.Split(StatLines(fs, pid).value[0], ' ')| >= 19)
  }

  /** The fields of one stat line, each converted exactly from its token. */
  function ParseStat(toks: seq<string>): (r: Result<Stat>)
    requires |toks| >= 19
    ensures r.Ok? ==> r.value.comm == toks[1] && [r.value.state] == toks[2]
    ensures r.Ok? ==> Convert.IntToString(r.value.ppid) == toks[3]
                      && Convert.IntToString(r.value.pgrp) == toks[4]
                      && Convert.IntToString(r.value.session) == toks[5]
                      && Convert.IntToString(r.value.ttyNr) == toks[6]
                      && Convert.IntToString(r.value.tpgid) == toks[7]
                      && Convert.IntToString(r.value.flags) == toks[8]
    ensures r.Ok? ==> Convert.IntToString(r.value.utime) == toks[13]
                      && Convert.IntToString(r.value.stime) == toks[14]
                      && Convert.IntToString(r.value.cutime) == toks[15]
                      && Convert.IntToString(r.value.cstime) == toks[16]
                      && Convert.IntToString(r.value.nice) == toks[18]
    ensures r.Ok? ==> r.value.utime >= 0 && r.value.stime >= 0 && r.value.cutime >= 0 && r.value.cstime >= 0
    ensures r.Err? ==> r.error.TypeError?
  {
    var state :- Convert.ConvertChar(toks[2]);
    var ppid :- Exact(Convert.Int, toks[3]);
    var pgrp :- Exact(Convert.Int, toks[4]);
    var session :- Exact(Convert.Int, toks[5]);
    var ttyNr :- Exact(Convert.Int, toks[6]);
    var tpgid :- Exact(Convert.Int, toks[7]);
    var flags :- Exact(Convert.UInt, toks[8]);
    var utime :- Exact(Convert.ULong, toks[13]);
    var stime :- Exact(Convert.ULong, toks[14]);
    var cutime :- Exact(Convert.ULong, toks[15]);
    var cstime :- Exact(Convert.ULong, toks[16]);
    var nice :- Exact(Convert.Long, toks[18]);
    Ok(Stat(toks[1], state, ppid, pgrp, session, ttyNr, tpgid, flags, utime, stime, cutime, cstime, nice))
  }

  /** An integer conversion together with the fact that it printed back. */
  function Exact(t: Convert.IntType, s: string): (r: Result<int>)
    ensures r == Convert.ConvertInt(t, s)
    ensures r.Ok? ==> Convert.IntToString(r.value) == s && Convert.InRange(t, r.value)
  {
    var c := Convert.ConvertInt(t, s);
    if c.Ok? then Convert.ConvertIsExact(t, s); c else c
  }

  /** `read_stat_()`: a stat file that cannot be read marks the record as
      gone and keeps the old fields; a longer file is an internal error; a
      conversion error propagates. */
  function ReadStat(fs: Files.FileSystem, rec: Record): (r: Result<Record>)
    requires StatUsable(fs, rec.pid)
    ensures StatLines(fs, rec.pid).Err? ==> r == Ok(rec.(isProcess := false))
    ensures StatLines(fs, rec.pid).Ok? && |StatLines(fs, rec.pid).value| > 1 ==>
              r == Err(InternalError("/proc/" + Convert.IntToString(rec.pid) + "/stat file is longer than one line!"))
    ensures r.Ok? && r.value.isProcess ==>
              && StatLines(fs, rec.pid).Ok? && |StatLines(fs, rec.pid).value| == 1
              && ParseStat(Text.Split(StatLines(fs, rec.pid).value[0], ' ')) == Ok(r.value.stat)
    ensures r.Ok? ==> r.value == rec.(stat := r.value.stat, isProcess := r.value.isProcess)
  {
    match StatLines(fs, rec.pid)
    case Err(e) => if e.IOError? then Ok(rec.(isProcess := false)) else Err(e)
    case Ok(lines) =>
      if |lines| > 1 then
        Err(InternalError("/proc/" + Convert.IntToString(rec.pid) + "/stat file is longer than one line!"))
      else
        var st :- ParseStat(Text.Split(lines[0], ' '));
        Ok(rec.(stat := st, isProcess := true))
  }

  // ---------------------------------------------------------------------
  // whitelist

  /** The whitelist settings a record is checked against. */
  datatype Whitelist = Whitelist(
    pids: seq<int>,
    comms: seq<string>,
    states: seq<char>,
    ppids: seq<int>,
    pgrps: seq<int>,
    sessions: seq<int>,
    ttys: seq<int>,
    tpgids: seq<int>,
    flags: seq<int>,
    maxNice: int)

  /** The whitelist a configuration holds; reading it needs SIGSTOP mode, as
      `check_whitelist_` first reads `whitelist_max_nice`, whose accessor is
      gated. */
  function WhitelistOf(c: Config.Config): (r: Result<Whitelist>)
    ensures r.Ok? <==> c.settings.useSigstop
    ensures r.Err? ==> r.error == InternalError("Attempting to access " + "whitelist_max_nice" + " without having enabled SIGSTOP mode.")
    ensures r.Ok? ==> r.value.maxNice == c.settings.maxNice && r.value.pids == c.settings.whitelistPid
                      && r.value.comms == c.settings.whitelistComm
  {
    var name := "whitelist_max_nice";
    assert name[0] == 'w';
    var gate := Config.SigstopGuard(c, name);
    if gate.Err? then Err(gate.error)
    else
      var s := c.settings;
      Ok(Whitelist(s.whitelistPid, s.whitelistComm, s.whitelistState, s.whitelistPpid, s.whitelistPgrp,
                   s.whitelistSession, s.whitelistTtyNr, s.whitelistTpgid, s.whitelistFlags, s.maxNice))
  }

  /** `check_whitelist_()`: any one criterion whitelists; niceness must be
      strictly below the bound. */
  function CheckWhitelist(w: Whitelist, pid: int, st: Stat): (r: bool)
    ensures r <==> || st.nice < w.maxNice
                   || pid in w.pids || st.state in w.states || st.ppid in w.ppids
                   || st.pgrp in w.pgrps || st.session in w.sessions || st.ttyNr in w.ttys
                   || st.tpgid in w.tpgids || st.flags in w.flags
                   || exists k :: 0 <= k < |w.comms| && Text.MatchesPattern(w.comms[k], st.comm)
  {
    || st.nice < w.maxNice
    || Vectors.Contains(w.pids, pid)
    || Vectors.Contains(w.states, st.state)
    || Vectors.Contains(w.ppids, st.ppid)
    || Vectors.Contains(w.pgrps, st.pgrp)
    || Vectors.Contains(w.sessions, st.session)
    || Vectors.Contains(w.ttys, st.ttyNr)
    || Vectors.Contains(w.tpgids, st.tpgid)
    || Vectors.Contains(w.flags, st.flags)
    || Vectors.PatternVectContains(w.comms, st.comm)
  }

  /** Niceness equal to the bound does not whitelist. */
  lemma NiceBoundIsStrict(pid: int, st: Stat)
    ensures !CheckWhitelist(Whitelist([], [], [], [], [], [], [], [], [], st.nice), pid, st)
  {
  }

  // ---------------------------------------------------------------------
  // construction and update

  /** The process time the record accounts: user and system time of the
      process and of its waited-for children. */
  function PidTime(st: Stat): int {
    st.utime + st.stime + st.cutime + st.cstime
  }

  /** The constructor: read the stat and check the whitelist; no CPU sample
      is taken. */
  function New(fs: Files.FileSystem, w: Whitelist, pid: int): (r: Result<Record>)
    requires StatUsable(fs, pid)
    ensures r.Ok? ==> r.value.pid == pid && !r.value.firstUpdate && !r.value.ready && !r.value.selfStopped
    ensures r.Ok? ==> r.value.whitelisted == CheckWhitelist(w, pid, r.value.stat)
  {
    var rec :- ReadStat(fs, Fresh(pid));
    Ok(rec.(whitelisted := CheckWhitelist(w, pid, rec.stat)))
  }

  /** The sampling half of `update(cpu_time)`, after the re-read: the
      whitelist is re-checked, then the first sample of a run only records
      baselines and each later one sets the usage to the ratio of process
      time to CPU time since the previous sample, which is infinite or NaN
      when the CPU time has not moved. A whitelisted record drops its
      samples but keeps `ready`. */
  function Sample(w: Whitelist, rec: Record, cpuTime: int): (r: Record)
    ensures r.pid == rec.pid && r.stat == rec.stat && r.isProcess == rec.isProcess
    ensures r.selfStopped == rec.selfStopped
    ensures r.whitelisted == CheckWhitelist(w, rec.pid, rec.stat)
    ensures r.whitelisted ==>
              && !r.firstUpdate && r.ready == rec.ready
              && r.pct == Ratio(0.0) && r.pidTimePrev == 0 && r.cpuTimePrev == 0
    ensures !r.whitelisted && !rec.firstUpdate ==>
              && r.firstUpdate && r.ready == rec.ready && r.pct == rec.pct
              && r.pidTimePrev == PidTime(rec.stat) && r.cpuTimePrev == cpuTime
    ensures !r.whitelisted && rec.firstUpdate ==>
              && r.firstUpdate && r.ready
              && r.pidTimePrev == PidTime(rec.stat) && r.cpuTimePrev == cpuTime
              && (cpuTime != rec.cpuTimePrev ==>
                    r.pct.Ratio? && r.pct.value * (cpuTime - rec.cpuTimePrev) as real
                                    == (PidTime(rec.stat) - rec.pidTimePrev) as real)
              && (cpuTime == rec.cpuTimePrev ==>
                    r.pct == if PidTime(rec.stat) == rec.pidTimePrev then NaN else Infinity)
  {
    var listed := CheckWhitelist(w, rec.pid, rec.stat);
    var checked := rec.(whitelisted := listed);
    if listed then
      checked.(pidTimePrev := 0, cpuTimePrev := 0, pct := Ratio(0.0), firstUpdate := false)
    else if !checked.firstUpdate then
      checked.(pidTimePrev := PidTime(rec.stat), cpuTimePrev := cpuTime, firstUpdate := true)
    else
      var t := PidTime(rec.stat);
      var pct := if cpuTime != checked.cpuTimePrev
                 then Ratio((t - checked.pidTimePrev) as real / (cpuTime - checked.cpuTimePrev) as real)
                 else if t == checked.pidTimePrev then NaN
                 else Infinity;
      checked.(pct := pct, pidTimePrev := t, cpuTimePrev := cpuTime, ready := true)
  }

  /** `update(cpu_time)`: re-read the stat, then sample. */
  function Update(fs: Files.FileSystem, w: Whitelist, rec: Record, cpuTime: int): (r: Result<Record>)
    requires StatUsable(fs, rec.pid)
    ensures r.Ok? <==> ReadStat(fs, rec).Ok?
    ensures r.Ok? ==> r.value == Sample(w, ReadStat(fs, rec).value, cpuTime)
  {
    var read :- ReadStat(fs, rec);
    Ok(Sample(w, read, cpuTime))
  }

  /** Once ready, a record stays ready through every update. */
  lemma ReadyIsSticky(fs: Files.FileSystem, w: Whitelist, rec: Record, cpuTime: int)
    requires StatUsable(fs, rec.pid)
    requires rec.ready && Update(fs, w, rec, cpuTime).Ok?
    ensures Update(fs, w, rec, cpuTime).value.ready
  {
  }

  /** A new record is not ready after its construction nor after its first
      update; a second update that is not whitelisted, following a first
      that was not, makes it ready. */
  lemma ReadyAfterTwoUpdates(fs0: Files.FileSystem, fs1: Files.FileSystem, fs2: Files.FileSystem,
                             w: Whitelist, pid: int, t1: int, t2: int)
    requires StatUsable(fs0, pid) && StatUsable(fs1, pid) && StatUsable(fs2, pid)
    requires New(fs0, w, pid).Ok?
    requires Update(fs1, w, New(fs0, w, pid).value, t1).Ok?
    requires Update(fs2, w, Update(fs1, w, New(fs0, w, pid).value, t1).value, t2).Ok?
    ensures !New(fs0, w, pid).value.ready
    ensures !Update(fs1, w, New(fs0, w, pid).value, t1).value.ready
    ensures !Update(fs1, w, New(fs0, w, pid).value, t1).value.whitelisted
            && !Update(fs2, w, Update(fs1, w, New(fs0, w, pid).value, t1).value, t2).value.whitelisted
            ==> Update(fs2, w, Update(fs1, w, New(fs0, w, pid).value, t1).value, t2).value.ready
  {
    var r0 := New(fs0, w, pid).value;
    var r1 := Update(fs1, w, r0, t1).value;
    assert !r0.firstUpdate && !r0.ready;
    assert !r1.ready;
  }

  /** `pid_cpu_pct()`: only a ready record has a usage figure. */
  function CpuPct(rec: Record): (r: Result<Usage>)
    ensures r.Ok? <==> rec.ready
    ensures r.Ok? ==> r.value == rec.pct
    ensures r.Err? ==> r.error == InternalError("Attempted to access cpu_pct before cpu_pct was calculated.")
  {
    if rec.ready then Ok(rec.pct)
    else Err(InternalError("Attempted to access cpu_pct before cpu_pct was calculated."))
  }

  // ---------------------------------------------------------------------
  // signals

  const SigStop: int := 19
  const SigCont: int := 18

  /** `send_SIGSTOP()`: marks the record self-stopped (the signal itself is
      an effect of the monitor step). */
  function SendStop(rec: Record): (r: Record)
    ensures r.selfStopped
  {
    rec.(selfStopped := true)
  }

  /** `send_SIGCONT()`: clears the self-stopped mark. */
  function SendCont(rec: Record): (r: Record)
    ensures !r.selfStopped
  {
    rec.(selfStopped := false)
  }

  /** Stopping then resuming changes nothing but the mark; the two undo
      each other. */
  lemma StopContInverse(rec: Record)
    ensures SendCont(SendStop(rec)) == rec.(selfStopped := false)
    ensures SendStop(SendCont(rec)) == rec.(selfStopped := true)
    ensures !rec.selfStopped ==> SendCont(SendStop(rec)) == rec
  {
  }
}
