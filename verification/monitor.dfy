/** The control loop (`Monitor`). One iteration of `run_()` is modelled as a
    pure step: from the loop's state and a snapshot of the machine (the
    hottest thermal reading, the current per-core ceilings, the file system
    and the entries of /proc) to a new state and the effects the iteration
    performs, in order: ceiling writes and signals. */
module Monitor {
  import opened Errors
  import Text
  import Vectors
  import Convert
  import Files
  import Config
  import Process

  /** Iterations to wait, after a ceiling was found changed by someone else,
      before ceilings are read again and trusted. */
  const Cooldown: nat := 20

  datatype Effect =
    | WriteCeiling(core: nat, freq: int)
    | Stop(pid: int)
    | Cont(pid: int)

  /** The monitor's members: the tracked processes, the pids it stopped (in
      the order it stopped them), the ceilings it last wrote, and the
      unexpected-frequency flag with its cooldown count. */
  datatype Loop = Loop(
    table: seq<Process.Record>,
    stopped: seq<int>,
    expected: seq<int>,
    unexpected: bool,
    cooldown: nat)

  datatype Outcome = Outcome(st: Loop, effects: seq<Effect>)

  /** What one iteration reads from the machine. */
  datatype Snapshot = Snapshot(
    maxTemp: int,
    ceilings: seq<int>,
    fs: Files.FileSystem,
    procEntries: seq<string>)

  // ---------------------------------------------------------------------
  // construction

  /** The constructor: the ceilings it expects are the current ones, read
      through an accessor that only throttle mode may use. */
  function Start(c: Config.Config, ceilings: seq<int>): (r: Result<Loop>)
    ensures r.Ok? <==> c.settings.useThrottle
    ensures r.Err? ==> r.error == InternalError("Attempting to access " + "scaling_max_freq_files" + " without having enabled throttle mode.")
    ensures r.Ok? ==> r.value.table == [] && r.value.stopped == [] && r.value.expected == ceilings
                      && !r.value.unexpected && r.value.cooldown == 0
  {
    assert "scaling_max_freq_files" in Config.ThrottleAccessors;
    assert "scaling_max_freq_files" !in Config.SigstopAccessors by { Config.AccessorsDisjoint(); }
    var gate :- Config.Access(c, "scaling_max_freq_files");
    Ok(Loop([], [], ceilings, false, 0))
  }

  /** What the step needs of the validated configuration: per-core tables
      as long as the core count in throttle mode, and a /proc/stat file in
      SIGSTOP mode. */
  predicate Consistent(c: Config.Config) {
    && (c.settings.useThrottle ==>
          && (c.settings.useScalingAvailable ==> |c.ladder| == c.cores)
          && (!c.settings.useScalingAvailable ==> |c.cpuMax| == c.cores && |c.cpuMin| == c.cores))
    && (c.settings.useSigstop ==> c.procStat.Some?)
  }

  /** Every configuration validation accepts is one the step can run on. */
  lemma ValidatedIsConsistent(s: Config.Settings, env: Config.Env)
    requires Config.Validate(s, env).Ok?
    ensures Consistent(Config.Validate(s, env).value)
  {
    var c := Config.Validate(s, env).value;
    assert c.settings.useThrottle == s.useThrottle && c.settings.useSigstop == s.useSigstop;
  }

  // ---------------------------------------------------------------------
  // choosing the next ceiling on a frequency ladder

  /** `throttle_next_lower_`'s scan of one core's ladder, with the best
      candidate so far in `next`. */
  function LowerFrom(avail: seq<int>, speed: int, next: int): (r: int)
    ensures next <= r
    ensures r == next || (r in avail && next < r < speed)
    ensures forall v :: v in avail && next < v < speed ==> v <= r
    decreases |avail|
  {
    if |avail| == 0 then next
    else
      assert forall v :: v in avail ==> v == avail[0] || v in avail[1..];
      LowerFrom(avail[1..], speed, if avail[0] > next && avail[0] < speed then avail[0] else next)
  }

  /** The largest available frequency strictly below `speed`, or 0 (no
      write) when there is none. */
  function NextLower(avail: seq<int>, speed: int): (r: int)
    ensures r == 0 || (r in avail && 0 < r < speed)
    ensures forall v :: v in avail && 0 < v < speed ==> v <= r
  {
    LowerFrom(avail, speed, 0)
  }

  /** `dethrottle_next_higher_`'s scan, starting from ULONG_MAX. */
  function HigherFrom(avail: seq<int>, speed: int, next: int): (r: int)
    ensures r <= next
    ensures r == next || (r in avail && speed < r < next)
    ensures forall v :: v in avail && speed < v < next ==> r <= v
    decreases |avail|
  {
    if |avail| == 0 then next
    else
      assert forall v :: v in avail ==> v == avail[0] || v in avail[1..];
      HigherFrom(avail[1..], speed, if avail[0] < next && avail[0] > speed then avail[0] else next)
  }

  /** The smallest available frequency strictly above `speed`, or ULONG_MAX
      (no write) when there is none. */
  function NextHigher(avail: seq<int>, speed: int): (r: int)
    ensures r == Vectors.ULongMax || (r in avail && speed < r < Vectors.ULongMax)
    ensures forall v :: v in avail && speed < v < Vectors.ULongMax ==> r <= v
  {
    HigherFrom(avail, speed, Vectors.ULongMax)
  }

  /** Stepping a core down its ladder and back up returns it to where it
      was, when both neighbours are on the ladder. */
  lemma {:induction false} LadderStepsInvert(avail: seq<int>, speed: int)
    requires speed in avail && 0 < speed < Vectors.ULongMax
    requires NextLower(avail, speed) != 0
    ensures NextHigher(avail, NextLower(avail, speed)) == speed
    ensures NextLower(avail, NextHigher(avail, NextLower(avail, speed))) == NextLower(avail, speed)
  {
    var lo := NextLower(avail, speed);
    var hi := NextHigher(avail, lo);
    assert hi <= speed < Vectors.ULongMax;
    assert hi in avail && 0 < lo < hi;
    assert !(hi < speed);
  }

  // ---------------------------------------------------------------------
  // the room guards

  function Midpoint(two: seq<int>): int
    requires |two| == 2
  {
    (two[0] + two[1]) / 2
  }

  /** Per-core marks `is_below_max_speed_` compares against: halfway between
      the two highest ladder steps, or between cpuinfo max and min. */
  function HighMarks(c: Config.Config): (r: seq<int>)
    requires !c.settings.useScalingAvailable ==> |c.cpuMin| == |c.cpuMax|
    ensures |r| == if c.settings.useScalingAvailable then |c.ladder| else |c.cpuMax|
  {
    if c.settings.useScalingAvailable then
      seq(|c.ladder|, i requires 0 <= i < |c.ladder| => Midpoint(Vectors.MaxN(c.ladder[i], 2)))
    else
      seq(|c.cpuMax|, i requires 0 <= i < |c.cpuMax| => (c.cpuMax[i] + c.cpuMin[i]) / 2)
  }

  /** Per-core marks `is_above_min_speed_` compares against: halfway between
      the two lowest ladder steps, or between cpuinfo min and max. */
  function LowMarks(c: Config.Config): (r: seq<int>)
    requires !c.settings.useScalingAvailable ==> |c.cpuMax| == |c.cpuMin|
    ensures |r| == if c.settings.useScalingAvailable then |c.ladder| else |c.cpuMin|
  {
    if c.settings.useScalingAvailable then
      seq(|c.ladder|, i requires 0 <= i < |c.ladder| => Midpoint(Vectors.MinN(c.ladder[i], 2)))
    else
      seq(|c.cpuMin|, i requires 0 <= i < |c.cpuMin| => (c.cpuMin[i] + c.cpuMax[i]) / 2)
  }

  const MaxSizeMessage: string :=
    "scaling_max_freq_files size differs from cpuinfo_max_freq_files size. "
    + "This should have been prevented by the initial configuration verification."
  const MinSizeMessage: string :=
    "scaling_max_freq_files size differs from cpuinfo_min_freq_files size. "
    + "This should have been prevented by the initial configuration verification."

  function AnyBelow(a: seq<int>, b: seq<int>, i: nat): (r: bool)
    requires |a| == |b| && i <= |a|
    ensures r <==> exists k :: i <= k < |a| && a[k] < b[k]
    decreases |a| - i
  {
    if i == |a| then false else a[i] < b[i] || AnyBelow(a, b, i + 1)
  }

  /** `is_below_max_speed_`: some core's ceiling sits below its high mark. */
  function BelowMax(c: Config.Config, cur: seq<int>): (r: Result<bool>)
    requires !c.settings.useScalingAvailable ==> |c.cpuMin| == |c.cpuMax|
    ensures r.Err? <==> |cur| != |HighMarks(c)|
    ensures r.Err? ==> r.error == InternalError(MaxSizeMessage)
    ensures r.Ok? ==> |cur| == |HighMarks(c)| && (r.value <==> exists k :: 0 <= k < |cur| && cur[k] < HighMarks(c)[k])
  {
    var marks := HighMarks(c);
    if |cur| != |marks| then
      Err(InternalError(MaxSizeMessage))
    else Ok(AnyBelow(cur, marks, 0))
  }

  /** `is_above_min_speed_`: some core's ceiling sits above its low mark. */
  function AboveMin(c: Config.Config, cur: seq<int>): (r: Result<bool>)
    requires !c.settings.useScalingAvailable ==> |c.cpuMin| == |c.cpuMax|
    ensures r.Err? <==> |cur| != |LowMarks(c)|
    ensures r.Err? ==> r.error == InternalError(MinSizeMessage)
    ensures r.Ok? ==> |cur| == |LowMarks(c)| && (r.value <==> exists k :: 0 <= k < |cur| && LowMarks(c)[k] < cur[k])
  {
    var marks := LowMarks(c);
    if |cur| != |marks| then
      Err(InternalError(MinSizeMessage))
    else Ok(AnyBelow(marks, cur, 0))
  }

  /** A machine whose every core sits at the top of its ladder has no room
      to dethrottle, and one whose every core sits at the bottom has no room
      to throttle. */
  lemma {:induction false} LadderEndsHaveNoRoom(c: Config.Config, cur: seq<int>)
    requires c.settings.useScalingAvailable && |cur| == |c.ladder|
    ensures (forall k :: 0 <= k < |cur| ==> cur[k] == Vectors.MaxN(c.ladder[k], 2)[0]) ==> BelowMax(c, cur) == Ok(false)
    ensures (forall k :: 0 <= k < |cur| ==> cur[k] == Vectors.MinN(c.ladder[k], 2)[0]) ==> AboveMin(c, cur) == Ok(false)
  {
    LadderTopHasNoRoom(c, cur);
    LadderBottomHasNoRoom(c, cur);
  }

  lemma LadderTopHasNoRoom(c: Config.Config, cur: seq<int>)
    requires c.settings.useScalingAvailable && |cur| == |c.ladder|
    ensures (forall k :: 0 <= k < |cur| ==> cur[k] == Vectors.MaxN(c.ladder[k], 2)[0]) ==> BelowMax(c, cur) == Ok(false)
  {
    if forall k :: 0 <= k < |cur| ==> cur[k] == Vectors.MaxN(c.ladder[k], 2)[0] {
      forall k | 0 <= k < |cur|
        ensures !(cur[k] < HighMarks(c)[k])
      {
        var two := Vectors.MaxN(c.ladder[k], 2);
        assert two[0] >= two[1];
      }
    }
  }

  lemma LadderBottomHasNoRoom(c: Config.Config, cur: seq<int>)
    requires c.settings.useScalingAvailable && |cur| == |c.ladder|
    ensures (forall k :: 0 <= k < |cur| ==> cur[k] == Vectors.MinN(c.ladder[k], 2)[0]) ==> AboveMin(c, cur) == Ok(false)
  {
    if forall k :: 0 <= k < |cur| ==> cur[k] == Vectors.MinN(c.ladder[k], 2)[0] {
      forall k | 0 <= k < |cur|
        ensures !(LowMarks(c)[k] < cur[k])
      {
        var two := Vectors.MinN(c.ladder[k], 2);
        assert two[0] <= two[1];
      }
    }
  }

  // ---------------------------------------------------------------------
  // the per-core ceiling walk

  /** The first core at or after `i` whose ceiling is not the one the loop
      expects, or |cur| when every one is. */
  function FirstMismatch(cur: seq<int>, expected: seq<int>, i: nat): (m: nat)
    requires |cur| == |expected| && i <= |cur|
    ensures i <= m <= |cur|
    ensures forall k :: i <= k < m ==> cur[k] == expected[k]
    ensures m < |cur| ==> cur[m] != expected[m]
    decreases |cur| - i
  {
    if i == |cur| || cur[i] != expected[i] then i else FirstMismatch(cur, expected, i + 1)
  }

  datatype Walk = Walk(expected: seq<int>, writes: seq<Effect>, unexpected: bool)

  /** The loop shared by the four ceiling writers: stop at the first core
      whose ceiling is not the expected one (raising the flag); before it,
      write each core's target, if it has one, and expect it from then on. */
  function WalkFrom(cur: seq<int>, expected: seq<int>, targets: seq<Option<int>>, i: nat): (r: Walk)
    requires |cur| == |expected| == |targets| && i <= |cur|
    ensures |r.expected| == |expected|
    ensures r.unexpected <==> FirstMismatch(cur, expected, i) < |cur|
    ensures forall k :: 0 <= k < |expected| ==>
              r.expected[k] == if i <= k < FirstMismatch(cur, expected, i) && targets[k].Some?
                               then targets[k].value else expected[k]
    ensures forall e :: e in r.writes ==>
              e.WriteCeiling? && i <= e.core < FirstMismatch(cur, expected, i) && targets[e.core] == Some(e.freq)
    ensures forall k :: i <= k < FirstMismatch(cur, expected, i) && targets[k].Some? ==>
              WriteCeiling(k, targets[k].value) in r.writes
    ensures forall a :: 0 <= a < |r.writes| ==> r.writes[a].WriteCeiling?
    ensures forall a, b :: 0 <= a < b < |r.writes| ==> r.writes[a].core < r.writes[b].core
    decreases |cur| - i
  {
    if i == |cur| then Walk(expected, [], false)
    else if cur[i] != expected[i] then Walk(expected, [], true)
    else
      var rest := WalkFrom(cur, expected, targets, i + 1);
      match targets[i]
      case None => rest
      case Some(f) =>
        assert forall e :: e in [WriteCeiling(i, f)] + rest.writes ==> e == WriteCeiling(i, f) || e in rest.writes;
        Walk(rest.expected[i := f], [WriteCeiling(i, f)] + rest.writes, rest.unexpected)
  }

  // ---------------------------------------------------------------------
  // throttling and dethrottling

  datatype Direction = Down | Up

  function Lower(avail: seq<int>, speed: int): Option<int> {
    var next := NextLower(avail, speed);
    if next == 0 then None else Some(next)
  }

  function Higher(avail: seq<int>, speed: int): Option<int> {
    var next := NextHigher(avail, speed);
    if next == Vectors.ULongMax then None else Some(next)
  }

  /** Where each core is moved: one ladder step (`throttle_next_lower_`,
      `dethrottle_next_higher_`) or straight to cpuinfo min or max
      (`throttle_lowest_`, `dethrottle_highest_`). */
  function Targets(c: Config.Config, cur: seq<int>, dir: Direction): (r: seq<Option<int>>)
    requires Consistent(c) && c.settings.useThrottle && |cur| == c.cores
    ensures |r| == |cur|
  {
    if c.settings.useScalingAvailable then
      if dir == Down then seq(|cur|, i requires 0 <= i < |cur| => Lower(c.ladder[i], cur[i]))
      else seq(|cur|, i requires 0 <= i < |cur| => Higher(c.ladder[i], cur[i]))
    else
      if dir == Down then seq(|cur|, i requires 0 <= i < |cur| => Some(c.cpuMin[i]))
      else seq(|cur|, i requires 0 <= i < |cur| => Some(c.cpuMax[i]))
  }

  /** Whether a move in `dir` has room: the guard `exec_throttle_` and
      `exec_dethrottle_` consult before writing. */
  function Room(c: Config.Config, cur: seq<int>, dir: Direction): (r: bool)
    requires Consistent(c) && c.settings.useThrottle && |cur| == c.cores
    ensures dir == Down ==> AboveMin(c, cur) == Ok(r)
    ensures dir == Up ==> BelowMax(c, cur) == Ok(r)
  {
    if dir == Down then AboveMin(c, cur).value else BelowMax(c, cur).value
  }

  /** `exec_throttle_` (Down) and `exec_dethrottle_` (Up), given the
      ceilings just read. */
  function Retarget(c: Config.Config, st: Loop, cur: seq<int>, dir: Direction): (r: Outcome)
    requires Consistent(c) && c.settings.useThrottle && |cur| == c.cores && |st.expected| == c.cores
    ensures r.st.table == st.table && r.st.stopped == st.stopped
    ensures |r.st.expected| == c.cores
    ensures forall e :: e in r.effects ==> e.WriteCeiling?
    ensures st.unexpected ==>
              && r.effects == []
              && r.st == if st.cooldown >= Cooldown then st.(unexpected := false, expected := cur, cooldown := 0) else st
    ensures !st.unexpected && !Room(c, cur, dir) ==> r == Outcome(st, [])
    ensures !st.unexpected && Room(c, cur, dir) ==>
              && r.st.cooldown == st.cooldown
              && (r.st.unexpected <==> exists k :: 0 <= k < |cur| && cur[k] != st.expected[k])
              && r.effects == WalkFrom(cur, st.expected, Targets(c, cur, dir), 0).writes
              && r.st.expected == WalkFrom(cur, st.expected, Targets(c, cur, dir), 0).expected
  {
    if st.unexpected then
      if st.cooldown >= Cooldown then Outcome(st.(unexpected := false, expected := cur, cooldown := 0), [])
      else Outcome(st, [])
    else if !Room(c, cur, dir) then Outcome(st, [])
    else
      var w := WalkFrom(cur, st.expected, Targets(c, cur, dir), 0);
      Outcome(st.(expected := w.expected, unexpected := w.unexpected), w.writes)
  }

  /** On a ladder, every throttle write moves its core strictly down to the
      next step, and every dethrottle write strictly up to the next step. */
  lemma {:induction false} LadderWritesAreSingleSteps(c: Config.Config, st: Loop, cur: seq<int>)
    requires Consistent(c) && c.settings.useThrottle && c.settings.useScalingAvailable
    requires |cur| == c.cores && |st.expected| == c.cores
    ensures forall e :: e in Retarget(c, st, cur, Down).effects ==>
              e.WriteCeiling? && e.core < |cur| && e.freq == NextLower(c.ladder[e.core], cur[e.core]) && 0 < e.freq < cur[e.core]
    ensures forall e :: e in Retarget(c, st, cur, Up).effects ==>
              e.WriteCeiling? && e.core < |cur| && e.freq == NextHigher(c.ladder[e.core], cur[e.core]) && cur[e.core] < e.freq
  {
    forall e | e in Retarget(c, st, cur, Down).effects
      ensures e.WriteCeiling? && e.core < |cur| && e.freq == NextLower(c.ladder[e.core], cur[e.core]) && 0 < e.freq < cur[e.core]
    {
      var w := WalkFrom(cur, st.expected, Targets(c, cur, Down), 0);
      assert e in w.writes;
      assert Targets(c, cur, Down)[e.core] == Lower(c.ladder[e.core], cur[e.core]);
    }
    forall e | e in Retarget(c, st, cur, Up).effects
      ensures e.WriteCeiling? && e.core < |cur| && e.freq == NextHigher(c.ladder[e.core], cur[e.core]) && cur[e.core] < e.freq
    {
      var w := WalkFrom(cur, st.expected, Targets(c, cur, Up), 0);
      assert e in w.writes;
      assert Targets(c, cur, Up)[e.core] == Higher(c.ladder[e.core], cur[e.core]);
    }
  }

  // ---------------------------------------------------------------------
  // std::max_element / std::min_element and the stepwise choice

  /** `a > b` on the source's `float` usages: a ratio compares by value,
      infinity is above every ratio but not above itself, and NaN compares
      false with everything. */
  function Greater(a: Process.Usage, b: Process.Usage): bool {
    match a
    case Ratio(x) => b.Ratio? && x > b.value
    case Infinity => b.Ratio?
    case NaN => false
  }

  /** `a < b` on the same values. */
  function Less(a: Process.Usage, b: Process.Usage): bool {
    Greater(b, a)
  }

  predicate NoNaN(xs: seq<Process.Usage>) {
    forall j :: 0 <= j < |xs| ==> !xs[j].NaN?
  }

  /** Without NaN the comparison is a strict total order. */
  lemma GreaterOrders(a: Process.Usage, b: Process.Usage, c: Process.Usage)
    requires !a.NaN? && !b.NaN? && !c.NaN?
    ensures Greater(a, b) && Greater(b, c) ==> Greater(a, c)
    ensures Greater(a, b) || Greater(b, a) || a == b
  {
  }

  /** `std::max_element(first, last, comp)` from position `i`, the running
      choice `best` moving on whenever `comp(choice, later)` holds. */
  function MaxElementFrom(xs: seq<Process.Usage>, comp: (Process.Usage, Process.Usage) -> bool, best: nat, i: nat): (k: nat)
    requires best < i <= |xs|
    ensures k < |xs| && (k == best || i <= k)
    ensures forall j :: i <= j < |xs| && k < j ==> !comp(xs[k], xs[j])
    decreases |xs| - i
  {
    if i == |xs| then best
    else MaxElementFrom(xs, comp, if comp(xs[best], xs[i]) then i else best, i + 1)
  }

  /** No later element displaces the choice: `comp(choice, later)` fails
      for every element after it, whatever the comparator. */
  function MaxElement(xs: seq<Process.Usage>, comp: (Process.Usage, Process.Usage) -> bool): (k: nat)
    requires |xs| > 0
    ensures k < |xs|
    ensures forall j :: k < j < |xs| ==> !comp(xs[k], xs[j])
  {
    MaxElementFrom(xs, comp, 0, 1)
  }

  /** `std::min_element(first, last, comp)` from position `i`: the choice
      moves on whenever `comp(later, choice)` holds. */
  function MinElementFrom(xs: seq<Process.Usage>, comp: (Process.Usage, Process.Usage) -> bool, best: nat, i: nat): (k: nat)
    requires best < i <= |xs|
    ensures k < |xs| && (k == best || i <= k)
    ensures forall j :: i <= j < |xs| && k < j ==> !comp(xs[j], xs[k])
    decreases |xs| - i
  {
    if i == |xs| then best
    else MinElementFrom(xs, comp, if comp(xs[i], xs[best]) then i else best, i + 1)
  }

  /** No later element displaces the choice: `comp(later, choice)` fails
      for every element after it, whatever the comparator. */
  function MinElement(xs: seq<Process.Usage>, comp: (Process.Usage, Process.Usage) -> bool): (k: nat)
    requires |xs| > 0
    ensures k < |xs|
    ensures forall j :: k < j < |xs| ==> !comp(xs[j], xs[k])
  {
    MinElementFrom(xs, comp, 0, 1)
  }

  /** Among the first `n` usages, `k` holds one no other is below, and
      every earlier one is above it. */
  predicate FirstMinUpTo(xs: seq<Process.Usage>, k: nat, n: nat) {
    && k < n <= |xs|
    && (forall j :: 0 <= j < n ==> !Greater(xs[k], xs[j]))
    && (forall j :: 0 <= j < k ==> Greater(xs[j], xs[k]))
  }

  predicate IsFirstMin(xs: seq<Process.Usage>, k: nat) {
    FirstMinUpTo(xs, k, |xs|)
  }

  lemma {:induction false} GreaterMaxFindsFirstMin(xs: seq<Process.Usage>, best: nat, i: nat)
    requires NoNaN(xs)
    requires best < i <= |xs| && FirstMinUpTo(xs, best, i)
    ensures IsFirstMin(xs, MaxElementFrom(xs, Greater, best, i))
    decreases |xs| - i
  {
    if i < |xs| {
      var next := if Greater(xs[best], xs[i]) then i else best;
      forall j | 0 <= j <= i
        ensures !Greater(xs[next], xs[j]) && (j < next ==> Greater(xs[j], xs[next]))
      {
        GreaterOrders(xs[best], xs[i], xs[j]);
        GreaterOrders(xs[j], xs[best], xs[i]);
      }
      assert FirstMinUpTo(xs, next, i + 1);
      GreaterMaxFindsFirstMin(xs, next, i + 1);
    }
  }

  /** `max_element` with the greater-than comparator and `min_element`
      with the less-than one move their choice on exactly the same
      comparisons. */
  lemma {:induction false} SameChoice(xs: seq<Process.Usage>, best: nat, i: nat)
    requires best < i <= |xs|
    ensures MaxElementFrom(xs, Greater, best, i) == MinElementFrom(xs, Less, best, i)
    decreases |xs| - i
  {
    if i < |xs| {
      assert Less(xs[i], xs[best]) == Greater(xs[best], xs[i]);
      SameChoice(xs, if Greater(xs[best], xs[i]) then i else best, i + 1);
    }
  }

  /** The stepwise SIGSTOP choice (`max_element` with a greater-than
      comparator) and the stepwise SIGCONT choice (`min_element` with a
      less-than comparator) are always the same entry; without NaN it is
      the first least-consuming one. */
  lemma StepwiseChoicesAgree(xs: seq<Process.Usage>)
    requires |xs| > 0
    ensures MaxElement(xs, Greater) == MinElement(xs, Less)
    ensures NoNaN(xs) ==> IsFirstMin(xs, MaxElement(xs, Greater))
  {
    SameChoice(xs, 0, 1);
    if NoNaN(xs) {
      GreaterMaxFindsFirstMin(xs, 0, 1);
    }
  }

  /** Once NaN is the running choice it stays: nothing compares below it. */
  lemma {:induction false} NaNHoldsChoice(xs: seq<Process.Usage>, best: nat, i: nat)
    requires best < i <= |xs| && xs[best].NaN?
    ensures MaxElementFrom(xs, Greater, best, i) == best
    decreases |xs| - i
  {
    if i < |xs| {
      NaNHoldsChoice(xs, best, i + 1);
    }
  }

  /** A first entry whose usage is NaN is chosen by both stepwise choices,
      whatever the others hold. */
  lemma LeadingNaNIsChosen(xs: seq<Process.Usage>)
    requires |xs| > 0 && xs[0].NaN?
    ensures MaxElement(xs, Greater) == 0 && MinElement(xs, Less) == 0
  {
    NaNHoldsChoice(xs, 0, 1);
    SameChoice(xs, 0, 1);
  }

  // ---------------------------------------------------------------------
  // the process table

  function Pids(table: seq<Process.Record>): (r: seq<int>)
    ensures |r| == |table| && forall k :: 0 <= k < |table| ==> r[k] == table[k].pid
  {
    seq(|table|, k requires 0 <= k < |table| => table[k].pid)
  }

  /** No pid is tracked twice. */
  predicate Unique(table: seq<Process.Record>) {
    forall a, b :: 0 <= a < b < |table| ==> table[a].pid != table[b].pid
  }

  /** The first record tracking `pid`. */
  function Lookup(table: seq<Process.Record>, pid: int): (r: Option<Process.Record>)
    ensures r.Some? <==> exists k :: 0 <= k < |table| && table[k].pid == pid
    ensures r.Some? ==> r.value in table && r.value.pid == pid
    decreases |table|
  {
    if |table| == 0 then None
    else if table[0].pid == pid then Some(table[0])
    else
      var rest := Lookup(table[1..], pid);
      assert forall k :: 1 <= k < |table| ==> table[k] == table[1..][k - 1];
      rest
  }

  /** With unique pids, the lookup finds the one record with that pid. */
  lemma {:induction false} LookupUnique(table: seq<Process.Record>, k: nat)
    requires Unique(table) && k < |table|
    ensures Lookup(table, table[k].pid) == Some(table[k])
    decreases |table|
  {
    if k > 0 {
      assert table[0].pid != table[k].pid;
      assert table[1..][k - 1] == table[k];
      LookupUnique(table[1..], k - 1);
    }
  }

  lemma {:induction false} FilterKeepsUnique(v: seq<Process.Record>, keep: Process.Record -> bool)
    requires Unique(v)
    ensures Unique(Vectors.Filter(v, keep))
    decreases |v|
  {
    if |v| > 0 {
      FilterKeepsUnique(v[1..], keep);
      if keep(v[0]) {
        var rest := Vectors.Filter(v[1..], keep);
        forall j | 0 <= j < |rest|
          ensures rest[j].pid != v[0].pid
        {
          assert rest[j] in rest;
          var k :| 0 <= k < |v[1..]| && v[1..][k] == rest[j];
          assert v[k + 1] == rest[j];
        }
      }
    }
  }

  function IsProcess(rec: Process.Record): bool { rec.isProcess }

  /** `find_SIGSTOP_available_pids_`'s test. */
  predicate Eligible(rec: Process.Record) {
    rec.isProcess && rec.ready && !rec.whitelisted && !rec.selfStopped
  }

  /** The records a SIGSTOP may target, in table order. */
  function Candidates(table: seq<Process.Record>): (r: seq<Process.Record>)
    ensures forall rec :: rec in r <==> rec in table && Eligible(rec)
  {
    Vectors.Filter(table, Eligible)
  }

  /** `/proc` entry names made only of digits (the empty name included). */
  predicate AllDigits(s: string) {
    forall k :: 0 <= k < |s| ==> '0' <= s[k] <= '9'
  }

  function AllDigitsOf(s: string): bool { AllDigits(s) }

  /** The pid a stopped entry still names, if its record is still a
      running, self-stopped process. */
  function StillStopped(table: seq<Process.Record>, pid: int): bool {
    var rec := Lookup(table, pid);
    rec.Some? && rec.value.isProcess && rec.value.selfStopped
  }

  // ---------------------------------------------------------------------
  // refreshing the table (`update_pids_`)

  /** `sum_cur_cpu_time_` on the first line of /proc/stat: the four tick
      counts after the label. */
  function CpuTime(line: string): (r: Result<int>)
    ensures r.Ok? <==> |Text.Split(line, ' ')| >= 5
                       && forall k :: 1 <= k <= 4 ==> Convert.ConvertInt(Convert.ULong, Text.Split(line, ' ')[k]).Ok?
    ensures r.Ok? ==> r.value >= 0
    ensures r.Ok? ==> r.value == Convert.ConvertInt(Convert.ULong, Text.Split(line, ' ')[1]).value
                               + Convert.ConvertInt(Convert.ULong, Text.Split(line, ' ')[2]).value
                               + Convert.ConvertInt(Convert.ULong, Text.Split(line, ' ')[3]).value
                               + Convert.ConvertInt(Convert.ULong, Text.Split(line, ' ')[4]).value
  {
    var spl := Text.Split(line, ' ');
    var ticks :- Vectors.Subvect(spl, 1, 4);
    var times :- Convert.ConvertAll(Convert.ULong, ticks);
    Convert.ConvertIsExact(Convert.ULong, ticks[0]);
    Convert.ConvertIsExact(Convert.ULong, ticks[1]);
    Convert.ConvertIsExact(Convert.ULong, ticks[2]);
    Convert.ConvertIsExact(Convert.ULong, ticks[3]);
    Ok(times[0] + times[1] + times[2] + times[3])
  }

  /** /proc/stat as the step reads it: when readable, it has a first line. */
  predicate ProcStatUsable(c: Config.Config, fs: Files.FileSystem)
    requires c.procStat.Some?
  {
    Files.Read(fs, c.procStat.value).Ok? ==> |Files.Read(fs, c.procStat.value).value| > 0
  }

  function CpuTimeOf(c: Config.Config, fs: Files.FileSystem): Result<int>
    requires c.procStat.Some? && ProcStatUsable(c, fs)
  {
    var lines :- Files.Read(fs, c.procStat.value);
    CpuTime(lines[0])
  }

  /** Everything the SIGSTOP half of a step needs of the machine. */
  ghost predicate SigstopReady(c: Config.Config, snap: Snapshot, table: seq<Process.Record>) {
    && c.procStat.Some?
    && ProcStatUsable(c, snap.fs)
    && (forall pid :: Process.StatUsable(snap.fs, pid))
  }

  /** Every record's `update`, all against the same sample. */
  function UpdateAll(fs: Files.FileSystem, w: Process.Whitelist, table: seq<Process.Record>, cpuTime: int)
    : (r: Result<seq<Process.Record>>)
    requires forall pid :: Process.StatUsable(fs, pid)
    ensures r.Ok? <==> forall k :: 0 <= k < |table| ==> Process.Update(fs, w, table[k], cpuTime).Ok?
    ensures r.Ok? ==> |r.value| == |table|
    ensures r.Ok? ==> forall k :: 0 <= k < |table| ==> r.value[k] == Process.Update(fs, w, table[k], cpuTime).value
    decreases |table|
  {
    if |table| == 0 then Ok([])
    else
      var head :- Process.Update(fs, w, table[0], cpuTime);
      var rest :- UpdateAll(fs, w, table[1..], cpuTime);
      Ok([head] + rest)
  }

  /** Every update keeps the record's pid. */
  lemma {:induction false} UpdateAllKeepsPids(fs: Files.FileSystem, w: Process.Whitelist, table: seq<Process.Record>, cpuTime: int)
    requires forall pid :: Process.StatUsable(fs, pid)
    requires UpdateAll(fs, w, table, cpuTime).Ok?
    ensures Pids(UpdateAll(fs, w, table, cpuTime).value) == Pids(table)
  {
    var u := UpdateAll(fs, w, table, cpuTime).value;
    forall k | 0 <= k < |table|
      ensures u[k].pid == table[k].pid
    {
      assert Process.ReadStat(fs, table[k]).value.pid == table[k].pid;
    }
  }

  /** The loop that tracks each new pid: one already tracked, or seen
      earlier in the listing, is skipped. */
  function AddNew(fs: Files.FileSystem, w: Process.Whitelist, table: seq<Process.Record>, pids: seq<int>)
    : (r: Result<seq<Process.Record>>)
    requires forall pid :: Process.StatUsable(fs, pid)
    ensures r.Ok? ==> |table| <= |r.value| && r.value[..|table|] == table
    decreases |pids|
  {
    if |pids| == 0 then Ok(table)
    else if Vectors.Contains(Pids(table), pids[0]) then AddNew(fs, w, table, pids[1..])
    else
      var rec :- Process.New(fs, w, pids[0]);
      var r := AddNew(fs, w, table + [rec], pids[1..]);
      assert r.Ok? ==> r.value[..|table + [rec]|][..|table|] == r.value[..|table|];
      r
  }

  /** A table extended at its end still tracks every pid it tracked. */
  lemma PrefixKeepsPids(table: seq<Process.Record>, r: seq<Process.Record>)
    requires |table| <= |r| && r[..|table|] == table
    ensures forall q :: q in Pids(table) ==> q in Pids(r)
  {
    forall q | q in Pids(table) ensures q in Pids(r) {
      var k :| 0 <= k < |table| && Pids(table)[k] == q;
      assert r[..|table|][k] == r[k];
      assert Pids(r)[k] == q;
    }
  }

  /** Every listed pid ends up tracked. */
  lemma {:induction false} AddNewTracksListed(fs: Files.FileSystem, w: Process.Whitelist, table: seq<Process.Record>, pids: seq<int>)
    requires forall pid :: Process.StatUsable(fs, pid)
    requires AddNew(fs, w, table, pids).Ok?
    ensures forall p :: p in pids ==> p in Pids(AddNew(fs, w, table, pids).value)
    decreases |pids|
  {
    if |pids| > 0 {
      var r := AddNew(fs, w, table, pids).value;
      assert forall p :: p in pids ==> p == pids[0] || p in pids[1..];
      PrefixKeepsPids(table, r);
      if Vectors.Contains(Pids(table), pids[0]) {
        AddNewTracksListed(fs, w, table, pids[1..]);
      } else {
        var rec := Process.New(fs, w, pids[0]).value;
        AddNewTracksListed(fs, w, table + [rec], pids[1..]);
        assert r[|table|] == r[..|table + [rec]|][|table|] == rec;
        assert Pids(r)[|table|] == rec.pid;
      }
    }
  }

  /** Every added record is a listed pid that has not been stopped. */
  lemma {:induction false} AddNewAddsListed(fs: Files.FileSystem, w: Process.Whitelist, table: seq<Process.Record>, pids: seq<int>)
    requires forall pid :: Process.StatUsable(fs, pid)
    requires AddNew(fs, w, table, pids).Ok?
    ensures forall k :: |table| <= k < |AddNew(fs, w, table, pids).value| ==>
              AddNew(fs, w, table, pids).value[k].pid in pids && !AddNew(fs, w, table, pids).value[k].selfStopped
    decreases |pids|
  {
    if |pids| > 0 {
      var r := AddNew(fs, w, table, pids).value;
      assert forall p :: p in pids[1..] ==> p in pids;
      if Vectors.Contains(Pids(table), pids[0]) {
        AddNewAddsListed(fs, w, table, pids[1..]);
      } else {
        var rec := Process.New(fs, w, pids[0]).value;
        var grown := table + [rec];
        assert r == AddNew(fs, w, grown, pids[1..]).value;
        AddNewAddsListed(fs, w, grown, pids[1..]);
        forall k | |table| <= k < |r|
          ensures r[k].pid in pids && !r[k].selfStopped
        {
          if k == |table| {
            assert r[k] == r[..|grown|][|table|] == rec;
          } else {
            assert r[k].pid in pids[1..];
          }
        }
      }
    }
  }

  /** Adding never tracks a pid twice. */
  lemma {:induction false} AddNewKeepsUnique(fs: Files.FileSystem, w: Process.Whitelist, table: seq<Process.Record>, pids: seq<int>)
    requires forall pid :: Process.StatUsable(fs, pid)
    requires AddNew(fs, w, table, pids).Ok? && Unique(table)
    ensures Unique(AddNew(fs, w, table, pids).value)
    decreases |pids|
  {
    if |pids| > 0 {
      if Vectors.Contains(Pids(table), pids[0]) {
        AddNewKeepsUnique(fs, w, table, pids[1..]);
      } else {
        var rec := Process.New(fs, w, pids[0]).value;
        forall k | 0 <= k < |table| ensures table[k].pid != rec.pid {
          assert Pids(table)[k] == table[k].pid;
        }
        AddNewKeepsUnique(fs, w, table + [rec], pids[1..]);
      }
    }
  }

  /** The first loop of `update_pids_`; /proc/stat is only read when there
      is a record to update. */
  function Updated(c: Config.Config, w: Process.Whitelist, snap: Snapshot, table: seq<Process.Record>)
    : (r: Result<seq<Process.Record>>)
    requires SigstopReady(c, snap, table)
    ensures |table| == 0 ==> r == Ok([])
    ensures r.Ok? ==> Pids(r.value) == Pids(table)
    ensures r.Ok? && |table| > 0 ==>
              && CpuTimeOf(c, snap.fs).Ok?
              && r == UpdateAll(snap.fs, w, table, CpuTimeOf(c, snap.fs).value)
  {
    if |table| == 0 then Ok([])
    else
      var cpu :- CpuTimeOf(c, snap.fs);
      var u := UpdateAll(snap.fs, w, table, cpu);
      if u.Ok? then UpdateAllKeepsPids(snap.fs, w, table, cpu); u else u
  }

  /** `update_pids_`: update every record against one CPU-time sample, drop
      the records of processes that are gone, keep only the stopped pids
      whose records are still running and self-stopped, then track every
      all-digit entry of /proc not yet tracked. */
  function Refresh(c: Config.Config, w: Process.Whitelist, snap: Snapshot, st: Loop): (r: Result<Loop>)
    requires SigstopReady(c, snap, st.table)
    ensures r.Ok? ==> r.value.expected == st.expected && r.value.unexpected == st.unexpected
                      && r.value.cooldown == st.cooldown
    ensures r.Ok? ==> forall p :: p in r.value.stopped ==> p in st.stopped
  {
    var updated :- Updated(c, w, snap, st.table);
    var stopped := Vectors.Filter(st.stopped, (p: int) => StillStopped(updated, p));
    var pids :- ListedPids(snap);
    var grown :- AddNew(snap.fs, w, Vectors.Filter(updated, IsProcess), pids);
    Ok(st.(table := grown, stopped := stopped))
  }

  /** The all-digit entries of /proc, converted to pids in listing order. */
  function ListedPids(snap: Snapshot): Result<seq<int>> {
    var names :- Files.Ls(snap.procEntries, false);
    Convert.ConvertAll(Convert.Int, Vectors.Filter(names, AllDigitsOf))
  }

  /** What refreshing keeps and adds: every updated record of a running
      process stays; any other record in the new table is a fresh,
      not-stopped record of a pid /proc lists, so the record of a process
      that is gone and unlisted is dropped; every listed pid is tracked;
      and a stopped pid is kept exactly when its updated record is still
      running and self-stopped. */
  lemma RefreshTracks(c: Config.Config, w: Process.Whitelist, snap: Snapshot, st: Loop)
    requires SigstopReady(c, snap, st.table)
    requires Refresh(c, w, snap, st).Ok?
    ensures Updated(c, w, snap, st.table).Ok? && ListedPids(snap).Ok?
    ensures forall rec :: rec in Updated(c, w, snap, st.table).value && rec.isProcess ==>
              rec in Refresh(c, w, snap, st).value.table
    ensures forall rec :: rec in Refresh(c, w, snap, st).value.table ==>
              || (rec in Updated(c, w, snap, st.table).value && rec.isProcess)
              || (rec.pid in ListedPids(snap).value && !rec.selfStopped)
    ensures forall p :: p in ListedPids(snap).value ==> p in Pids(Refresh(c, w, snap, st).value.table)
    ensures forall p :: p in Refresh(c, w, snap, st).value.stopped <==>
              p in st.stopped && StillStopped(Updated(c, w, snap, st.table).value, p)
  {
    var updated := Updated(c, w, snap, st.table).value;
    var alive := Vectors.Filter(updated, IsProcess);
    var pids := ListedPids(snap).value;
    var grown := AddNew(snap.fs, w, alive, pids).value;
    assert Refresh(c, w, snap, st).value.table == grown;
    AddNewTracksListed(snap.fs, w, alive, pids);
    AddNewAddsListed(snap.fs, w, alive, pids);
    forall rec | rec in updated && rec.isProcess ensures rec in grown {
      assert rec in alive;
      var k :| 0 <= k < |alive| && alive[k] == rec;
      assert grown[..|alive|][k] == grown[k];
    }
    forall rec | rec in grown
      ensures (rec in updated && rec.isProcess) || (rec.pid in pids && !rec.selfStopped)
    {
      var k :| 0 <= k < |grown| && grown[k] == rec;
      if k < |alive| {
        assert grown[..|alive|][k] == grown[k];
        assert alive[k] in alive;
      }
    }
  }

  /** Refreshing never tracks a pid twice, and every stopped pid it keeps
      names a running, self-stopped record of the new table. */
  lemma RefreshInvariant(c: Config.Config, w: Process.Whitelist, snap: Snapshot, st: Loop)
    requires SigstopReady(c, snap, st.table)
    requires Unique(st.table)
    requires Refresh(c, w, snap, st).Ok?
    ensures Unique(Refresh(c, w, snap, st).value.table)
    ensures forall p :: p in Refresh(c, w, snap, st).value.stopped ==>
              var rec := Lookup(Refresh(c, w, snap, st).value.table, p);
              rec.Some? && rec.value.isProcess && rec.value.selfStopped
  {
    var updated := Updated(c, w, snap, st.table).value;
    UpdatedKeepsUnique(c, w, snap, st.table);
    var alive := Vectors.Filter(updated, IsProcess);
    FilterKeepsUnique(updated, IsProcess);
    var pids := ListedPids(snap).value;
    var grown := AddNew(snap.fs, w, alive, pids).value;
    AddNewKeepsUnique(snap.fs, w, alive, pids);
    assert Refresh(c, w, snap, st).value.table == grown;
    forall p | p in Refresh(c, w, snap, st).value.stopped
      ensures var rec := Lookup(grown, p); rec.Some? && rec.value.isProcess && rec.value.selfStopped
    {
      assert StillStopped(updated, p);
      StoppedStaysTracked(updated, grown, p);
    }
  }

  lemma UpdatedKeepsUnique(c: Config.Config, w: Process.Whitelist, snap: Snapshot, table: seq<Process.Record>)
    requires SigstopReady(c, snap, table) && Unique(table)
    requires Updated(c, w, snap, table).Ok?
    ensures Unique(Updated(c, w, snap, table).value)
  {
    var updated := Updated(c, w, snap, table).value;
    forall a, b | 0 <= a < b < |updated| ensures updated[a].pid != updated[b].pid {
      assert Pids(updated)[a] == Pids(table)[a] && Pids(updated)[b] == Pids(table)[b];
    }
  }

  /** A pid whose record runs and is self-stopped before the new pids are
      appended is found, still running and self-stopped, afterwards. */
  lemma StoppedStaysTracked(updated: seq<Process.Record>, grown: seq<Process.Record>, p: int)
    requires StillStopped(updated, p)
    requires |Vectors.Filter(updated, IsProcess)| <= |grown|
    requires grown[..|Vectors.Filter(updated, IsProcess)|] == Vectors.Filter(updated, IsProcess)
    requires Unique(grown)
    ensures var rec := Lookup(grown, p); rec.Some? && rec.value.isProcess && rec.value.selfStopped
  {
    var alive := Vectors.Filter(updated, IsProcess);
    var rec := Lookup(updated, p).value;
    assert rec in alive;
    var k :| 0 <= k < |alive| && alive[k] == rec;
    assert grown[..|alive|][k] == grown[k];
    LookupUnique(grown, k);
  }

  // ---------------------------------------------------------------------
  // signals

  /** Every entry's pct, read in order; a read fails unless the record has
      taken two samples. */
  function AllPcts(recs: seq<Process.Record>): (r: Result<seq<Process.Usage>>)
    ensures r.Ok? <==> forall k :: 0 <= k < |recs| ==> recs[k].ready
    ensures r.Ok? ==> |r.value| == |recs| && forall k :: 0 <= k < |recs| ==> r.value[k] == recs[k].pct
    ensures r.Err? ==> exists k :: 0 <= k < |recs| && Process.CpuPct(recs[k]) == Err(r.error)
    decreases |recs|
  {
    if |recs| == 0 then Ok([])
    else
      var p :- Process.CpuPct(recs[0]);
      var rest :- AllPcts(recs[1..]);
      Ok([p] + rest)
  }

  /** The pct readings a `max_element` or `min_element` comparator makes:
      none for a single entry, every entry's otherwise. */
  function Compared(recs: seq<Process.Record>): (r: Result<seq<Process.Usage>>)
    requires |recs| > 0
    ensures r.Ok? <==> |recs| == 1 || forall k :: 0 <= k < |recs| ==> recs[k].ready
    ensures r.Ok? ==> |r.value| == |recs| && forall k :: 0 <= k < |recs| ==> r.value[k] == recs[k].pct
  {
    if |recs| == 1 then Ok([recs[0].pct]) else AllPcts(recs)
  }

  function PctsOf(recs: seq<Process.Record>): (r: seq<Process.Usage>)
    ensures |r| == |recs|
  {
    seq(|recs|, k requires 0 <= k < |recs| => recs[k].pct)
  }

  /** `send_SIGSTOP` (stop) or `send_SIGCONT` on every record whose pid is
      in `pids`. */
  function Mark(table: seq<Process.Record>, pids: set<int>, stop: bool): (r: seq<Process.Record>)
    ensures Pids(r) == Pids(table)
    ensures forall k :: 0 <= k < |table| && table[k].pid in pids ==> r[k].selfStopped == stop
    ensures forall k :: 0 <= k < |table| && table[k].pid !in pids ==> r[k] == table[k]
  {
    seq(|table|, k requires 0 <= k < |table| =>
      if table[k].pid !in pids then table[k]
      else if stop then Process.SendStop(table[k]) else Process.SendCont(table[k]))
  }

  function Stops(pids: seq<int>): (r: seq<Effect>)
    ensures |r| == |pids| && forall k :: 0 <= k < |pids| ==> r[k] == Stop(pids[k])
  {
    seq(|pids|, k requires 0 <= k < |pids| => Stop(pids[k]))
  }

  function Conts(pids: seq<int>): (r: seq<Effect>)
    ensures |r| == |pids| && forall k :: 0 <= k < |pids| ==> r[k] == Cont(pids[k])
  {
    seq(|pids|, k requires 0 <= k < |pids| => Cont(pids[k]))
  }

  /** The records the stopped list points at, in stopping order. */
  function StoppedRecords(table: seq<Process.Record>, stopped: seq<int>): (r: seq<Process.Record>)
    ensures forall rec :: rec in r ==> rec in table && rec.pid in stopped
    decreases |stopped|
  {
    if |stopped| == 0 then []
    else
      var rest := StoppedRecords(table, stopped[1..]);
      assert forall p :: p in stopped[1..] ==> p in stopped;
      match Lookup(table, stopped[0])
      case Some(rec) => [rec] + rest
      case None => rest
  }

  /** What a stop leaves: it targets candidates of the refreshed table only
      (one at most when stepwise, all of them otherwise) and appends them to
      the stopped list in order. */
  predicate FreshStops(live: Loop, stepwise: bool, o: Outcome) {
    && (o.effects == [] <==> |Candidates(live.table)| == 0)
    && (forall e :: e in o.effects ==> e.Stop? && exists rec :: rec in Candidates(live.table) && rec.pid == e.pid)
    && (stepwise ==> |o.effects| <= 1)
    && (!stepwise ==> |o.effects| == |Candidates(live.table)|)
    && |o.st.stopped| == |live.stopped| + |o.effects|
    && o.st.stopped[..|live.stopped|] == live.stopped
    && (forall k :: 0 <= k < |o.effects| ==> o.effects[k] == Stop(o.st.stopped[|live.stopped| + k]))
  }

  /** Stopping the `i`-th candidate alone. */
  function StopChosen(live: Loop, i: nat): (o: Outcome)
    requires i < |Candidates(live.table)|
    ensures FreshStops(live, true, o)
    ensures o.st.expected == live.expected && o.st.unexpected == live.unexpected
            && o.st.cooldown == live.cooldown
  {
    var chosen := Candidates(live.table)[i];
    assert chosen in Candidates(live.table);
    Outcome(live.(table := Mark(live.table, {chosen.pid}, true), stopped := live.stopped + [chosen.pid]),
            [Stop(chosen.pid)])
  }

  /** Stopping every candidate, in table order. */
  function StopEvery(live: Loop): (o: Outcome)
    ensures FreshStops(live, false, o)
    ensures o.st.expected == live.expected && o.st.unexpected == live.unexpected
            && o.st.cooldown == live.cooldown
  {
    var cands := Candidates(live.table);
    var pids := Pids(cands);
    assert forall k :: 0 <= k < |cands| ==> cands[k] in cands;
    Outcome(live.(table := Mark(live.table, set p | p in pids, true), stopped := live.stopped + pids),
            Stops(pids))
  }

  /** The stop itself, among the candidates of a refreshed table. */
  function StopAmong(live: Loop, stepwise: bool): (r: Result<Outcome>)
    ensures r.Ok? ==> FreshStops(live, stepwise, r.value)
    ensures r.Ok? ==> r.value.st.expected == live.expected && r.value.st.unexpected == live.unexpected
                      && r.value.st.cooldown == live.cooldown
  {
    var cands := Candidates(live.table);
    if |cands| == 0 then Ok(Outcome(live, []))
    else if stepwise then
      var pcts :- Compared(cands);
      Ok(StopChosen(live, MaxElement(pcts, Greater)))
    else Ok(StopEvery(live))
  }

  /** `exec_SIGSTOP_`: refresh, then stop the stepwise choice (the first
      least-consuming candidate when no usage is NaN) or every candidate. */
  function ExecStop(c: Config.Config, snap: Snapshot, st: Loop): (r: Result<Outcome>)
    requires c.settings.useSigstop && SigstopReady(c, snap, st.table)
    ensures r.Ok? ==> Refresh(c, Process.WhitelistOf(c).value, snap, st).Ok?
    ensures r.Ok? ==> r.value.st.expected == st.expected && r.value.st.unexpected == st.unexpected
                      && r.value.st.cooldown == st.cooldown
    ensures r.Ok? ==> FreshStops(Refresh(c, Process.WhitelistOf(c).value, snap, st).value, c.settings.stepwiseSigstop, r.value)
  {
    var live :- Refresh(c, Process.WhitelistOf(c).value, snap, st);
    StopAmong(live, c.settings.stepwiseSigstop)
  }

  /** The resume itself, over a refreshed table and stopped list. */
  function ContAmong(live: Loop, stepwise: bool): (r: Result<Outcome>)
    ensures r.Ok? ==> r.value.st.expected == live.expected && r.value.st.unexpected == live.unexpected
                      && r.value.st.cooldown == live.cooldown && r.value.st.stopped == live.stopped
    ensures r.Ok? ==> forall e :: e in r.value.effects ==> e.Cont? && e.pid in live.stopped
    ensures r.Ok? && stepwise ==> |r.value.effects| <= 1
    ensures r.Ok? && !stepwise ==> r.value.effects == Conts(live.stopped)
  {
    if stepwise then
      var recs := StoppedRecords(live.table, live.stopped);
      if |recs| == 0 then Ok(Outcome(live, []))
      else
        var pcts :- Compared(recs);
        var chosen := recs[MinElement(pcts, Less)];
        assert chosen in recs;
        Ok(Outcome(live.(table := Mark(live.table, {chosen.pid}, false)), [Cont(chosen.pid)]))
    else
      Ok(Outcome(live.(table := Mark(live.table, set p | p in live.stopped, false)), Conts(live.stopped)))
  }

  /** `exec_SIGCONT_`: nothing unless something is stopped; otherwise
      refresh, then resume the stepwise choice (the first least-consuming
      stopped process when no usage is NaN) or all of them. The choice
      follows the stepwise SIGSTOP setting. */
  function ExecCont(c: Config.Config, snap: Snapshot, st: Loop): (r: Result<Outcome>)
    requires c.settings.useSigstop && SigstopReady(c, snap, st.table)
    ensures |st.stopped| == 0 ==> r == Ok(Outcome(st, []))
    ensures r.Ok? ==> r.value.st.expected == st.expected && r.value.st.unexpected == st.unexpected
                      && r.value.st.cooldown == st.cooldown
    ensures r.Ok? ==> forall e :: e in r.value.effects ==> e.Cont? && e.pid in st.stopped
    ensures r.Ok? && c.settings.stepwiseSigstop ==> |r.value.effects| <= 1
    ensures r.Ok? && |st.stopped| > 0 ==>
              && Refresh(c, Process.WhitelistOf(c).value, snap, st).Ok?
              && r.value.st.stopped == Refresh(c, Process.WhitelistOf(c).value, snap, st).value.stopped
    ensures r.Ok? && |st.stopped| > 0 && !c.settings.stepwiseSigstop ==>
              r.value.effects == Conts(Refresh(c, Process.WhitelistOf(c).value, snap, st).value.stopped)
  {
    if |st.stopped| == 0 then Ok(Outcome(st, []))
    else
      var live :- Refresh(c, Process.WhitelistOf(c).value, snap, st);
      ContAmong(live, c.settings.stepwiseSigstop)
  }

  /** When no candidate's usage is NaN, the stepwise SIGSTOP stops the
      FIRST LEAST-consuming candidate (the header's comment promises the
      highest-consuming one). */
  lemma StepwiseStopPicksLeast(c: Config.Config, snap: Snapshot, st: Loop)
    requires c.settings.useSigstop && SigstopReady(c, snap, st.table) && c.settings.stepwiseSigstop
    requires ExecStop(c, snap, st).Ok?
    ensures var cands := Candidates(Refresh(c, Process.WhitelistOf(c).value, snap, st).value.table);
            |cands| > 0 && NoNaN(PctsOf(cands)) ==>
              exists k :: 0 <= k < |cands| && IsFirstMin(PctsOf(cands), k)
                          && ExecStop(c, snap, st).value.effects == [Stop(cands[k].pid)]
  {
    var cands := Candidates(Refresh(c, Process.WhitelistOf(c).value, snap, st).value.table);
    if |cands| > 0 && NoNaN(PctsOf(cands)) {
      var pcts := Compared(cands).value;
      assert pcts == PctsOf(cands);
      StepwiseChoicesAgree(pcts);
      var k := MaxElement(pcts, Greater);
      assert IsFirstMin(PctsOf(cands), k);
    }
  }

  /** When no stopped process's usage is NaN, the stepwise SIGCONT resumes
      the first least-consuming one, in stopping order. */
  lemma StepwiseContPicksLeast(c: Config.Config, snap: Snapshot, st: Loop)
    requires c.settings.useSigstop && SigstopReady(c, snap, st.table) && c.settings.stepwiseSigstop
    requires ExecCont(c, snap, st).Ok? && |st.stopped| > 0
    ensures var live := Refresh(c, Process.WhitelistOf(c).value, snap, st).value;
            var recs := StoppedRecords(live.table, live.stopped);
            |recs| > 0 && NoNaN(PctsOf(recs)) ==>
              exists k :: 0 <= k < |recs| && IsFirstMin(PctsOf(recs), k)
                          && ExecCont(c, snap, st).value.effects == [Cont(recs[k].pid)]
  {
    var live := Refresh(c, Process.WhitelistOf(c).value, snap, st).value;
    var recs := StoppedRecords(live.table, live.stopped);
    if |recs| > 0 && NoNaN(PctsOf(recs)) {
      var pcts := Compared(recs).value;
      assert pcts == PctsOf(recs);
      StepwiseChoicesAgree(pcts);
      var k := MinElement(pcts, Less);
      assert IsFirstMin(PctsOf(recs), k);
    }
  }

  // ---------------------------------------------------------------------
  // one iteration of `run_()`

  const NoModeMessage: string :=
    "Neither throttling nor SIGSTOP operations are enabled. "
    + "This should have been prevented by the initial configuration verification."

  /** What the step needs of the configuration and the machine. */
  ghost predicate Ready(c: Config.Config, st: Loop, snap: Snapshot) {
    && Consistent(c)
    && (c.settings.useThrottle ==> |snap.ceilings| == c.cores && |st.expected| == c.cores)
    && (c.settings.useSigstop ==> SigstopReady(c, snap, st.table))
  }

  /** Above an enabled mode's upper threshold (strictly). */
  predicate Hot(s: Config.Settings, t: int) {
    (s.useThrottle && t > s.tempThrottle) || (s.useSigstop && t > s.tempSigstop)
  }

  /** Below an enabled mode's lower threshold (strictly). */
  predicate Cold(s: Config.Settings, t: int) {
    (s.useThrottle && t < s.tempDethrottle) || (s.useSigstop && t < s.tempSigcont)
  }

  /** The loop's closing `if (found_unexpected_frequency_) cooldown_ct_++`,
      present only in the loops that throttle. */
  function Tick(c: Config.Config, o: Outcome): Outcome {
    if c.settings.useThrottle && o.st.unexpected then o.(st := o.st.(cooldown := o.st.cooldown + 1)) else o
  }

  function Then(a: Outcome, b: Outcome): Outcome {
    Outcome(b.st, a.effects + b.effects)
  }

  /** Both modes, too hot: throttle and then stop, each only past its own
      threshold. */
  function CombinedHot(c: Config.Config, st: Loop, snap: Snapshot): (r: Result<Outcome>)
    requires Ready(c, st, snap) && c.settings.useThrottle && c.settings.useSigstop
    ensures r.Ok? ==> forall e :: e in r.value.effects ==> !e.Cont?
    ensures r.Ok? && st.unexpected && st.cooldown < Cooldown ==>
              && (forall e :: e in r.value.effects ==> !e.WriteCeiling?)
              && r.value.st.unexpected && r.value.st.cooldown == st.cooldown
              && r.value.st.expected == st.expected
  {
    var s, t := c.settings, snap.maxTemp;
    var a := if t > s.tempThrottle then Retarget(c, st, snap.ceilings, Down) else Outcome(st, []);
    var b :- if t > s.tempSigstop then ExecStop(c, snap, a.st) else Ok(Outcome(a.st, []));
    Ok(Then(a, b))
  }

  /** Both modes, too cold: dethrottle and then resume, each only below its
      own threshold. */
  function CombinedCold(c: Config.Config, st: Loop, snap: Snapshot): (r: Result<Outcome>)
    requires Ready(c, st, snap) && c.settings.useThrottle && c.settings.useSigstop
    ensures r.Ok? ==> forall e :: e in r.value.effects ==> !e.Stop?
    ensures r.Ok? && st.unexpected && st.cooldown < Cooldown ==>
              && (forall e :: e in r.value.effects ==> !e.WriteCeiling?)
              && r.value.st.unexpected && r.value.st.cooldown == st.cooldown
              && r.value.st.expected == st.expected
  {
    var s, t := c.settings, snap.maxTemp;
    var a := if t < s.tempDethrottle then Retarget(c, st, snap.ceilings, Up) else Outcome(st, []);
    var b :- if t < s.tempSigcont then ExecCont(c, snap, a.st) else Ok(Outcome(a.st, []));
    Ok(Then(a, b))
  }

  /** The loop for both modes. */
  function CombinedStep(c: Config.Config, st: Loop, snap: Snapshot): (r: Result<Outcome>)
    requires Ready(c, st, snap) && c.settings.useThrottle && c.settings.useSigstop
    ensures r.Ok? && Hot(c.settings, snap.maxTemp) ==> forall e :: e in r.value.effects ==> !e.Cont?
    ensures r.Ok? && !Hot(c.settings, snap.maxTemp) ==> forall e :: e in r.value.effects ==> !e.Stop?
    ensures !Hot(c.settings, snap.maxTemp) && !Cold(c.settings, snap.maxTemp) ==> r == Ok(Outcome(st, []))
    ensures r.Ok? && st.unexpected && st.cooldown < Cooldown ==>
              && (forall e :: e in r.value.effects ==> !e.WriteCeiling?)
              && r.value.st.unexpected && r.value.st.cooldown == st.cooldown
              && r.value.st.expected == st.expected
  {
    var s, t := c.settings, snap.maxTemp;
    if t > s.tempThrottle || t > s.tempSigstop then CombinedHot(c, st, snap)
    else if t < s.tempDethrottle || t < s.tempSigcont then CombinedCold(c, st, snap)
    else Ok(Outcome(st, []))
  }

  /** The loop for throttle mode alone. */
  function ThrottleStep(c: Config.Config, st: Loop, snap: Snapshot): (r: Outcome)
    requires Ready(c, st, snap) && c.settings.useThrottle
    ensures forall e :: e in r.effects ==> e.WriteCeiling?
    ensures r.st.table == st.table && r.st.stopped == st.stopped
    ensures snap.maxTemp <= c.settings.tempThrottle && snap.maxTemp >= c.settings.tempDethrottle ==> r == Outcome(st, [])
    ensures st.unexpected && st.cooldown < Cooldown ==> r == Outcome(st, [])
  {
    if snap.maxTemp > c.settings.tempThrottle then Retarget(c, st, snap.ceilings, Down)
    else if snap.maxTemp < c.settings.tempDethrottle then Retarget(c, st, snap.ceilings, Up)
    else Outcome(st, [])
  }

  /** The loop for SIGSTOP mode alone. */
  function SigstopStep(c: Config.Config, st: Loop, snap: Snapshot): (r: Result<Outcome>)
    requires Ready(c, st, snap) && c.settings.useSigstop
    ensures r.Ok? ==> forall e :: e in r.value.effects ==> !e.WriteCeiling?
    ensures r.Ok? ==> r.value.st.expected == st.expected && r.value.st.unexpected == st.unexpected
                      && r.value.st.cooldown == st.cooldown
    ensures r.Ok? && snap.maxTemp > c.settings.tempSigstop ==> forall e :: e in r.value.effects ==> e.Stop?
    ensures r.Ok? && snap.maxTemp <= c.settings.tempSigstop ==> forall e :: e in r.value.effects ==> e.Cont?
    ensures snap.maxTemp <= c.settings.tempSigstop && snap.maxTemp >= c.settings.tempSigcont ==> r == Ok(Outcome(st, []))
  {
    if snap.maxTemp > c.settings.tempSigstop then ExecStop(c, snap, st)
    else if snap.maxTemp < c.settings.tempSigcont then ExecCont(c, snap, st)
    else Ok(Outcome(st, []))
  }

  /** One iteration of `run_()`'s loop for the enabled modes. Throttling
      comes before stopping and dethrottling before resuming, a hot reading
      excludes the cold actions, and an unexpected ceiling holds throttling
      off for `Cooldown` iterations. */
  function Step(c: Config.Config, st: Loop, snap: Snapshot): (r: Result<Outcome>)
    requires Ready(c, st, snap)
    ensures !c.settings.useThrottle && !c.settings.useSigstop ==> r == Err(InternalError(NoModeMessage))
    ensures r.Ok? && !c.settings.useSigstop ==>
              && (forall e :: e in r.value.effects ==> e.WriteCeiling?)
              && r.value.st.table == st.table && r.value.st.stopped == st.stopped
    ensures r.Ok? && !c.settings.useThrottle ==>
              && (forall e :: e in r.value.effects ==> !e.WriteCeiling?)
              && r.value.st.expected == st.expected && r.value.st.unexpected == st.unexpected
              && r.value.st.cooldown == st.cooldown
    ensures r.Ok? && Hot(c.settings, snap.maxTemp) ==> forall e :: e in r.value.effects ==> !e.Cont?
    ensures r.Ok? && !Hot(c.settings, snap.maxTemp) ==> forall e :: e in r.value.effects ==> !e.Stop?
    ensures (c.settings.useThrottle || c.settings.useSigstop)
            && !Hot(c.settings, snap.maxTemp) && !Cold(c.settings, snap.maxTemp) ==>
              r == Ok(Tick(c, Outcome(st, [])))
    ensures r.Ok? && c.settings.useThrottle && st.unexpected && st.cooldown < Cooldown ==>
              && (forall e :: e in r.value.effects ==> !e.WriteCeiling?)
              && r.value.st.unexpected && r.value.st.cooldown == st.cooldown + 1
              && r.value.st.expected == st.expected
  {
    if c.settings.useThrottle && c.settings.useSigstop then
      var o :- CombinedStep(c, st, snap);
      Ok(Tick(c, o))
    else if c.settings.useThrottle then Ok(Tick(c, ThrottleStep(c, st, snap)))
    else if c.settings.useSigstop then SigstopStep(c, st, snap)
    else Err(InternalError(NoModeMessage))
  }
}
