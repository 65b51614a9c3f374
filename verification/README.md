# templimiter in Dafny

A model of the core of templimiter. templimiter is a Linux daemon that keeps
the CPU below configured temperatures. It does this in two ways:

- **Throttle mode** lowers and raises the per-core `scaling_max_freq` ceilings.
  Each move is either one step along the kernel's
  `scaling_available_frequencies` ladder, or straight to `cpuinfo_min_freq` or
  `cpuinfo_max_freq`.
- **SIGSTOP mode** stops the non-whitelisted processes that use CPU and
  resumes them once the machine has cooled.

The model covers these layers, one Dafny module each:

- `Errors`: the error kinds and the messages they render.
- `Text`: the backslash-escaping, run-collapsing tokenizer `split` and the
  asterisk matcher `matches_pattern`. The tokenizer comes in two versions:
  `Text.SplitAsWritten` is the source's, and `Text.Split` corrects the first
  Finding below. Every other layer cuts text with `Text.Split`. The two agree
  on text without backslashes (`Text.SplitAsWrittenAgrees`).
- `Vectors`: `subvect`, `map`, `filter`, `contains`, `fill`, the top-n
  selectors `max_n_elements` / `min_n_elements`, `join` and
  `pattern_vect_contains`.
- `Convert`: the stream-based conversions. Text converts to a value only
  when printing the value reproduces the text exactly.
- `Files`: files, file collections, deep directory creation and `ls`. These
  work over an explicit file-system value.
- `Config`: tag lookup in the configuration file, scalar and list loading
  over the hard-coded defaults, the cross-field validation, and the accessors
  gated by mode.
- `Process`: one `/proc/<pid>/stat` record. It covers the whitelist test and
  the two-sample CPU-usage state machine.
- `Monitor`: one iteration of the daemon's loop, as a pure function. It takes
  the loop state and a snapshot of the machine, and returns the new state and
  the effects in order: ceiling writes, `SIGSTOP`s and `SIGCONT`s.
- `Cli`: `main`'s flag dispatch and its exit status.

Besides the two Findings below, the model keeps several behaviours of the
code that its comments or documentation would not lead a reader to expect.

- The stepwise `SIGSTOP` calls `std::max_element` with a greater-than
  comparator. It therefore stops the *least*-consuming candidate, the first
  one among equals, when no usage is NaN (`Monitor.StepwiseStopPicksLeast`). The header comment
  says "next highest-consuming".
- `exec_SIGCONT_` chooses between resuming one process and resuming all of
  them according to `use_stepwise_SIGSTOP`, not `use_stepwise_SIGCONT`.
- The monitor's constructor reads the ceilings through an accessor that only
  throttle mode may use. A configuration that enables `SIGSTOP` mode alone
  therefore passes validation, yet the daemon exits with status 1
  (`Cli.SigstopOnlyExitsWithError`).
- `--which-conf` is compared on its first seven characters only, so any
  argument that starts with `--which` prints the configuration path.
- A pattern's trailing literal segment is anchored by its *first* occurrence.
  So `*a` does not match `aa` (`Text.FirstOccurrenceAnchoring`).
- When no `cpuinfo_min_freq` value is found, the error reports the
  `cpuinfo_max_freq` matcher.

## Model

| member | source | states |
|---|---|---|
| Errors.Describe | src/templimiter/error/internal-error.cc:37-47 | every message starts with the bracketed class name, and an internal error always says more than its header |
| Errors.DetailsAreAppended | src/templimiter/error/argument-error.cc:37-58 | for argument, configuration, I/O and typed type errors, non-empty details are appended to the detail-free message after exactly one space |
| Errors.ArgumentUnspecifiedIff | src/templimiter/error/argument-error.cc:37-58 | an argument error reads "Unspecified" exactly when its name, type or sample is missing |
| Errors.ConfigUnspecifiedIff | src/templimiter/error/config-error.cc:38-55 | a configuration error reads "Unspecified" exactly when both tag and value are missing |
| Errors.IOUnspecifiedIff | src/templimiter/error/io-error.cc:37-54 | an I/O error reads "Unspecified" exactly when the path or the operation is missing |
| Errors.TypeErrorDetailsOnly | src/templimiter/error/type-error.cc:37-55 | a type error with no types but with details renders as the header, a space and the details |
| Errors.InternalErrorText | src/templimiter/error/internal-error.cc:37-47 | an internal error renders as its details; without details it falls back to the argument-error wording |
| Text.Split | src/templimiter/tools/string.cc:39-71 | the corrected tokenizer, the intended half of the first Finding: never yields an empty chunk; the chunks concatenate to the input's kept characters (escapes resolved, unescaped delimiters dropped); input that begins or ends with a non-delimiter yields a chunk |
| Text.SplitAsWrittenConcat | src/templimiter/tools/string.cc:39-71 | the tokenizer as written loses and invents no character: its chunks concatenate to the kept characters too |
| Text.SplitAsWrittenNoEmpty | src/templimiter/tools/string.cc:49-69 | the tokenizer as written never pushes an empty chunk |
| Text.SplitPlainText | src/templimiter/tools/string.cc:39-71 | on text without backslashes no chunk contains the delimiter or a backslash, and the chunks concatenate to the text with the delimiters removed |
| Text.SplitAsWritten | src/templimiter/tools/string.cc:39-71 | the source's tokenizer never yields an empty chunk, and its chunks concatenate to the input's kept characters |
| Text.PatternSegmentsDiffer | src/templimiter/tools/string.cc:39-71 | on `a*\x*b` the source's tokenizer gives `a`, `xb` and the corrected one gives `a`, `x`, `b` |
| Text.SplitAsWrittenAgrees | src/templimiter/tools/string.cc:39-71 | on text without backslashes the tokenizer as written and the corrected one agree |
| Text.EscapedDelimiterIsKept | src/templimiter/tools/string.cc:44-48 | an escaped delimiter is a chunk of its own, not a separator |
| Text.LoneBackslashIsKept | src/templimiter/tools/string.cc:44-48 | a backslash with nothing after it is kept as a character |
| Text.TrailingDelimiterIgnored | src/templimiter/tools/string.cc:49-58 | on backslash-free text, a trailing delimiter changes nothing |
| Text.LeadingDelimiterSkipped | src/templimiter/tools/string.cc:49-58 | a leading delimiter changes nothing |
| Text.SplitJoinRoundTrip | src/templimiter/tools/string.cc:39-71 | splitting the escaped join of non-empty tokens gives back exactly those tokens |
| Text.SplitAsWrittenMergesTokens | src/templimiter/tools/string.cc:44-65 | as written, the escaped join of ["a", " ", "c"] splits into ["a", " c"]; the corrected split returns the three tokens |
| Text.Find | src/templimiter/tools/string.cc:92-95 | `std::string::find`: the first occurrence at or after the start position, or none when there is none |
| Text.StarFreeIsExact | src/templimiter/tools/string.cc:74-76 | a pattern without an asterisk matches exactly itself |
| Text.MatchesPattern | src/templimiter/tools/string.cc:73-105 | a pattern without an asterisk matches only itself; a matched test contains every literal segment of the pattern |
| Text.InfixPatternIff | src/templimiter/tools/string.cc:78-103 | for plain non-empty `p` and `q`, `p*q` matches exactly the tests that start with `p`, end with `q` without overlapping it, and hold no earlier occurrence of `q` |
| Text.PrefixPatternIff | src/templimiter/tools/string.cc:78-103 | `p*` matches exactly the strings that start with `p` |
| Text.StarMatchesAll | src/templimiter/tools/string.cc:78-103 | `*` matches every string |
| Text.SystemdExamples | src/templimiter/tools/string.cc:73-105 | `systemd*` matches `systemd` and `systemd-journal` but not `mysystemd` |
| Text.FirstOccurrenceAnchoring | src/templimiter/tools/string.cc:97-102 | `b*a` does not match `baa` and `*a` does not match `aa`: the trailing anchor uses the first occurrence |
| Vectors.Subvect | src/templimiter/tools/vector.h:52-91 | succeeds exactly for a non-negative start and count that stay on the vector (any start when the count is 0); the result is the selected slice; failures are argument errors |
| Vectors.SubvectSplits | src/templimiter/tools/vector.h:52-91 | the slices before and after a cut concatenate to the vector |
| Vectors.SubvectOffEnd | src/templimiter/tools/vector.h:76-80 | a start at the end of the vector fails |
| Vectors.Map | src/templimiter/tools/vector.h:105-111 | same length, each element transformed |
| Vectors.Filter | src/templimiter/tools/vector.h:125-134 | keeps exactly the elements the rule accepts, never grows |
| Vectors.FilterAppend | src/templimiter/tools/vector.h:125-134 | filtering distributes over concatenation, so order is kept |
| Vectors.FilterAll | src/templimiter/tools/vector.h:125-134 | a rule that accepts everything keeps the vector unchanged |
| Vectors.Contains | src/templimiter/tools/vector.h:145-151 | true exactly when the value is an element |
| Vectors.Fill | src/templimiter/tools/vector.h:161-168 | n copies of the value |
| Vectors.RankAllPreserves | src/templimiter/tools/vector.h:183-193 | the outer loop keeps the buffer in rank order, accounts for every value as kept or shed, and sheds none that beats a kept one |
| Vectors.TopN | src/templimiter/tools/vector.h:179-234 | the buffer keeps n values in rank order, and kept plus shed values are the input plus the padding |
| Vectors.TopNIsBest | src/templimiter/tools/vector.h:179-234 | the selection has n values in rank order; kept and shed values are together a permutation of the input plus the padding; no shed value beats a kept one |
| Vectors.MaxN | src/templimiter/tools/vector.h:179-201 | n values in descending order |
| Vectors.MinN | src/templimiter/tools/vector.h:212-234 | n values in ascending order |
| Vectors.ExtremesBoundInput | src/templimiter/tools/vector.h:179-234 | every positive input value is at most the first of the maxima; every input value below ULONG_MAX is at least the first of the minima |
| Vectors.LadderTopTwo | src/templimiter/tools/vector.h:179-201 | the two largest steps of an 800..2000 ladder are 2000 and 1600 |
| Vectors.LadderBottomTwo | src/templimiter/tools/vector.h:212-234 | the two smallest steps of an 800..2000 ladder are 800 and 1200 |
| Vectors.ShiftAsWrittenMoves | src/templimiter/tools/vector.h:186-188 | the shifting loop as written moves each element after the insertion point down one place, and writes out of bounds exactly when it starts at the end |
| Vectors.OfferAsWrittenOverruns | src/templimiter/tools/vector.h:184-190 | the buffer as written ends up equal to the corrected insertion's, and the write past the end happens exactly when the offered value beats a value still to be compared |
| Vectors.MaxNAsWrittenExample | src/templimiter/tools/vector.h:181-190 | offering 1200 to two zero slots writes slot 2 of a two-slot buffer |
| Vectors.Join | src/templimiter/tools/vector.cc:45-52 | the result starts with the first element |
| Vectors.JoinSnoc | src/templimiter/tools/vector.cc:45-52 | joining one more element appends the separator and that element |
| Vectors.SplitInvertsJoin | src/templimiter/tools/vector.cc:45-52 | splitting a join of non-empty, delimiter-free tokens on the same single character gives the tokens back |
| Vectors.PatternVectContains | src/templimiter/tools/vector.cc:37-43 | true exactly when some pattern matches the value |
| Convert.ConvertInt | src/templimiter/tools/type-convert.h:148-168 | a result is in the target type's range; a failure is a type error naming the target type |
| Convert.IntRoundTrip | src/templimiter/tools/type-convert.h:148-168 | every in-range value converts back from its printed form |
| Convert.ConvertIsExact | src/templimiter/tools/type-convert.h:148-168 | text converts only if it is exactly the printed form of the result (no sign, blank or leading zero) |
| Convert.OutOfRangeRejected | src/templimiter/tools/type-convert.h:148-168 | the printed form of an out-of-range value does not convert |
| Convert.PrintingInjective | src/templimiter/tools/type-convert.h:47-54 | different integers print differently |
| Convert.ThresholdConverts | src/templimiter/tools/type-convert.h:148-168 | "66000" converts to 66000 as an unsigned long |
| Convert.LeadingZeroRejected | src/templimiter/tools/type-convert.h:148-168 | "066000" does not convert |
| Convert.NegativeConverts | src/templimiter/tools/type-convert.h:148-168 | "-21" converts to -21 as an int |
| Convert.NegativeUnsignedRejected | src/templimiter/tools/type-convert.h:148-168 | "-1" does not convert to an unsigned long |
| Convert.BoolToString | src/templimiter/tools/type-convert.h:78-83 | booleans print as "true" or "false" |
| Convert.ConvertBool | src/templimiter/tools/type-convert.h:210-223 | a failure is a type error naming bool |
| Convert.BoolRoundTrip | src/templimiter/tools/type-convert.h:210-223 | printing then converting a boolean is the identity, and only the printed words convert |
| Convert.ConvertChar | src/templimiter/tools/type-convert.h:148-168 | a failure is a type error naming char |
| Convert.CharRoundTrip | src/templimiter/tools/type-convert.h:148-168 | a non-blank character converts from itself, and only one-character text converts |
| Convert.ConvertAll | src/templimiter/tools/type-convert.h:331-341 | succeeds exactly when every element converts; then each element is its conversion, in order |
| Convert.ConvertAllRoundTrip | src/templimiter/tools/type-convert.h:331-341 | printing in-range values and converting the list back is the identity |
| Convert.ConvertEach | src/templimiter/tools/type-convert.h:331-341 | element-wise conversion; a failure is the first failing element's error |
| Files.LinesAppend | src/templimiter/io/file.h:155-170 | appending a newline-terminated line to terminated text adds exactly that line to what `getline` yields |
| Files.Open | src/templimiter/io/file.h:79-95 | a handle exists exactly for absolute paths that do not end in a slash, and records existence; otherwise an argument error on `file_path` |
| Files.Read | src/templimiter/io/file.h:118-130 | fails exactly for a missing or unreadable path, with the source's two I/O errors |
| Files.ReadValues | src/templimiter/io/file.h:155-170 | a read converts every line, and a read failure propagates |
| Files.MkdirFrom | src/templimiter/io/operations.cc:83-94 | on success every prefix directory exists and no file changes; a failure is an I/O error on one prefix |
| Files.MkdirDeep | src/templimiter/io/operations.cc:83-94 | on success every prefix of the path's components exists and no file changed; a failure is the `mkdir` error of a prefix that cannot be created |
| Files.ParentOf | src/templimiter/io/operations.cc:96-99 | for a backslash-free path, the parent's components are the path's components without the last |
| Files.MkdirDeepCreatesAll | src/templimiter/io/operations.cc:83-94 | creating a path of plain components makes it and all its ancestors exist, leaving files alone |
| Files.EnsureDeepParent | src/templimiter/io/operations.cc:96-103 | an existing parent leaves the file system as it was; otherwise directories are only added and no file changes; a failure is a `mkdir` I/O error |
| Files.OpenWrite | src/templimiter/io/file.h:138-152 | on success the path is writable and is not a directory |
| Files.Overwrite | src/templimiter/io/file.h:311-320 | the file becomes the one terminated line; every other file is unchanged |
| Files.Append | src/templimiter/io/file.h:239-248 | the file holds its earlier contents (none if it was missing) followed by the line; every other file is unchanged |
| Files.ReadAfterOverwrite | src/templimiter/io/file.h:311-320 | reading after an overwrite gives exactly the written line |
| Files.ReadAfterAppend | src/templimiter/io/file.h:239-248 | reading after an append gives the earlier lines plus the new one |
| Files.ValueRoundTrip | src/templimiter/io/file.h:311-320 | a written frequency reads back as the same value |
| Files.Basename | src/templimiter/io/operations.cc:105-121 | the last slash-separated component, or the start-index argument error when there is none |
| Files.BasenameIgnoresMark | src/templimiter/io/operations.cc:105-121 | the slash glob appends to a directory does not change its basename |
| Files.Ls | src/templimiter/io/operations.cc:105-121 | the matched paths as they are, or each one's basename, in glob's order |
| Files.OpenAll | src/templimiter/io/file-collection.h:75-85 | one handle per path, in order, exactly when every path is valid |
| Files.FromPaths | src/templimiter/io/file-collection.h:75-85 | an empty path list is the source's argument error; otherwise one file per path |
| Files.FromPattern | src/templimiter/io/file-collection.h:95-107 | a pattern that matches nothing is the source's argument error; otherwise one file per match |
| Files.ReadAll | src/templimiter/io/file-collection.h:57-65 | succeeds exactly when every file reads |
| Files.ReadAllAppend | src/templimiter/io/file-collection.h:57-65 | a collection read concatenates the single-file reads, file after file |
| Files.ReadAllValues | src/templimiter/io/file-collection.h:120-123 | every file's values are read, all in the type's range |
| Files.MaxLine | src/templimiter/io/file-collection.h:190-199 | the result is one of the values read, and no value is larger |
| Files.OverwriteEachWrites | src/templimiter/io/file-collection.h:159-163 | after overwriting a collection every file holds exactly the line |
| Files.OverwriteEachKeeps | src/templimiter/io/file-collection.h:159-163 | a file the collection does not name keeps its contents, and so does a named one that already held the line |
| Files.OverwriteAt | src/templimiter/io/file-collection.h:173-181 | an index past the end is an argument error; otherwise the indexed file is overwritten |
| Files.AppendAt | src/templimiter/io/file-collection.h:144-152 | an index past the end is an argument error; otherwise the line is appended to the indexed file |
| Config.ValueTokens | src/templimiter/daemon/config.h:293-297 | the tag followed by the value tokens is the whole split line |
| Config.IndicesOfTag | src/templimiter/daemon/config.cc:171-182 | exactly the lines whose first token is the tag, in increasing order |
| Config.IndicesCases | src/templimiter/daemon/config.cc:171-182 | no index iff no line has the tag; several iff two lines have it; a single line gives exactly its index |
| Config.LoadScalar | src/templimiter/daemon/config.h:277-324 | a tag no line configures yields the default; a tag two lines configure is a duplicate error |
| Config.LoadScalarCases | src/templimiter/daemon/config.h:277-324 | default when absent or valueless; duplicate error for a repeated tag; error for several values; otherwise the conversion, a type error becoming a configuration error that names tag and value |
| Config.LoadVector | src/templimiter/daemon/config.h:339-379 | a tag no line configures yields the default; a tag two lines configure is a duplicate error |
| Config.LoadVectorCases | src/templimiter/daemon/config.h:339-379 | default when absent or valueless; duplicate error for a repeated tag; otherwise every token converted in order, a type error becoming a configuration error that shows all the tokens |
| Config.LoadValues | src/templimiter/daemon/config.cc:184-229 | the daemon's own pid is the last whitelisted pid, and every whitelisted name is parenthesised |
| Config.EmptyConfigGivesDefaults | src/templimiter/daemon/config.h:75-126 | an empty file yields every hard-coded default, the own pid alone in the pid whitelist, the default names parenthesised |
| Config.SetUpMinMax | src/templimiter/daemon/config.cc:112-140 | on success there is one cpuinfo max and one min per core, all unsigned longs |
| Config.SetUpLadder | src/templimiter/daemon/config.cc:275-294 | on success there is one ladder per core, at least one core, all steps unsigned longs |
| Config.SetUpScaling | src/templimiter/daemon/config.cc:254-309 | ladder scaling stays on only if requested and found; an unmatched ladder pattern quietly turns it off; the chosen tables have one entry per core |
| Config.SetUpThrottle | src/templimiter/daemon/config.cc:239-316 | off: thresholds forced to ULONG_MAX and 0; a throttle temperature below the dethrottle one is refused; on success the core count is the number of ceilings read; the throttle temperature is never below the dethrottle one |
| Config.SetUpSigstop | src/templimiter/daemon/config.cc:318-333 | off: thresholds forced to ULONG_MAX and 0; a SIGSTOP temperature below the SIGCONT one is refused; otherwise succeeds exactly when /proc/stat reads with a line |
| Config.Validate | src/templimiter/daemon/config.cc:231-334 | both modes off is refused; loaded values are kept except the forced thresholds and the ladder switch; both threshold orders hold; the optional files exist exactly in their mode; the per-core tables match the core count |
| Config.ThresholdOrder | src/templimiter/daemon/config.cc:231-334 | with both modes on, a throttle order error is reported first, then a SIGSTOP order error |
| Config.ConfigLines | src/templimiter/daemon/config.cc:156-162 | a missing configuration file is the "Cannot find config file." error; otherwise its lines |
| Config.LadderRow | src/templimiter/daemon/config.cc:282-286 | a ladder line converts exactly when every token is an unsigned long, and each value prints back as its token |
| Config.OwnPid | src/templimiter/daemon/config.cc:164-169 | the own pid is the int whose printed form is the first token of /proc/self/stat; a read failure propagates |
| Config.LoadFrom | src/templimiter/daemon/config.cc:342-344 | a loaded configuration whitelists the given pid last and has a mode on |
| Config.Load | src/templimiter/daemon/config.cc:336-345 | a loaded configuration read its file and own pid, whitelists that pid last and has a mode on |
| Config.SigstopGuard | src/templimiter/daemon/config.cc:45-56 | passes exactly in SIGSTOP mode; otherwise an internal error naming the value |
| Config.ThrottleGuard | src/templimiter/daemon/config.cc:58-63 | passes exactly in throttle mode; otherwise an internal error naming the value |
| Config.AccessorsDisjoint | src/templimiter/daemon/config.cc:347-443 | no accessor is gated by both modes |
| Config.Access | src/templimiter/daemon/config.cc:347-443 | an accessor call succeeds exactly when the mode it is gated by is on, and fails with that mode's message |
| Process.Fresh | src/templimiter/daemon/pid.h:60-74 | a new record has every flag off |
| Process.ParseStat | src/templimiter/daemon/pid.cc:59-72 | each field is the exact conversion of its stat token (comm, state, ids, times, nice); times are non-negative; a failure is a type error |
| Process.ReadStat | src/templimiter/daemon/pid.cc:51-81 | an unreadable stat marks the record gone and keeps it otherwise; a longer file is an internal error; a live record holds its parsed fields; nothing else changes |
| Process.WhitelistOf | src/templimiter/daemon/config.cc:384-387 | the whitelist is available exactly in SIGSTOP mode, otherwise the max-nice accessor's error |
| Process.CheckWhitelist | src/templimiter/daemon/pid.cc:83-96 | whitelisted iff niceness is below the bound or any one pid, state, id, flags or comm-pattern criterion matches |
| Process.NiceBoundIsStrict | src/templimiter/daemon/pid.cc:86 | niceness equal to the bound does not whitelist |
| Process.New | src/templimiter/daemon/pid.cc:98-106 | a new record has its pid and its whitelist verdict, and is neither sampled, ready nor stopped |
| Process.Sample | src/templimiter/daemon/pid.cc:113-132 | whitelisted: samples dropped, readiness kept; first sample: baselines only; later samples: when the CPU time moved, the usage is a ratio that times the CPU-time difference gives the process-time difference; when it did not, the usage is infinity, or NaN if the process time did not move either; the record is ready |
| Process.Update | src/templimiter/daemon/pid.cc:110-133 | succeeds exactly when the stat re-read does, then samples |
| Process.ReadyIsSticky | src/templimiter/daemon/pid.cc:110-133 | a ready record stays ready |
| Process.ReadyAfterTwoUpdates | src/templimiter/daemon/pid.cc:110-133 | not ready after construction nor after one update; ready after two non-whitelisted updates |
| Process.CpuPct | src/templimiter/daemon/pid.cc:44-49 | the usage is readable exactly when the record is ready, otherwise the internal error |
| Process.SendStop | src/templimiter/daemon/pid.cc:159-162 | the record is marked self-stopped |
| Process.SendCont | src/templimiter/daemon/pid.cc:164-167 | the mark is cleared |
| Process.StopContInverse | src/templimiter/daemon/pid.cc:159-167 | stopping and resuming undo each other and change nothing else |
| Monitor.Start | src/templimiter/daemon/monitor.cc:409-415 | starts exactly in throttle mode, with an empty table and the current ceilings expected; otherwise the throttle accessor's error |
| Monitor.ValidatedIsConsistent | src/templimiter/daemon/config.cc:231-334 | every configuration validation accepts has per-core tables of the core's length and a /proc/stat file when needed |
| Monitor.NextLower | src/templimiter/daemon/monitor.cc:258-263 | the largest ladder step strictly below the speed, or 0 when there is none |
| Monitor.NextHigher | src/templimiter/daemon/monitor.cc:236-241 | the smallest ladder step strictly above the speed, or ULONG_MAX when there is none |
| Monitor.LadderStepsInvert | src/templimiter/daemon/monitor.cc:225-268 | a step down then up returns a core to its step; down again lands on the same lower step |
| Monitor.BelowMax | src/templimiter/daemon/monitor.cc:97-125 | a size mismatch is the internal error; otherwise true iff some core's ceiling is below its high mark |
| Monitor.AboveMin | src/templimiter/daemon/monitor.cc:127-155 | a size mismatch is the internal error; otherwise true iff some core's ceiling is above its low mark |
| Monitor.LadderEndsHaveNoRoom | src/templimiter/daemon/monitor.cc:97-155 | every core at the top of its ladder gives no room to dethrottle; every core at the bottom gives no room to throttle |
| Monitor.WalkFrom | src/templimiter/daemon/monitor.cc:225-296 | the walk raises the flag iff some ceiling is not the expected one; writes each target before the first mismatch, in core order, and expects it from then on; nothing after the mismatch changes |
| Monitor.Retarget | src/templimiter/daemon/monitor.cc:298-348 | while flagged: nothing written, and the ceilings are re-read once the cooldown is reached; with no room: nothing; otherwise the walk's writes, flag and expectations |
| Monitor.LadderWritesAreSingleSteps | src/templimiter/daemon/monitor.cc:225-268 | on a ladder every throttle write is the next lower step and every dethrottle write the next higher one |
| Monitor.MaxElement | src/templimiter/daemon/monitor.cc:174-179 | the chosen index is in range, and the comparator prefers no later element over it |
| Monitor.MinElement | src/templimiter/daemon/monitor.cc:159-164 | the chosen index is in range, and the comparator prefers no later element over it |
| Monitor.StepwiseChoicesAgree | src/templimiter/daemon/monitor.cc:157-186 | `max_element` with a greater-than comparator and `min_element` with less-than always choose the same entry; without NaN it is the first least value |
| Monitor.LeadingNaNIsChosen | src/templimiter/daemon/monitor.cc:157-186 | a NaN usage in first place is chosen by both stepwise choices, whatever follows, because every float comparison with NaN is false |
| Monitor.Candidates | src/templimiter/daemon/monitor.cc:85-95 | exactly the live, ready, unlisted, unstopped records |
| Monitor.CpuTime | src/templimiter/daemon/monitor.cc:47-53 | succeeds iff the first line has four tick counts after the label, and the result is their sum |
| Monitor.UpdateAll | src/templimiter/daemon/monitor.cc:55-59 | every record is updated against the same sample, in order, and the whole succeeds iff each does |
| Monitor.UpdateAllKeepsPids | src/templimiter/daemon/monitor.cc:55-59 | updating keeps every record's pid |
| Monitor.AddNew | src/templimiter/daemon/monitor.cc:74-82 | the table only grows, keeping its existing records in place at the front |
| Monitor.AddNewTracksListed | src/templimiter/daemon/monitor.cc:74-82 | every listed pid ends up tracked |
| Monitor.AddNewAddsListed | src/templimiter/daemon/monitor.cc:74-82 | every added record is a listed pid and is not stopped |
| Monitor.AddNewKeepsUnique | src/templimiter/daemon/monitor.cc:74-82 | adding never tracks a pid twice |
| Monitor.Updated | src/templimiter/daemon/monitor.cc:55-59 | an empty table stays empty without reading /proc/stat; otherwise every record is updated against the one CPU-time sample, keeping the pids |
| Monitor.Refresh | src/templimiter/daemon/monitor.cc:55-83 | the ceiling state is untouched and the stopped list only shrinks (what is kept and added: Monitor.RefreshTracks) |
| Monitor.RefreshTracks | src/templimiter/daemon/monitor.cc:55-83 | every updated record of a running process stays; any other record is a fresh, unstopped record of a pid /proc lists, so a gone and unlisted process is dropped; every all-digit /proc entry is tracked; a stopped pid is kept exactly when its updated record still runs and is self-stopped |
| Monitor.RefreshInvariant | src/templimiter/daemon/monitor.cc:55-83 | after a refresh no pid is tracked twice, and every stopped pid kept names a live, self-stopped record |
| Monitor.Compared | src/templimiter/daemon/monitor.cc:172-178 | the comparator reads every usage, which needs every record ready, unless there is a single record |
| Monitor.Mark | src/templimiter/daemon/pid.cc:159-167 | the named records get the stop mark set or cleared; the others are unchanged |
| Monitor.StopChosen | src/templimiter/daemon/monitor.cc:172-186 | one candidate is stopped and appended to the stopped list; the ceiling state is untouched |
| Monitor.StopEvery | src/templimiter/daemon/monitor.cc:194-200 | every candidate is stopped and appended, in table order |
| Monitor.StopAmong | src/templimiter/daemon/monitor.cc:213-223 | stops only candidates: at most one when stepwise, all otherwise, none iff there are none; appended in order |
| Monitor.ExecStop | src/templimiter/daemon/monitor.cc:213-223 | refreshes, then stops among the refreshed candidates |
| Monitor.ContAmong | src/templimiter/daemon/monitor.cc:157-192 | resumes only stopped pids: at most one when stepwise, all in stopping order otherwise |
| Monitor.ExecCont | src/templimiter/daemon/monitor.cc:202-211 | nothing when nothing is stopped; otherwise refresh, then resume by the stepwise SIGSTOP setting |
| Monitor.StepwiseStopPicksLeast | src/templimiter/daemon/monitor.cc:172-186 | when no candidate's usage is NaN, the stepwise stop targets the first least-consuming candidate |
| Monitor.StepwiseContPicksLeast | src/templimiter/daemon/monitor.cc:157-170 | when no stopped process's usage is NaN, the stepwise resume targets the first least-consuming one |
| Monitor.CombinedHot | src/templimiter/daemon/monitor.cc:358-364 | a hot iteration resumes nothing; while cooling down it writes nothing and keeps the flag, count and expectations |
| Monitor.CombinedCold | src/templimiter/daemon/monitor.cc:365-373 | a cold iteration stops nothing; while cooling down it writes nothing |
| Monitor.CombinedStep | src/templimiter/daemon/monitor.cc:354-377 | hot excludes resumes, not hot excludes stops, between the thresholds nothing happens, and the cooldown holds writes off |
| Monitor.ThrottleStep | src/templimiter/daemon/monitor.cc:378-390 | throttle mode alone only writes ceilings, leaves the process table alone, and does nothing between the thresholds or while cooling down |
| Monitor.SigstopStep | src/templimiter/daemon/monitor.cc:391-401 | SIGSTOP mode alone writes no ceiling; above SIGSTOP only stops, at or below only resumes, between the thresholds nothing |
| Monitor.Step | src/templimiter/daemon/monitor.cc:350-407 | no mode is the internal error; each mode's effects are its own kind; hot excludes resumes and not hot excludes stops; between the thresholds only the cooldown ticks; an unexpected ceiling holds writes off and counts the iteration |
| Cli.StrnEqMeaning | src/main.cc:59-82 | `strncmp(a, b, n) == 0` is equality when n passes the literal's end, and a shared n-character prefix otherwise |
| Cli.Dispatch | src/main.cc:52-82 | help, version and debug need the exact flag; `-w` or anything starting with `--which` prints the path; more than one argument warns |
| Cli.FirstArgumentDecides | src/main.cc:52-82 | only the first argument decides the action |
| Cli.Launch | src/main.cc:84-91 | the daemon starts only with a loaded configuration in throttle mode; a configuration error propagates; a loaded SIGSTOP-only configuration is an internal error |
| Cli.Exit | src/main.cc:58-134 | 0 for help, version and the path; 1 exactly when starting fails; otherwise the daemon runs |
| Cli.SigstopOnlyExitsWithError | src/main.cc:84-94 | a valid SIGSTOP-only configuration exits with status 1 |

## Left out

- Logging, the help, version and path printers, and the sleep between iterations have no logical content: they are output and time.
- `kill`, the ceiling writes during a step and every read of the machine are effects or inputs. The signals and ceiling writes are `Monitor.Effect`s. The thermal maximum, the ceilings and /proc come in through a `Monitor.Snapshot`.
- `glob` is a parameter. `Config.Env.glob` gives the paths each pattern matches, and `Snapshot.procEntries` lists `/proc`.
- Monitor.Refresh: the source reads /proc/stat once for every tracked record. The model reads one snapshot per iteration, so every read sees the same sample.
- Monitor.Step: a failed ceiling write or ceiling read inside an iteration is not modelled. Those are write and read errors of `Files`, and are modelled there.
- Monitor.CpuTime: sums the four tick counts exactly. The source accumulates them in an `int`, because the literal `0` sets the accumulator type, and that truncates large sums.
- Process.Sample: a finite usage is an exact real ratio. The source subtracts `u_long` times, which can wrap, and divides `float`s, which round. A CPU-time sample equal to the previous one, which a `min_sleep` of 0 makes possible, is modelled: the division gives infinity or NaN, and `Monitor.Greater` compares those as floats do.
- Monitor.Retarget: the cooldown count is a `nat`. The source's `u_short` counter wraps after 65535 increments while the loop waits between thresholds.
- Monitor.BelowMax: the midpoint of two frequencies is computed without the `u_long` wrap of their sum, which the source would hit only for frequencies near ULONG_MAX.
- Convert.ConvertInt: the type error names the type in readable form. The source uses `typeid(T).name()`, whose text the compiler chooses.
- The `precision` overloads of `convert`, `to_string`, `read`, `append` and `overwrite` are not modelled. Precision only matters for floating point, which the core never converts. The vector `append` and the float `to_string` are left out for the same reason.
- Vectors.Join: requires a non-empty vector. The source's loop bound `size() - 1` underflows on an empty one, and its `back()` is undefined.
- Text.MatchesPattern: cuts the pattern with `Text.Split`, not the source's tokenizer. The two agree on patterns without backslashes (`Text.SplitAsWrittenAgrees`). A pattern with an escape before an asterisk can be cut differently (`Text.PatternSegmentsDiffer`).
- Vectors.PatternVectContains: inherits the tokenizer substitution of `Text.MatchesPattern`. It is exact for patterns without backslashes.
- Process.CheckWhitelist: matches `comm` patterns through `Text.MatchesPattern`. It is exact for whitelist patterns without backslashes.
- Config.FirstToken: cuts a configuration line with `Text.Split`. It is exact for lines without backslashes.
- Config.ValueTokens: cuts a configuration line with `Text.Split`. It is exact for lines without backslashes.
- Process.ReadStat: cuts a stat line with `Text.Split`. It is exact when the line, including its `comm` field, holds no backslash.
- Files.MkdirDeep: cuts the path with `Text.Split`. It is exact for paths without backslashes.
- Files.ParentOf: cuts the path with `Text.Split`. It is exact for paths without backslashes.
- Files.Basename: cuts the path with `Text.Split`. It is exact for paths without backslashes, and so is Files.Ls, which uses it.
- Config.LadderRow: cuts with `Text.Split`. The kernel's frequency lists hold only digits and spaces, and there the two tokenizers agree. Config.OwnPid and Monitor.CpuTime read digit-only kernel lines in the same way.
- Files.EnsureDeepParent: requires a path of at least two components (`Files.HasParent`). For a single-component path such as `/f` the source joins an empty vector, which is undefined (see Vectors.Join). Files.OpenWrite, Files.Overwrite, Files.Append and the collection writers carry the same requires.
- Convert.ConvertChar: reads a string as Unicode code points, where the source's `std::string` holds bytes. A one-code-point non-ASCII value such as `é` converts here, while the source extracts its first byte and rejects the text.
- Files.MaxLine: requires that some file holds a line. The source dereferences the maximum of an empty list.
- Config.Load: requires a first token on every configuration line and on the first line of /proc/self/stat. The source indexes the split line unchecked. Process.ReadStat requires the same of a stat line that reads, which must also have 19 tokens.
- Process.ParseStat: when a conversion fails, the source has already assigned the earlier fields. The model returns the error, which ends the daemon either way.
- The `Logger` that `main` constructs between the configuration and the monitor is not modelled. `logger.cc` is not part of this model, so a failure to open the log file is not among `Cli.Exit`'s causes of status 1.
- Cli.Exit: only the library's own errors exist in the model. The catch blocks for `std::runtime_error`, C strings and unknown exceptions all return 1 as well.
- The monitor's infinite loop is one `Monitor.Step`. The loop is that step repeated, and no property across many iterations is stated.

## Findings

| source | as written | input that shows it | evidently intended | confidence | as-written member | corrected member |
|---|---|---|---|---|---|---|
| src/templimiter/tools/string.cc:39-71 | an escaped character goes into the pending chunk without clearing `waiting_next`, so when it follows a pushed chunk the next delimiter is ignored | the tokens `a`, ` `, `c`, joined with the space escaped: `a \  c` split on `' '` gives `["a", " c"]` | an escaped character is collected like any other, ending the wait, so splitting gives back `["a", " ", "c"]` | not executed | Text.SplitAsWrittenMergesTokens | Text.SplitJoinRoundTrip |
| src/templimiter/tools/vector.h:179-234 | the shifting loop starts at `shift = n_elements`, so its first write is `results[n_elements]`, one past the end of the buffer | `max_n_elements({1200}, 2)`: 1200 beats `results[0] == 0`, and the loop writes `results[2]` of a two-element vector | shift from `n_elements - 1` down to `i + 1`, inside the buffer | not executed | Vectors.OfferAsWrittenOverruns | Vectors.TopNIsBest |
