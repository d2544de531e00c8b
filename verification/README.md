# Verified models of Clarvis

Models of the stateful and algorithmic parts of Clarvis, with proofs. `dafny verify dfyconfig.toml`
checks everything. Code that changes state step by step is modelled by classes and methods with the
same fields and loops, each proved against a specification by values; the lemmas are about those
specifications and about whole runs of them.

- **Package graph** (`Graphs`, `TarjanInvariants`, `Components`, `Closures`, `ExportTargets`). Tarjan's
  algorithm with its mutable stack, indices and low links reports exactly the classes of mutually
  reachable nodes that hold a cycle. The two breadth-first closures, and the two recursions over
  export targets.
- **Compute clock** (`ComputeClock`, `ClockRuns`). Five counters and one timer against the sets they count: unreleased
  pauses, claims on compute regions, live background regions and their pauses. `Clock.Valid` is kept
  by every operation, so it holds in every reachable state; `Clock.Play` says so of every sequence of
  calls, and `ClockRuns` tells the state and the budget left from the list of calls alone. One loop is raced at most once, as in the source.
- **Hook commands** (`HookCommand`, `HookHistory`). The callbacks of one spawned command as a state machine.
  A run is any sequence of events; an event whose timer or listener is gone is no event. `HookHistory`
  tells the outcome from the list of events alone.
- **Versions and updates** (`VersionText`, `Precedence`, `Versions`, `Updates`). Both comparators against
  one order, that of section 11 of Semantic Versioning 2.0.0, and the choice of an update.
- **Admission** (`Pools`, `Admission`). The semaphore and the background-hook queue both refine one
  first-in first-out pool that records its whole history. The extension admission controller is
  proved against the multiset of calls in flight.
- **Limits by key** (`Recency`, `Limiters`, `Sampler`). The bounded recency-ordered map is characterised by
  the history of touches, and the rate limiters and the sampler by that history. The limiter and
  the task reporter have one specification, `Admits`: with the same window and 1,024 keys they
  decide alike (`DriveBoth`).
- **Hook verdicts and globs** (`HookOutcome`, `HookRuns`, `Gate`, `Glob`). From the events and output of a
  command, or the result of an MCP tool, to the gate's verdict, and the compiler from globs to regular
  expressions with the language of what it writes.
- **Test scripts** (`TestHarness`). The expansion of a script over a possibly cyclic call graph.

`Common`, `Sorting` and `Selections` hold shared definitions; the sort is stable and proved against a comparator that
is a total preorder.

## Where the code falls short of its promise

- The clock clamps its timer to 2^31-1 milliseconds, so a longer timeout fires early (`EarlyFire`);
  up to that length, which the environment schema in `packages/capability/src/env.ts:59` imposes on
  the ceiling, it is exact (`Fire`, `DueIffSpent`).
- A `resume` without a `pause` of its own takes away a pause that a `pauseCompute` handle holds, and
  releasing the handle then makes the depth negative. `NeverNegativeIff` says exactly when.
- The sampler's test works on 32 bits: `FirstWrongAdmission` and `SampledBeyondWord`.
- The updater compares numbers, not digits. The conversion is a parameter that is exact below 2^53
  and weakly monotone above, as rounding is; the two comparators agree on all releases exactly when
  it confuses no two numbers (`AgreeIffNoCollision`), and always below 2^53 (`SafeComparatorsAgree`). Every
  conversion to a bounded range confuses some (`BoundedReadingDisagrees`); `RoundedReleasesDisagree` names
  two releases.
- The comment on the glob compiler says that `*` matches any run of characters. The expression it
  writes uses `.`, which stops at line terminators; `StarsMeanAnythingIff` gives the exact condition.
- Exit code 2 at a gate is documented as a block that denies whatever the failure policy says
  (`packages/capability/src/hooks-config.ts:373-376`). A command that timed out or was cancelled is judged
  by that first, so its exit 2 is a failure that the default policy passes: `LateExitTwoPasses` and
  `TrappedDeadlinePasses` give the input, `ExitTwoDeniesIff` and `RunBlockingDeniesIff` the exact condition.
- A hook body that has a `kind` is judged by its kind alone, so a block in the other dialect beside it is
  dropped: `KindHidesBlock` gives the input, `PrintedBlockDeniesIff` the exact condition.
- A command in the background is not waited for, at a gate either, and its block is lost
  (`BackgroundBlockPasses`).
- A release that answers no grant lowers the count of slots in use below grants less releases
  (`ReleaseKeepsFair`); the semaphore's documentation forbids it.

## Model

| member | source | states |
|---|---|---|
| Components.StronglyConnectedComponents | tooling/lib/package-graph.ts:297-331 | For every finite graph the method terminates; each reported list is exactly one class of mutually reachable nodes, without repetition, and the lists are disjoint; a node is listed exactly when it is reachable from the given names and lies on a cycle; the result is empty exactly when no reachable node lies on a cycle; each list is sorted, and the lists are in the order of their first names by locale |
| Components.Collect | tooling/lib/package-graph.ts:329 | Visiting the names in turn reports exactly the reachable nodes on cycles, by whole classes |
| Components.Search.Visit | tooling/lib/package-graph.ts:304-328 | A visit keeps the invariant of the working state, terminates because only unvisited nodes are visited, leaves the caller's stack as a prefix, and finishes everything the node reaches or links it to a node still on the stack |
| Components.Search.Enter | tooling/lib/package-graph.ts:305-308 | Numbering a node and putting it on the stack keeps the invariant, with the node under way and nothing explored yet |
| Components.Search.Follow | tooling/lib/package-graph.ts:309-316 | Following one edge, in each of its three cases, keeps the invariant and extends the explored edges by that edge |
| Components.Search.Close | tooling/lib/package-graph.ts:317-327 | When the low link equals the index, popping and reporting restores the caller's stack and keeps the report exact |
| Components.Search.PopThrough | tooling/lib/package-graph.ts:318-324 | The popped list is the top of the stack, from the top down to the node, and the stack keeps the rest |
| Components.Search.Report | tooling/lib/package-graph.ts:325-327 | Reporting or skipping a popped class keeps the report exact for the enlarged set of finished nodes |
| Components.ReportTest | tooling/lib/package-graph.ts:325 | The size-or-self-loop test on a class says whether each of its nodes lies on a cycle |
| Components.PoppedIsAbove | tooling/lib/package-graph.ts:318-324 | Stack depth and visit numbers agree: the popped list is exactly the stack entries numbered at or above the node |
| Components.ReportExact | tooling/lib/package-graph.ts:325-327 | A kept report lists a node exactly when it is finished and lies on a cycle |
| Components.SortKeepsSound | tooling/lib/package-graph.ts:330 | The final sort changes neither the classes nor the listed nodes |
| Components.EmptyReport | tooling/lib/package-graph.ts:330 | No list means no listed node, since classes are never empty |
| TarjanInvariants.PushKeepsInv | tooling/lib/package-graph.ts:305-308 | Entering a node keeps: later stack nodes are reachable from earlier ones, each stack node reaches a node under way at or below it, finished nodes are closed under edges |
| TarjanInvariants.AfterChild | tooling/lib/package-graph.ts:310-312 | Returning from a child, the lowered link is witnessed by a stack node that is reached, and bounds every edge below the node |
| TarjanInvariants.AfterSibling | tooling/lib/package-graph.ts:313-314 | The same for an edge to a node on the stack |
| TarjanInvariants.AfterFinished | tooling/lib/package-graph.ts:309-315 | An edge to a finished node needs no change |
| TarjanInvariants.StayKeepsInv | tooling/lib/package-graph.ts:317 | A node whose low link is below its index can reach a node under way below it, so it may stay on the stack |
| TarjanInvariants.RootIsComponent | tooling/lib/package-graph.ts:317-324 | The stack entries from a root upward are one whole class of mutually reachable nodes: sound and maximal |
| TarjanInvariants.PopKeepsInv | tooling/lib/package-graph.ts:317-324 | Popping a root's entries keeps the invariant and finishes exactly one class |
| TarjanInvariants.AllFinished | tooling/lib/package-graph.ts:329-330 | With no visit under way the stack is empty: every visited node is finished |
| Graphs.OnCycleIff | tooling/lib/package-graph.ts:325 | Lying on a cycle is sharing a class with another node or having a self-loop |
| Closures.ReachableFrom | tooling/lib/package-graph.ts:261-271 | Terminates, and returns sorted, without repetition, exactly the nodes other than the start that the start reaches |
| Closures.DynamicReachableFrom | tooling/lib/package-graph.ts:273-295 | Terminates, and returns exactly the nodes other than the start on some path that crosses a dynamic edge |
| Closures.KeyInjective | tooling/lib/package-graph.ts:275-289 | The text keys of the seen set never confuse two pairs of node and flag, whatever the node names |
| Closures.OfferReached | tooling/lib/package-graph.ts:279-292 | An edge out of a correctly flagged entry leads to a correctly flagged entry |
| Closures.BehindIsComplete | tooling/lib/package-graph.ts:277-293 | Once the queue is empty, every node behind a dynamic edge was seen with its flag set |
| Closures.UnionClosureSplits | tooling/lib/package-graph.ts:602-603 | The closure of all edges together is the eager closure united with the dynamic closure |
| ExportTargets.ResolvesIffSupported | tooling/lib/package-graph.ts:156-200 | The two independent recursions agree on every nested target: one resolves exactly where the other says a runtime import is supported |
| ExportTargets.ResolvesToIff | tooling/lib/package-graph.ts:185-200 | A target resolves to a file exactly when taking always the first alternative, or the earliest of bun, import, require and default, that resolves at all leads there |
| ExportTargets.TypesOnly | tooling/lib/package-graph.ts:153-164 | A condition for types alone supports a type-only import and nothing at run time |
| ExportTargets.TypeOnlySupportsMore | tooling/lib/package-graph.ts:153-164 | What a runtime import may use, a type-only import may use |
| ComputeClock.Clock.constructor | packages/capability/src/compute-clock.ts:84-136 | A new clock accounts for its budget, floored at zero, with its timer running |
| ComputeClock.Clock.StopTimer | packages/capability/src/compute-clock.ts:107-113 | Stopping the timer moves the elapsed time out of the remaining budget and keeps the accounting |
| ComputeClock.Clock.Arm | packages/capability/src/compute-clock.ts:115-128 | Arming keeps the accounting and arms exactly where the clock is not paused |
| ComputeClock.Clock.Sync | packages/capability/src/compute-clock.ts:130-134 | Afterwards, until fired, the timer is armed exactly when the model is not paused |
| ComputeClock.Clock.AddPause | packages/capability/src/compute-clock.ts:170-173 | `pause` adds one to the depth, moves the model by one pause and keeps the counters equal to the sets they stand for |
| ComputeClock.Clock.RemovePause | packages/capability/src/compute-clock.ts:174-178 | `resume` takes one from the depth, and at depth zero does nothing; likewise |
| ComputeClock.Clock.EnterCompute | packages/capability/src/compute-clock.ts:179-182 | `enter` adds one compute region, likewise |
| ComputeClock.Clock.LeaveCompute | packages/capability/src/compute-clock.ts:183-187 | `leave` removes one, and does nothing without one; likewise |
| ComputeClock.Clock.PauseForCompute | packages/capability/src/compute-clock.ts:188-193 | `pauseCompute` adds to the depth and gives a fresh handle, which claims a compute region, in handle and counter, exactly when more are entered than claimed |
| ComputeClock.Clock.ReleaseCompute | packages/capability/src/compute-clock.ts:194-200 | Calling a handle takes it out of the set of unreleased handles; the handle stays known, so it can be called again, and that changes nothing |
| ComputeClock.Clock.BackgroundRegion | packages/capability/src/compute-clock.ts:202-206 | `enterBackground` adds a fresh live region without pauses |
| ComputeClock.Clock.HoldRegion | packages/capability/src/compute-clock.ts:208-213 | A region's `pause` adds a fresh pause to that region while it is live; on a region that was left it gives a release that does nothing |
| ComputeClock.Clock.UnholdRegion | packages/capability/src/compute-clock.ts:214-220 | Its release takes that pause out, once, and does nothing once the region was left; every name stays known |
| ComputeClock.Clock.LeaveBackground | packages/capability/src/compute-clock.ts:222-229 | Leaving removes the region with all its pauses, once; the region stays known |
| ComputeClock.Clock.PokeBudget | packages/capability/src/compute-clock.ts:232-238 | Until the clock stops, afterwards the whole budget is left, whatever was charged; a stopped clock is left alone |
| ComputeClock.Clock.PassTime | packages/capability/src/compute-clock.ts:107-134 | Passing time is taken from what is left exactly when the timer is armed |
| ComputeClock.Clock.Fire | packages/capability/src/compute-clock.ts:118-126 | The callback runs only when the whole budget, or the longest delay if that is less, has been charged; within the cap the whole budget has |
| ComputeClock.Clock.Race | packages/capability/src/compute-clock.ts:139-150 | Only the first race starts, whatever calls lie between; a loop that has settled wins it, otherwise a clock that has fired loses it at once |
| ComputeClock.Clock.LoopSettles | packages/capability/src/compute-clock.ts:151-152 | The loop decides a race under way unless the timeout has, and a race begun later finds it settled |
| ComputeClock.Clock.FinishRace | packages/capability/src/compute-clock.ts:165-168 | A decided race stops the clock for good |
| ComputeClock.Clock.Apply | packages/capability/src/compute-clock.ts:138-239 | Whichever call is made, it moves the model by exactly its own step; a call that cannot be made is none |
| ComputeClock.Clock.Play | packages/capability/src/compute-clock.ts:84-239 | Over every sequence of calls and time steps the clock stays valid, so it accounts for its budget and counts its sets, its model has run exactly the calls that happened, no name is forgotten, only one race begins, and an answer once given stands |
| ComputeClock.RepeatsChangeNothing | packages/capability/src/compute-clock.ts:194-229 | Releasing, taking a hold back and leaving a second time change nothing, and neither does holding a region after it was left |
| ClockRuns.PlayNew | packages/capability/src/compute-clock.ts:84-239 | Over every sequence of calls on a new clock, until it stops it has left its budget less the time that passed, while it was neither paused nor stopped, since the last poke, floored at zero; it has stopped exactly when its timer ran or its race was over |
| ClockRuns.SpentIsTimeRun | packages/capability/src/compute-clock.ts:107-134 | The time charged is the sum of the time steps played while the clock ran, from the last poke of an unstopped clock on |
| ClockRuns.PausedFromCalls | packages/capability/src/compute-clock.ts:97-98 | With paired pauses and resumes, a clock stands still exactly when more pauses than resumes were called or a compute pause is outstanding, every compute region is claimed, and every live background region is held, all told from the list of calls |
| ClockRuns.HandlesAre | packages/capability/src/compute-clock.ts:188-201 | The unreleased handles are those given out with no release since |
| ClockRuns.RegionsAre | packages/capability/src/compute-clock.ts:202-230 | The live regions are those entered and not left since, and each one's pauses those made while it was live and not taken back since |
| ClockRuns.ComputeIs | packages/capability/src/compute-clock.ts:179-187 | The compute regions counted are the greatest surplus of enters over leaves from any call on |
| ClockRuns.ClaimsAre | packages/capability/src/compute-clock.ts:188-200 | The claims counted are those of the outstanding pauses that found more regions than claims |
| ClockRuns.StoppedIff | packages/capability/src/compute-clock.ts:118-123 | A clock has stopped exactly when some stop was played |
| ComputeClock.PausedIff | packages/capability/src/compute-clock.ts:97-98 | The three counter comparisons say exactly: somebody holds a pause, every compute region is claimed, and every live background region is paused |
| ComputeClock.ArmedIff | packages/capability/src/compute-clock.ts:97-134 | In every reachable state that has not stopped, the timer is off exactly when the three counter comparisons hold |
| ComputeClock.LeftIsUnspent | packages/capability/src/compute-clock.ts:107-113 | In every reachable state that has not stopped, the budget left is the budget less the time charged, floored at zero |
| ComputeClock.DueIffSpent | packages/capability/src/compute-clock.ts:115-128 | Within 2^31-1 milliseconds the timer is due exactly when the clock is running and its whole budget is charged |
| ComputeClock.EarlyFire | packages/capability/src/compute-clock.ts:125 | For every larger timeout there is a run in which the timer fires with budget left |
| ComputeClock.NeverNegativeIff | packages/capability/src/compute-clock.ts:174-200 | The pause depth can be driven below zero by releasing handles exactly when some resume took away a pause that belonged to a handle |
| ComputeClock.PairedNeverNegative | packages/capability/src/elicit.ts:139-154 | When every resume follows a pause of its own, in any interleaving, the depth never goes negative |
| ComputeClock.ElicitWithClockPause | packages/capability/src/elicit.ts:126-155 | Whatever calls, time steps and timer runs lie within the wait, on every way out the clock has run a pause, those calls and a resume; each answer leads to the exit it must |
| ComputeClock.ElicitationCostsNothing | packages/capability/src/elicit.ts:139-154 | When the calls within the wait resume only their own pauses, the clock ends as it would without the elicitation but for time charged less, and nothing is charged while all compute and background work stands still |
| HookCommand.StepKeepsInv | packages/hooks/src/subprocess.ts:444-568 | Every event keeps: signals in order, an unsettled command will be settled, a settled one is concluded |
| HookCommand.RunKeepsInv | packages/hooks/src/subprocess.ts:444-568 | The invariant holds after every interleaving of events |
| HookCommand.SettlesOnce | packages/hooks/src/subprocess.ts:490-521 | After settlement no later run of events changes the outcome or sends a signal |
| HookCommand.OutcomeIsTrue | packages/hooks/src/subprocess.ts:457-545 | In every run a forced kill comes after the termination signal, at most once and when the grace ran out; signals are sent exactly after a timeout or abort; the reported status is an exit's when one was seen before settling and otherwise a close's, and with a spawn error it is empty |
| HookCommand.SeenExitSettles | packages/hooks/src/subprocess.ts:527-545 | Once an exit or close was seen, an unsettled command has a drain timer or a scheduled settlement waiting, and that settles it |
| HookCommand.SilenceMeansKilled | packages/hooks/src/subprocess.ts:468-482 | A command left unsettled with nothing waiting timed out, was sent both signals, and reported neither exit nor close |
| HookHistory.OutcomeFromEvents | packages/hooks/src/subprocess.ts:444-568 | The whole outcome, from the list of events alone: a command settles exactly when some event is an error, a drain after some end and before all, or an immediate after all ends; the first such event gives the status, the spawn error, and as marks whether a deadline or an abort came before it |
| HookHistory.Unsettled | packages/hooks/src/subprocess.ts:444-568 | Until it settles, every variable of the command is what its events show: marks, timers, signals sent, last exit and close, and what is scheduled |
| HookHistory.SignalsFromEvents | packages/hooks/src/subprocess.ts:457-488 | Until it settles, a command is aborted or timed out exactly when such an event came, has been sent a termination signal for each, and a forced kill exactly when the grace ran out after one |
| HookCommand.RunHookCommand | packages/hooks/src/subprocess.ts:404-433 | An aborted signal or a throwing spawn is an ordinary outcome; otherwise the command starts with nothing seen |
| HookCommand.Command.constructor | packages/hooks/src/subprocess.ts:444-488 | A spawned command satisfies the invariant with its deadline waiting |
| HookCommand.Command.StartKill | packages/hooks/src/subprocess.ts:468-474 | Sends the termination signal and starts the grace once, changing nothing else |
| HookCommand.Command.ClearTimers | packages/hooks/src/subprocess.ts:493-495 | Clears each timer that is waiting and leaves the others as they were |
| HookCommand.Command.Settle | packages/hooks/src/subprocess.ts:490-521 | The first call clears every timer and the listener and fixes the outcome; a later call changes nothing |
| HookCommand.Command.FinishAfterProcessEvents | packages/hooks/src/subprocess.ts:527-545 | Schedules the settlement once all three ends are seen, and until then starts the drain once |
| HookCommand.Command.OnDeadline | packages/hooks/src/subprocess.ts:476-482 | Sets the timeout mark and not the abort mark, sends the termination signal and starts the grace once; the run invariant is kept |
| HookCommand.Command.OnKillGrace | packages/hooks/src/subprocess.ts:470-473 | Sends the forced kill, after the termination signal and only once; the run invariant is kept |
| HookCommand.Command.OnAbort | packages/hooks/src/subprocess.ts:484-488 | Sets the abort mark and not the timeout mark, drops the listener, sends the termination signal and starts the grace once; the run invariant is kept |
| HookCommand.Command.OnError | packages/hooks/src/subprocess.ts:523-526 | Settles an unsettled command with the spawn error and an empty status; the run invariant is kept |
| HookCommand.Command.OnExit | packages/hooks/src/subprocess.ts:546-549 | Records the exit, after which an unsettled command has a settlement waiting; the run invariant is kept |
| HookCommand.Command.OnClose | packages/hooks/src/subprocess.ts:550-553 | Records the close, likewise; the run invariant is kept |
| HookCommand.Command.OnStdin | packages/hooks/src/subprocess.ts:555-566 | Records the end of stdin, likewise when an exit or close was seen; the run invariant is kept |
| HookCommand.Command.OnDrain | packages/hooks/src/subprocess.ts:539-544 | Settles with the exit if one was seen and otherwise with the close; the run invariant is kept |
| HookCommand.Command.OnImmediate | packages/hooks/src/subprocess.ts:532-535 | Settles with the exit held when the settlement was scheduled; the run invariant is kept |
| HookCommand.Collector.Push | packages/hooks/src/subprocess.ts:187-206 | However the stream is cut into chunks, what is kept is its first bytes up to the cap, and the mark says whether there were more |
| VersionText.ParseIff | packages/code/src/update-contract.ts:53-54 | The reader captures given fields from a text exactly when the text is those fields written out and they have the pattern's shape; so it is both sound and complete, and unambiguous |
| VersionText.ReadableIff | packages/code/src/update-contract.ts:53-54 | A text is read as given fields exactly when it is three numerals without leading zeros, joined by dots, then the dotted identifiers after a dash and after a plus, over the characters of the pattern |
| VersionText.ParsedIsRendered | packages/code/src/update-contract.ts:53-54 | Writing out what was captured gives the text back |
| VersionText.RenderedIsParsed | packages/code/src/update-contract.ts:53-54 | Reading written fields gives the fields back |
| Precedence.OrderIsTotal | packages/code/src/update-contract.ts:87-104 | The precedence of section 11 of Semantic Versioning 2.0.0 is a total preorder, and ties exactly versions with equal core and prerelease |
| Precedence.PrecedenceIff | packages/code/src/update-contract.ts:87-104 | All the rules of section 11 of Semantic Versioning 2.0.0, in both directions: core numbers by size in order, a prerelease before its version, identifiers by the first difference, numbers before text, a proper prefix first |
| Precedence.CoreDecides | packages/code/src/update-contract.ts:87-89 | The first difference of major, minor and patch decides |
| Precedence.PrereleaseBefore | packages/code/src/update-contract.ts:90-93 | With equal cores a prerelease comes before the version |
| Precedence.ListBeforeIff | packages/code/src/update-contract.ts:94-104 | Identifier lists compare by their first difference, and of two that agree the shorter comes first |
| Precedence.OrderFlip | packages/code/src/update-contract.ts:87-104 | Exchanging the versions flips the sign |
| Precedence.OrderTrans | packages/code/src/update-contract.ts:87-104 | Precedence is transitive |
| Versions.NumericOrder | tooling/lib/release-prepare.ts:34-38 | Length first, then text, compares digit strings without leading zeros by their values, and only equal strings tie |
| Versions.IdentifierOrder | tooling/lib/release-prepare.ts:40-47 | Comparing prerelease identifiers as text has the sign of their precedence |
| Versions.FieldsLessIff | tooling/lib/release-prepare.ts:50-72 | The order on the captured fields themselves: which field is compared when, and how |
| Versions.PrereleaseTextFirst | tooling/lib/release-prepare.ts:57-60 | For every release text with a prerelease, both comparators put it before the text without it |
| Versions.ChainInOrder | packages/code/src/update-contract.ts:79-105 | Both comparators order the standard's example, 1.0.0-alpha up to 1.0.0, as the standard does |
| Versions.CompareReleaseVersions | tooling/lib/release-prepare.ts:50-72 | Fails exactly when a version is refused; otherwise the sign of the difference is the precedence of the exact versions, of any length of digits |
| Versions.CompareFields | tooling/lib/release-prepare.ts:53-60 | The same on captured fields |
| Versions.ComparePrereleases | tooling/lib/release-prepare.ts:61-71 | The loop's sign is the precedence of the two identifier lists |
| Versions.ReadPrerelease | packages/code/src/update-contract.ts:60-68 | Reads every identifier, or refuses exactly when a numeric one has a leading zero |
| Versions.CompareProductVersions | packages/code/src/update-contract.ts:79-105 | Fails exactly when a version is refused; otherwise gives the precedence of the versions as read |
| Versions.CompareVersions | packages/code/src/update-contract.ts:87-104 | The loops compute precedence |
| Versions.CompareIdents | packages/code/src/update-contract.ts:94-104 | The loop computes precedence of identifier lists |
| Versions.FieldAgreesIff | packages/code/src/update-contract.ts:88 | On one numeric field the two comparators agree exactly when the conversion to numbers keeps differing fields apart |
| Versions.ComparatorsAgree | packages/code/src/update-contract.ts:88-104 | They agree on whole versions whose fields are kept apart |
| Versions.SafeComparatorsAgree | packages/code/src/update-contract.ts:79-105 | On every two texts both accept with numbers below 2^53 the two comparators give the same sign |
| Versions.AcceptedAlike | packages/code/src/update-contract.ts:57-76 | The release reader accepts exactly what the updater accepts without a build part |
| Versions.CollisionDisagrees | packages/code/src/update-contract.ts:88 | Any two numbers the conversion confuses give two versions on which the comparators have opposite signs |
| Versions.AgreeIffNoCollision | packages/code/src/update-contract.ts:88-104 | The comparators agree on all releases exactly when the conversion confuses no two numbers |
| Versions.RoundedReleasesDisagree | packages/code/src/update-contract.ts:69-88 | Where 2^53 and 2^53 + 1 are both read as 2^53, the releases 9007199254740993.0.0 and 9007199254740992.0.1 are put in opposite orders |
| Versions.CappedReading | packages/code/src/update-contract.ts:69-88 | Conversions of the assumed kind exist: the exact one, and one that confuses all numbers from 2^53 on |
| Versions.BoundedReadingDisagrees | packages/code/src/update-contract.ts:69-88 | Every conversion with bounded results, as that to a fixed-size number, makes the comparators disagree on some two releases |
| Updates.Consider | packages/code/src/update-contract.ts:169-174 | The loop's tests keep exactly the published, newer, channel-permitted releases with one complete asset for the target |
| Updates.SelectUpdateRelease | packages/code/src/update-contract.ts:159-178 | Fails exactly on an unreadable installed version; gives nothing exactly when nothing is on offer; otherwise the greatest offer, the earliest among equals, strictly newer than the installed version and stable for a stable installation |
| Updates.OffersIff | packages/code/src/update-contract.ts:168-174 | A release is on offer exactly when it is published, its tag and prerelease mark fit its version, it is newer and permitted, and its asset is eligible |
| Updates.EligibleIff | packages/code/src/update-contract.ts:136-156 | The filter finds exactly the asset that is the only one of its name for the target, uploaded, of at most 512 MiB, with a SHA-256 digest, at the one expected address |
| Updates.HeadIsBest | packages/code/src/update-contract.ts:176-177 | The head of the sorted list is a greatest offer, and the first listed among equals |
| Pools.Semaphore.constructor | packages/capability/src/semaphore.ts:39-42 | The cap is the limit floored and at least one, or there is none for an infinite limit |
| Pools.Semaphore.Acquire | packages/capability/src/semaphore.ts:45-69 | Is the pool's arrival, followed by its abort when the signal is already aborted; it takes a slot exactly when there is room, and otherwise queues at the back, or not at all when aborted |
| Pools.Semaphore.OnAbort | packages/capability/src/semaphore.ts:55-60 | Is the pool's abort: a queued waiter is cut out of the queue where it stands, anyone else is left alone, and no slot moves |
| Pools.Semaphore.Release | packages/capability/src/semaphore.ts:70-77 | Is the pool's release: with a waiter the count of slots stays and the queue loses its front, without one the count falls, never below zero |
| Pools.BackgroundHooks.Schedule | packages/hooks/src/runner.ts:369-381 | Is the pool's arrival; at most eight hooks run, and the queue is empty whenever fewer do |
| Pools.BackgroundHooks.Settles | packages/hooks/src/runner.ts:372-377 | Giving the slot back and starting the next hook is the same release of the same pool |
| Pools.ArriveKeepsFair | packages/capability/src/semaphore.ts:45-69 | An arrival keeps the cap, the order of arrival, and that nobody waits while there is room |
| Pools.AbortKeepsFair | packages/capability/src/semaphore.ts:55-60 | So does an abort, which neither leaks nor steals a slot |
| Pools.ReleaseKeepsFair | packages/capability/src/semaphore.ts:70-77 | So does a release; slots in use stay grants less releases exactly when a grant was left to release |
| Pools.GrantedOrRejected | packages/capability/src/semaphore.ts:50-68 | Each arrival is granted at most once, rejected at most once, never both, and otherwise still waits |
| Pools.RunsAreFair | packages/capability/src/semaphore.ts:39-79 | After every run with one release for each grant: grants are in arrival order among those not rejected, slots in use are grants less releases, never above the cap, and waiters imply a full pool |
| Pools.ArriveLaw | packages/capability/src/semaphore.ts:45-69 | Who arrives starts at once while there is room, and otherwise waits at the back |
| Pools.AbortLaw | packages/capability/src/semaphore.ts:55-60 | A waiter that aborts leaves the queue and is rejected, and the others keep their order; an abort of anyone else changes nothing |
| Pools.ReleaseLaw | packages/capability/src/semaphore.ts:70-77 | A release hands its slot to the first waiter, and gives it back when nobody waits |
| Pools.WithoutPlaces | packages/capability/src/semaphore.ts:50-68 | Arrival order among those not rejected: each in its place, as often as it arrived |
| Admission.Create | packages/capability/src/extension-admission.ts:87-105 | A controller is made exactly when every given limit is positive, with the defaults for the others |
| Admission.Controller.Admit | packages/capability/src/extension-admission.ts:131-154 | Admits or refuses by the calls in flight: an empty operation first, then a closed controller, a busy operation, a full class; a refused call changes nothing, an admitted one adds one to its class |
| Admission.Controller.Settle | packages/capability/src/extension-admission.ts:156-169 | A settled call leaves exactly itself out of the calls in flight; no clamp takes effect |
| Admission.Controller.Close | packages/capability/src/extension-admission.ts:119-123 | Closing changes only whether calls are accepted |
| Admission.KeyInjective | packages/capability/src/extension-admission.ts:140 | The operation key never confuses two calls of different class or operation |
| Admission.DecideIff | packages/capability/src/extension-admission.ts:136-149 | Each reason of a refusal belongs to its own condition on the calls in flight, the earlier ones first |
| Admission.ClassTotalIsSum | packages/capability/src/extension-admission.ts:145-153 | Each class total is the sum of its per-operation counts |
| Admission.RunEndIsIndependent | packages/capability/src/extension-admission.ts:145-149 | Whether a run-end call is admitted, and why not, does not depend on the normal calls in flight or their limit |
| Admission.AdmitEffect | packages/capability/src/extension-admission.ts:140-154 | Admitting keeps all limits and adds one to its own class only |
| Admission.SettleEffect | packages/capability/src/extension-admission.ts:157-163 | Settling keeps all limits and takes one from its own class only |
| Recency.TouchExplains | packages/capability/src/log.ts:231-235 | After every touch the bounded map holds exactly the keys touched with fewer than the capacity of other keys since, in order of last touch, with their latest values |
| Recency.HasIffRemembered | packages/capability/src/log.ts:291-292 | A key is in the map exactly when that holds of it |
| Limiters.RateLimiter.Admit | packages/capability/src/log.ts:289-297 | Decides by the admissions so far alone, and keeps the table within max(1, maxKeys) |
| Limiters.TaskReporter.Observe | packages/capability/src/tasks.ts:23-34 | The second copy decides by the same rule on its own admissions, with 1,024 keys |
| Limiters.ReadmittedIff | packages/capability/src/log.ts:290-297 | A key is admitted the first time; after an admission it is admitted again exactly when the window has passed or at least as many different other keys as the table holds were admitted in between |
| Limiters.DriveBoth | packages/capability/src/tasks.ts:23-34 | Over every sequence of keys and times, a limiter with 1,024 keys and a task reporter with the same window give the same answers |
| Sampler.KeySampler.Sample | packages/capability/src/log.ts:252-259 | Judges the occurrence by its count among the remembered ones |
| Sampler.PowerTest | packages/capability/src/log.ts:258 | A positive number shares no bit with its predecessor exactly when it is a power of two |
| Sampler.AndBits | packages/capability/src/log.ts:258 | The conjunction sets exactly the bits set in both |
| Sampler.PowersAre | packages/capability/src/log.ts:258 | The powers of two and the logarithm are those of repeated doubling |
| Sampler.SampledIff | packages/capability/src/log.ts:257-258 | Up to 2^32 the rule admits exactly the first eight and the powers of two |
| Sampler.SampledBeyondWord | packages/capability/src/log.ts:258 | Beyond it admits by the last 32 bits alone |
| Sampler.FirstWrongAdmission | packages/capability/src/log.ts:258 | So the first occurrence admitted wrongly is number 2^32 + 1 |
| Sampler.AdmittedCount | packages/capability/src/log.ts:241-260 | Of n occurrences, eight or more, 5 + floor(log2 n) are admitted |
| Sampler.CountsWithoutEviction | packages/capability/src/log.ts:253-256 | While no more keys than the table holds were seen, counts are the numbers of occurrences |
| HookOutcome.CleanTextIff | packages/hooks/src/parse.ts:67-70 | The one text left when the blanks are taken off both ends of the input without its control characters, cut at the limit; a text that is clean already is kept |
| HookOutcome.TrimIff | packages/hooks/src/parse.ts:69 | A text is the trimmed one exactly when blanks around it give the input, and it begins and ends with something else |
| HookOutcome.WithoutControlSkips | packages/hooks/src/parse.ts:69 | Taking out a control character anywhere changes nothing of the result |
| HookOutcome.ShortenedMost | packages/hooks/src/parse.ts:69 | The cut text is as much of the rest as the limit of 4,000 characters allows |
| HookOutcome.ControlIff | packages/hooks/src/parse.ts:24 | The characters taken out are those below the space other than tab, newline and carriage return, and delete |
| HookOutcome.ForeignDeniesIff | packages/hooks/src/parse.ts:132-178 | A body without a kind denies exactly when its decision blocks; rewrites and context only where allowed |
| HookOutcome.NativeDeniesIff | packages/hooks/src/parse.ts:223-265 | A body with a kind denies exactly when the kind says so |
| HookOutcome.BodyDeniesIff | packages/hooks/src/parse.ts:215-266 | A body that blocks in either dialect denies exactly when its kind is absent or `deny`, and nothing else denies |
| HookOutcome.DeniesByFields | packages/hooks/src/parse.ts:132-142 | On the fields themselves: a body without a kind denies exactly when the nested decision, or where that is unset the top one, is `deny` or `block`, or `continue` is false; with its cleaned reason or a placeholder |
| HookOutcome.DeniesByKind | packages/hooks/src/parse.ts:221-233 | A body with a kind denies exactly when the kind is `deny`, with its cleaned message or a placeholder |
| HookOutcome.ReasonFields | packages/hooks/src/parse.ts:136-138 | The reason is the nested one, then the top one, then the stop reason, the first that is set |
| HookOutcome.OfferedFields | packages/hooks/src/parse.ts:155-157 | So is the offered text among its three places |
| HookOutcome.UpdatedFields | packages/hooks/src/parse.ts:144 | Replacement arguments are the nested ones, or where those are unset the top ones |
| HookOutcome.AskAdvises | packages/hooks/src/parse.ts:151-153 | A request to ask arrives as advice with its reason, at a gate and off one, and without a reason passes |
| HookOutcome.OfferedArrives | packages/hooks/src/parse.ts:155-177 | Offered text beside no block, question or replacement is context off a gate and advice at one |
| HookOutcome.ReplacementByFields | packages/hooks/src/parse.ts:143-168 | Replacement arguments beside no block are used whole where allowed and unopposed, with the offered text as advice, and otherwise reported |
| HookOutcome.NativeReads | packages/hooks/src/parse.ts:223-265 | What each other kind is read as, from which field, and when it is bad output |
| HookOutcome.StdoutDeniesIff | packages/hooks/src/parse.ts:201-266 | An output denies exactly when it is complete and holds a body that blocks where it is heard |
| HookOutcome.ReplacementNeverDropped | packages/hooks/src/parse.ts:143-167 | Replacement arguments offered without a block are used whole or reported as bad output, never dropped |
| HookOutcome.DeniesIff | packages/hooks/src/runner.ts:232-270 | A hook's result is a denial exactly at a gate, when undisturbed it said to block where it is heard, or failed uncancelled under a deny policy |
| HookOutcome.BlockingDeniesIff | packages/hooks/src/runner.ts:232-270 | Of the commands that say to block at a gate, by an unsignalled exit 2 or a complete printed block, exactly those deny under the default policy that no deadline, cancellation or spawn error disturbed and whose printed body has no other kind; they deny under both policies |
| HookOutcome.ExitTwoDeniesIff | packages/hooks/src/runner.ts:238-251 | An unsignalled exit 2 at a gate denies exactly when the command neither timed out nor was aborted nor failed to spawn; the schema text promises it always |
| HookOutcome.ExitTwoMessage | packages/hooks/src/runner.ts:234-251 | Its reason is the last 2,000 characters of stderr, cleaned, or a placeholder |
| HookOutcome.FailsIff | packages/hooks/src/runner.ts:232-270 | An uncancelled command fails exactly when it timed out or was not started, exited badly other than by a block at a gate, or exited well with an unusable output |
| HookOutcome.FailureResolved | packages/hooks/src/runner.ts:581-590 | A failure is denied exactly at a gate under the policy of denying, and passed otherwise |
| HookOutcome.LateVerdicts | packages/hooks/src/runner.ts:238-239 | A cancelled command is passed whatever it says, and one that timed out is denied exactly at a gate under the policy of denying |
| HookOutcome.PrintedBlockDeniesIff | packages/hooks/src/parse.ts:215-233 | A complete printed block of an undisturbed command denies exactly when its kind is absent or `deny` |
| HookOutcome.LateExitTwoPasses | packages/hooks/src/runner.ts:238-251 | The failing inputs: exit 2 of a timed-out or of an aborted command is a pass |
| HookOutcome.KindHidesBlock | packages/hooks/src/parse.ts:216-264 | The failing inputs: a block beside the kind `pass` is a pass, and beside a null kind it is bad output |
| HookOutcome.McpDeniesIff | packages/hooks/src/runner.ts:146-209 | An MCP hook denies exactly at a gate and when the document in what it returned blocks where it is heard; its failures never block |
| HookOutcome.StructuredBlockDenies | packages/hooks/src/runner.ts:170-177 | A structured result that blocks, written and read back without loss, denies at a gate |
| HookOutcome.TextBlockDenies | packages/hooks/src/runner.ts:178-190 | A blocking document in a tool's text content denies at a gate |
| HookOutcome.McpFailurePasses | packages/hooks/src/runner.ts:156-163 | A tool that reports no success is passed |
| HookOutcome.McpPlainData | packages/hooks/src/runner.ts:164-166 | A tool's plain text is its document, and no data is the empty one |
| HookRuns.RunBlockingDeniesIff | packages/hooks/src/runner.ts:246-270 | Over every interleaving of its events, a command that settles with a block at a gate denies exactly when it was never sent a signal and its printed body has no other kind |
| HookRuns.TrappedDeadlinePasses | packages/hooks/src/runner.ts:238-251 | A run of the command exists that outlives its deadline, exits 2, and is passed |
| HookRuns.AbortedRunPasses | packages/hooks/src/subprocess.ts:484-488 | A command aborted before the event that settles it is passed, whatever else happened and whatever the policy |
| HookRuns.TimedOutRunFails | packages/hooks/src/subprocess.ts:476-482 | One whose deadline came before that event, and no abort, is denied exactly at a gate under the policy of denying |
| HookOutcome.ChannelsRespected | packages/hooks/src/runner.ts:581-590 | A rewrite arrives only where arguments can be replaced, context only off a gate, a denial only at one |
| Gate.RunGate | packages/hooks/src/capability.ts:136-159 | The hooks run are those that fire, each as often as it is listed, in the order of the list, each judged on the arguments the earlier ones left; the first denial gives the message and ends the run; without one, all run, the last replacement is carried whole, all advice in order with newlines between, and it is a pass exactly when there is nothing to say |
| Gate.JoinLinesParts | packages/hooks/src/capability.ts:154 | Joining puts a newline between, wherever the lines are parted |
| Gate.SelectedPlaces | packages/hooks/src/runner.ts:401-402 | Selection keeps the order of the list |
| Gate.BeforeIsLastRewrite | packages/hooks/src/capability.ts:148-151 | The arguments a hook runs on are those of the last earlier rewrite |
| Gate.GateStopsIff | packages/hooks/src/capability.ts:143-147 | At every gate, for every list of command and MCP hooks, some hook denies exactly when some hook, on the arguments the earlier ones left, says to block and is heard, or fails closed |
| Gate.HookDeniesIff | packages/hooks/src/runner.ts:417-590 | One hook of either kind denies exactly when it says to block and is heard, or fails closed |
| Gate.BackgroundBlockPasses | packages/hooks/src/runner.ts:504-524 | A background command at a gate is passed whatever it says |
| Glob.CompilerPreservesMeaning | packages/capability/src/glob.ts:30-32 | Reading the written expression and taking its language gives exactly the pattern's pieces in order, over the whole string, with newline-free gaps at the stars |
| Glob.SourceReadsBack | packages/capability/src/glob.ts:17-32 | The written text reads back as literals for the pieces and one gap for each star: every other character matches only itself |
| Glob.EscapesSyntax | packages/capability/src/glob.ts:17-19 | The characters escaped are exactly the syntax characters of the expression language |
| Glob.SplitStarsJoins | packages/capability/src/glob.ts:31 | Splitting at stars loses nothing |
| Glob.StarsMeanAnythingIff | packages/capability/src/glob.ts:25-29 | A star means any run of characters, as documented, for every pattern exactly on subjects without line terminators |
| TestHarness.BunTestInvocations | tooling/lib/test-harness.ts:60-72 | Terminates on every script map, cyclic ones included, and lists exactly the commands of the scripts in the order of first visits, one script after the other |
| TestHarness.Expansion.Expand | tooling/lib/test-harness.ts:60-72 | One expansion lists the commands of the newly visited scripts in their order, and adds exactly those to the shared set |
| TestHarness.VisitsAllReachable | tooling/lib/test-harness.ts:60-72 | The order of first visits holds exactly the scripts reachable from the name, each once, the name first, and every other one after a script that runs it |
| TestHarness.VisitOne | tooling/lib/test-harness.ts:64-70 | A script comes first, and then what it runs, in the order of its body |
| TestHarness.VisitJoin | tooling/lib/test-harness.ts:68-70 | Everything the earlier calls lead to is visited before the later calls: the recursion with a shared set is the search with one stack |
| TestHarness.NextCall | tooling/lib/test-harness.ts:68-70 | Expanding the next call continues the order where the earlier calls left it |

## Left out

- ComputeClock.ElicitWithClockPause: the question itself is not modelled; how the wait ends, and what happens within it, are parameters.
- ComputeClock.Clock.PauseForCompute and the other pauses: the functions a pause returns are names, and their captured variables are cells in a map by name; time is an integer that only `PassTime` moves, and a timer may run at or after its due time.
- ClockRuns.PausedFromCalls: for pauses and resumes that are paired; without pairing the depth is stated call by call (`AddPause`, `RemovePause`, `PauseForCompute`, `ReleaseCompute`), since a resume at depth zero is no call.
- Closures.DynamicReachableFrom: takes the union graph as a ghost parameter, only to name it in the contract.
- Components.StronglyConnectedComponents: the locale comparison of first names is a parameter, any total preorder.
- Updates.SelectUpdateRelease: the conversion of digits to numbers is a parameter without conditions; asset sizes are integers, and the refusal of fractional sizes is not modelled.
- Pools.Semaphore.constructor: a limit that is not a number, with which the source never grants a slot at once, is not modelled.
- TestHarness.BunTestInvocations: script bodies are given as the commands and calls their two patterns find.
- Gate.RunGate: matching a hook to a call is a parameter, and so is how a command ends or an MCP tool answers on given arguments.
- Processes, shells, signals to process trees or to the child alone, streams and the payload on stdin: only their events.
- Real timers and clocks: durations other than the compute clock's, and `durationMs` in results.
- Promises: the order in which settled promises call back is not modelled.
- JSON: the reader and the writer are parameters, which may fail.
- The MCP hook tools: interpolation into their input, and the abort signal they are given.
- Logging, trace records and observer callbacks, whose effects do not come back to the state.
- Manifest reading, file walking, TypeScript parsing and Markdown rendering of the package report: the adjacency map is the input.
- Subpath patterns of export maps: small string tests without state.
- Log scope and level parsing, sanitising tables and hook environment tables: no property beyond the tables.
- Text edits of the release preparation, download and verification of an update archive.
- The contributor and observer loops of workspace hooks: single passes that cannot block.
- UTF-16: strings are sequences of Unicode characters, so text order and lengths differ from JavaScript's outside the basic plane.
- The terminal interface, run host and session code: their behaviour depends on parts not modelled here.
