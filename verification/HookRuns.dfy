/** From the events of a hook command to its verdict: what a run of the command makes of a block. */
module HookRuns {
  import opened Common
  import opened HookOutcome
  import HookCommand
  import HookHistory

  // What the collectors hold when the command settles.
  datatype Streams = Streams(stdout: string, stdoutTruncated: bool, stderr: string)

  function FinishedOf(r: HookCommand.Result, streams: Streams): Finished {
    Finished(streams.stdout, streams.stdoutTruncated, streams.stderr, r.status.code, r.status.signal,
             r.timedOut, r.aborted, r.spawnError)
  }

  /**
   * Over every interleaving of events, a command that settles with a block at a gate denies, under the default
   * policy, exactly when it was never sent a signal and no other `kind` stands beside its printed decision.
   */
  lemma RunBlockingDeniesIff(piped: bool, es: seq<HookCommand.Event>, streams: Streams, parse: string -> Option<Json>,
                             inv: Invocation)
    requires inv.gate && HookCommand.Run(HookCommand.Spawned(piped), es).settled
    requires HookCommand.Run(HookCommand.Spawned(piped), es).outcome.Some?
    requires Blocks(FinishedOf(HookCommand.Run(HookCommand.Spawned(piped), es).outcome.value, streams), parse)
    ensures var m := HookCommand.Run(HookCommand.Spawned(piped), es);
      var res := FinishedOf(m.outcome.value, streams);
      Resolve(Classify(res, parse, inv), false, inv).Deny? <==>
      m.sent == [] && (ExitsTwo(res) || OutputHeard(res.stdout, parse))
  {
    hide HookCommand.Run, Classify, Resolve, OutputBlocks, OutputHeard, HookCommand.Ordered;
    var m := HookCommand.Run(HookCommand.Spawned(piped), es);
    HookCommand.OutcomeIsTrue(piped, es);
    BlockingDeniesIff(FinishedOf(m.outcome.value, streams), parse, inv);
  }

  /** A command aborted before it settled is passed, whatever its status, its output, the gate and the policy. */
  lemma AbortedRunPasses(piped: bool, es: seq<HookCommand.Event>, k: nat, streams: Streams, parse: string -> Option<Json>,
                         denyOnFailure: bool, inv: Invocation)
    requires k < |es| && HookHistory.Settles(piped, es, k) && forall j :: 0 <= j < k ==> !HookHistory.Settles(piped, es, j)
    requires HookCommand.Abort in es[..k]
    ensures var m := HookCommand.Run(HookCommand.Spawned(piped), es);
      m.outcome.Some? && Resolve(Classify(FinishedOf(m.outcome.value, streams), parse, inv), denyOnFailure, inv) == Pass
  {
    hide HookCommand.Run, HookHistory.Settles, HookHistory.Tells, Classify, Resolve;
    HookHistory.OutcomeFromEvents(piped, es);
    LateVerdicts(FinishedOf(HookCommand.Run(HookCommand.Spawned(piped), es).outcome.value, streams), parse, denyOnFailure, inv);
  }

  /** One that its deadline ended, without an abort, fails: a gate under the policy of denying on failure denies. */
  lemma TimedOutRunFails(piped: bool, es: seq<HookCommand.Event>, k: nat, streams: Streams, parse: string -> Option<Json>,
                         denyOnFailure: bool, inv: Invocation)
    requires k < |es| && HookHistory.Settles(piped, es, k) && forall j :: 0 <= j < k ==> !HookHistory.Settles(piped, es, j)
    requires HookCommand.Deadline in es[..k] && HookCommand.Abort !in es[..k]
    ensures var m := HookCommand.Run(HookCommand.Spawned(piped), es);
      && m.outcome.Some?
      && Resolve(Classify(FinishedOf(m.outcome.value, streams), parse, inv), denyOnFailure, inv) ==
         if inv.gate && denyOnFailure then Deny("a workspace hook failed: the command timed out") else Pass
  {
    hide HookCommand.Run, HookHistory.Settles, HookHistory.Tells, Classify, Resolve;
    HookHistory.OutcomeFromEvents(piped, es);
    LateVerdicts(FinishedOf(HookCommand.Run(HookCommand.Spawned(piped), es).outcome.value, streams), parse, denyOnFailure, inv);
  }

  const TRAPPED := HookCommand.Status(Some(HOOK_BLOCKING_EXIT_CODE), None)

  const TRAPPED_RUN: seq<HookCommand.Event> :=
    [HookCommand.Deadline, HookCommand.Exit(TRAPPED), HookCommand.Close(TRAPPED), HookCommand.StdinDone, HookCommand.Immediate]

  /** Such a run exists: the command outlives its deadline, traps the signal, and exits 2. */
  lemma TrappedRun()
    ensures HookCommand.Run(HookCommand.Spawned(true), TRAPPED_RUN).outcome ==
            Some(HookCommand.Result(TRAPPED, true, false, None))
  {
    hide HookCommand.Run;
    var m := HookCommand.Spawned(true);
    var es := TRAPPED_RUN;
    assert HookCommand.Run(m, es[..0]) == m by { NotYet(m, es); }
    PlayedInTurn(m, es, 0);
    PlayedInTurn(m, es, 1);
    PlayedInTurn(m, es, 2);
    PlayedInTurn(m, es, 3);
    PlayedInTurn(m, es, 4);
    assert es[..5] == es;
  }

  /** It is passed, although the command exits with the blocking code. */
  lemma TrappedDeadlinePasses(streams: Streams, parse: string -> Option<Json>, rewritable: bool)
    ensures var m := HookCommand.Run(HookCommand.Spawned(true), TRAPPED_RUN);
      && m.outcome.Some? && ExitsTwo(FinishedOf(m.outcome.value, streams))
      && var inv := Invocation(true, rewritable);
         Resolve(Classify(FinishedOf(m.outcome.value, streams), parse, inv), false, inv) == Pass
  {
    hide HookCommand.Run, ParseHookStdout, CleanText;
    TrappedRun();
  }

  lemma NotYet(m: HookCommand.Machine, es: seq<HookCommand.Event>)
    ensures HookCommand.Run(m, es[..0]) == m
  {
  }

  lemma PlayedInTurn(m: HookCommand.Machine, es: seq<HookCommand.Event>, k: nat)
    requires k < |es|
    ensures var before := HookCommand.Run(m, es[..k]);
      HookCommand.Run(m, es[..k + 1]) == if before.Enabled(es[k]) then before.Step(es[k]) else before
  {
    assert es[..k + 1][..k] == es[..k];
  }
}
