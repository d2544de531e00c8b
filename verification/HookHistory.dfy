/** What a hook command has done, told from the list of its events alone. */
module HookHistory {
  import opened Common
  import opened HookCommand

  // What the events show.

  ghost predicate SawExit(es: seq<Event>) {
    exists k :: 0 <= k < |es| && es[k].Exit?
  }

  ghost predicate SawClose(es: seq<Event>) {
    exists k :: 0 <= k < |es| && es[k].Close?
  }

  ghost predicate SawError(es: seq<Event>) {
    exists k :: 0 <= k < |es| && es[k].Error?
  }

  ghost predicate LastExit(es: seq<Event>, s: Status) {
    exists k :: 0 <= k < |es| && es[k] == Exit(s) && forall j :: k < j < |es| ==> !es[j].Exit?
  }

  ghost predicate LastClose(es: seq<Event>, s: Status) {
    exists k :: 0 <= k < |es| && es[k] == Close(s) && forall j :: k < j < |es| ==> !es[j].Close?
  }

  /** The child has exited, closed its streams, and taken its stdin, as far as it has one. */
  ghost predicate AllEnds(piped: bool, es: seq<Event>) {
    SawExit(es) && SawClose(es) && (piped ==> StdinDone in es)
  }

  /** `s` is the last exit seen when all the ends first were. */
  ghost predicate ExitAtEnds(piped: bool, es: seq<Event>, s: Status) {
    exists k :: 0 < k <= |es| && AllEnds(piped, es[..k]) && !AllEnds(piped, es[..k - 1]) && LastExit(es[..k], s)
  }

  /** The grace ran out after a kill was begun. */
  ghost predicate GraceRan(es: seq<Event>) {
    exists k :: 0 <= k < |es| && es[k] == KillGrace && (Deadline in es[..k] || Abort in es[..k])
  }

  // How they change with one more event.

  lemma SawMore(piped: bool, es: seq<Event>, e: Event)
    ensures SawExit(es + [e]) <==> SawExit(es) || e.Exit?
    ensures SawClose(es + [e]) <==> SawClose(es) || e.Close?
    ensures SawError(es + [e]) <==> SawError(es) || e.Error?
    ensures forall x :: x in es + [e] <==> x in es || x == e
  {
    var es' := es + [e];
    assert es'[|es|] == e && forall k :: 0 <= k < |es| ==> es'[k] == es[k];
  }

  lemma LastExitMore(es: seq<Event>, e: Event, s: Status)
    ensures LastExit(es + [e], s) <==> e == Exit(s) || (LastExit(es, s) && !e.Exit?)
  {
    var es' := es + [e];
    assert es'[|es|] == e && forall k :: 0 <= k < |es| ==> es'[k] == es[k];
    if k :| 0 <= k < |es'| && es'[k] == Exit(s) && forall j :: k < j < |es'| ==> !es'[j].Exit? {
      if k < |es| {
        assert es[k] == Exit(s);
      }
    }
    if e == Exit(s) {
      assert es'[|es|] == Exit(s);
    } else if k :| 0 <= k < |es| && es[k] == Exit(s) && forall j :: k < j < |es| ==> !es[j].Exit? {
      assert es'[k] == Exit(s);
    }
  }

  lemma LastCloseMore(es: seq<Event>, e: Event, s: Status)
    ensures LastClose(es + [e], s) <==> e == Close(s) || (LastClose(es, s) && !e.Close?)
  {
    var es' := es + [e];
    assert es'[|es|] == e && forall k :: 0 <= k < |es| ==> es'[k] == es[k];
    if k :| 0 <= k < |es'| && es'[k] == Close(s) && forall j :: k < j < |es'| ==> !es'[j].Close? {
      if k < |es| {
        assert es[k] == Close(s);
      }
    }
    if e == Close(s) {
      assert es'[|es|] == Close(s);
    } else if k :| 0 <= k < |es| && es[k] == Close(s) && forall j :: k < j < |es| ==> !es[j].Close? {
      assert es'[k] == Close(s);
    }
  }

  lemma GraceMore(es: seq<Event>, e: Event)
    ensures GraceRan(es + [e]) <==> GraceRan(es) || (e == KillGrace && (Deadline in es || Abort in es))
  {
    var es' := es + [e];
    assert es'[|es|] == e && es'[..|es|] == es;
    assert forall k :: 0 <= k < |es| ==> es'[k] == es[k] && es'[..k] == es[..k];
    if k :| 0 <= k < |es'| && es'[k] == KillGrace && (Deadline in es'[..k] || Abort in es'[..k]) {
      if k < |es| {
        assert es[k] == KillGrace;
      }
    }
    if k :| 0 <= k < |es| && es[k] == KillGrace && (Deadline in es[..k] || Abort in es[..k]) {
      assert es'[k] == KillGrace;
    }
  }

  lemma ExitAtEndsMore(piped: bool, es: seq<Event>, e: Event, s: Status)
    ensures ExitAtEnds(piped, es, s) ==> ExitAtEnds(piped, es + [e], s)
    ensures AllEnds(piped, es + [e]) && !AllEnds(piped, es) && LastExit(es + [e], s) ==> ExitAtEnds(piped, es + [e], s)
  {
    hide AllEnds, LastExit;
    var es' := es + [e];
    assert es'[..|es'|] == es' && es'[..|es|] == es;
    if k :| 0 < k <= |es| && AllEnds(piped, es[..k]) && !AllEnds(piped, es[..k - 1]) && LastExit(es[..k], s) {
      assert es'[..k] == es[..k] && es'[..k - 1] == es[..k - 1];
    }
  }

  // The state of a command that has not settled.

  /** The deadline, the abort, and the signals they have led to. */
  ghost predicate Killing(m: Machine, es: seq<Event>) {
    && (m.timedOut <==> Deadline in es) && (m.deadline.Pending? <==> Deadline !in es)
    && (m.aborted <==> Abort in es) && (m.listening <==> Abort !in es)
    && (m.kill.Unset? <==> Deadline !in es && Abort !in es) && (m.kill.Fired? <==> GraceRan(es)) && !m.kill.Cleared?
    && multiset(m.sent)[SIGTERM] == (if Deadline in es then 1 else 0) + (if Abort in es then 1 else 0)
    && multiset(m.sent)[SIGKILL] == if GraceRan(es) then 1 else 0
  }

  /** The ends seen, and the settlement they have led to. */
  ghost predicate Ending(m: Machine, piped: bool, es: seq<Event>) {
    && (m.exitResult.Some? <==> SawExit(es)) && (m.exitResult.Some? ==> LastExit(es, m.exitResult.value))
    && (m.closeResult.Some? <==> SawClose(es)) && (m.closeResult.Some? ==> LastClose(es, m.closeResult.value))
    && (m.stdinDone <==> piped ==> StdinDone in es)
    && (m.scheduled <==> AllEnds(piped, es)) && (m.immediate.Some? <==> AllEnds(piped, es))
    && (m.immediate.Some? ==> ExitAtEnds(piped, es, m.immediate.value))
    && (m.drain.Pending? <==> (SawExit(es) || SawClose(es)) && !AllEnds(piped, es))
    && (!(SawExit(es) || SawClose(es)) ==> m.drain.Unset?)
    && !m.drain.Fired? && m.spawnError.None? && !SawError(es) && m.outcome.None?
  }

  lemma KillingMore(m: Machine, es: seq<Event>, e: Event)
    requires !m.settled && Killing(m, es)
    ensures var m' := if m.Enabled(e) then m.Step(e) else m; !m'.settled ==> Killing(m', es + [e])
  {
    hide GraceRan, Machine.FinishAfterProcessEvents;
    GraceMore(es, e);
    SawMore(true, es, e);
    if e.Deadline? || e.Abort? {
      assert multiset(m.sent + [SIGTERM]) == multiset(m.sent) + multiset{SIGTERM};
    } else if e.KillGrace? {
      assert multiset(m.sent + [SIGKILL]) == multiset(m.sent) + multiset{SIGKILL};
      GraceOnce(m, es);
    } else {
      SameKill(m, e);
    }
  }

  lemma GraceOnce(m: Machine, es: seq<Event>)
    requires Killing(m, es)
    ensures m.kill.Pending? <==> (Deadline in es || Abort in es) && !GraceRan(es)
    ensures GraceRan(es) ==> Deadline in es || Abort in es
  {
  }

  /** The other events leave the kill alone, while the command does not settle. */
  lemma SameKill(m: Machine, e: Event)
    requires !m.settled && !(e.Deadline? || e.Abort? || e.KillGrace?)
    ensures var m' := if m.Enabled(e) then m.Step(e) else m;
      !m'.settled ==>
        && m'.timedOut == m.timedOut && m'.aborted == m.aborted && m'.deadline == m.deadline
        && m'.listening == m.listening && m'.kill == m.kill && m'.sent == m.sent
  {
    hide Machine.FinishAfterProcessEvents;
    match e
    case Exit(s) => FinishKeeps(m.(exitResult := Some(s), exits := m.exits + [s]));
    case Close(s) => FinishKeeps(m.(closeResult := Some(s), closes := m.closes + [s]));
    case StdinDone => FinishKeeps(m.(stdinDone := true));
    case _ =>
  }

  lemma FinishEnds(m: Machine)
    ensures var m' := m.FinishAfterProcessEvents();
      && m' == m.(scheduled := m'.scheduled, drain := m'.drain, immediate := m'.immediate)
      && (m.exitResult.Some? && m.closeResult.Some? && m.stdinDone && !m.scheduled ==>
            m'.scheduled && m'.immediate == m.exitResult && m'.drain == m.drain.Clear())
      && (m.exitResult.Some? && m.closeResult.Some? && m.stdinDone && m.scheduled ==> m' == m)
      && (!(m.exitResult.Some? && m.closeResult.Some? && m.stdinDone) && (m.exitResult.Some? || m.closeResult.Some?) ==>
            m' == m.(drain := m.drain.SetOnce()))
      && (m.exitResult.None? && m.closeResult.None? ==> m' == m)
  {
  }

  /** An end is noted: `n` is the state with it, before the check whether all have come. */
  lemma EndNoted(m: Machine, n: Machine, piped: bool, es: seq<Event>, e: Event)
    requires !m.settled && Ending(m, piped, es)
    requires n == m.(exitResult := n.exitResult, closeResult := n.closeResult, stdinDone := n.stdinDone,
                     exits := n.exits, closes := n.closes)
    requires n.exitResult == (if e.Exit? then Some(e.exit) else m.exitResult)
    requires n.closeResult == (if e.Close? then Some(e.close) else m.closeResult)
    requires n.stdinDone == (m.stdinDone || e.StdinDone?)
    requires e.Exit? || e.Close? || e.StdinDone?
    ensures Ending(n.FinishAfterProcessEvents(), piped, es + [e])
  {
    hide SawExit, SawClose, SawError, LastExit, LastClose, ExitAtEnds, Machine.FinishAfterProcessEvents, Timer.Clear, Timer.SetOnce;
    SawMore(piped, es, e);
    FinishEnds(n);
    TimerFacts(n.drain);
    if n.exitResult.Some? {
      LastExitMore(es, e, n.exitResult.value);
      ExitAtEndsMore(piped, es, e, n.exitResult.value);
    }
    if n.closeResult.Some? {
      LastCloseMore(es, e, n.closeResult.value);
    }
    if m.immediate.Some? {
      ExitAtEndsMore(piped, es, e, m.immediate.value);
    }
  }

  lemma TimerFacts(t: Timer)
    ensures !t.Clear().Pending? && (t.Clear().Fired? <==> t.Fired?) && (t.Clear().Unset? <==> t.Unset?)
    ensures (t.SetOnce().Pending? <==> t.Unset? || t.Pending?) && (t.SetOnce().Fired? <==> t.Fired?) && !t.SetOnce().Unset?
  {
  }

  /** An event that is no end changes nothing of the ends. */
  lemma NoEndNoted(m: Machine, piped: bool, es: seq<Event>, e: Event)
    requires Ending(m, piped, es) && !(e.Exit? || e.Close? || e.StdinDone? || e.Error?)
    ensures Ending(m, piped, es + [e])
  {
    hide SawExit, SawClose, SawError, LastExit, LastClose, ExitAtEnds;
    SawMore(piped, es, e);
    if m.exitResult.Some? {
      LastExitMore(es, e, m.exitResult.value);
    }
    if m.closeResult.Some? {
      LastCloseMore(es, e, m.closeResult.value);
    }
    if m.immediate.Some? {
      ExitAtEndsMore(piped, es, e, m.immediate.value);
    }
  }

  lemma EndingMore(m: Machine, piped: bool, es: seq<Event>, e: Event)
    requires !m.settled && Ending(m, piped, es)
    ensures var m' := if m.Enabled(e) then m.Step(e) else m; !m'.settled ==> Ending(m', piped, es + [e])
  {
    match e
    case Exit(s) => EndNoted(m, m.(exitResult := Some(s), exits := m.exits + [s]), piped, es, e);
    case Close(s) => EndNoted(m, m.(closeResult := Some(s), closes := m.closes + [s]), piped, es, e);
    case StdinDone => EndNoted(m, m.(stdinDone := true), piped, es, e);
    case Error(_) => 
    case _ =>
      NoEndNoted(m, piped, es, e);
      SameEnds(m, piped, es + [e], e);
  }

  lemma SameEnds(m: Machine, piped: bool, es: seq<Event>, e: Event)
    requires !m.settled && Ending(m, piped, es) && !(e.Exit? || e.Close? || e.StdinDone? || e.Error?)
    ensures var m' := if m.Enabled(e) then m.Step(e) else m; !m'.settled ==> Ending(m', piped, es)
  {
    hide *;
    OtherFields(m, e);
    var m' := if m.Enabled(e) then m.Step(e) else m;
    if !m'.settled {
      EndingOf(m, m', piped, es);
    }
  }

  lemma OtherFields(m: Machine, e: Event)
    requires !m.settled && !(e.Exit? || e.Close? || e.StdinDone? || e.Error?)
    ensures var m' := if m.Enabled(e) then m.Step(e) else m;
      !m'.settled ==>
        && m'.exitResult == m.exitResult && m'.closeResult == m.closeResult && m'.stdinDone == m.stdinDone
        && m'.scheduled == m.scheduled && m'.immediate == m.immediate && m'.drain == m.drain
        && m'.spawnError == m.spawnError && m'.outcome == m.outcome
  {
    hide Machine.FinishAfterProcessEvents;
  }

  lemma EndingOf(m: Machine, n: Machine, piped: bool, es: seq<Event>)
    requires Ending(m, piped, es)
    requires n.exitResult == m.exitResult && n.closeResult == m.closeResult && n.stdinDone == m.stdinDone
    requires n.scheduled == m.scheduled && n.immediate == m.immediate && n.drain == m.drain
    requires n.spawnError == m.spawnError && n.outcome == m.outcome
    ensures Ending(n, piped, es)
  {
    hide SawExit, SawClose, SawError, LastExit, LastClose, ExitAtEnds, AllEnds;
  }

  /** Until it settles, the state of a command is what its events show. */
  lemma {:induction false} Unsettled(piped: bool, es: seq<Event>)
    ensures var m := Run(Spawned(piped), es); !m.settled ==> Killing(m, es) && Ending(m, piped, es)
  {
    if es == [] {
      Unspent(piped);
    } else {
      hide Killing, Ending, Machine.Step, Machine.Enabled;
      var n := |es| - 1;
      var m := Run(Spawned(piped), es[..n]);
      assert es == es[..n] + [es[n]];
      Unsettled(piped, es[..n]);
      if m.settled {
        RunKeepsInv(piped, es[..n]);
        StaysSettled(m, es[n]);
      } else {
        KillingMore(m, es[..n], es[n]);
        EndingMore(m, piped, es[..n], es[n]);
      }
    }
  }

  lemma Unspent(piped: bool)
    ensures Killing(Spawned(piped), []) && Ending(Spawned(piped), piped, [])
  {
  }

  lemma StaysSettled(m: Machine, e: Event)
    requires m.settled && Inv(m)
    ensures (if m.Enabled(e) then m.Step(e) else m).settled
  {
    hide Machine.Step, Machine.Enabled, Concluded, SignalsInOrder;
    if m.Enabled(e) {
      SettledStays(m, e);
    }
  }

  // When a command settles, and with what.

  /** Event `k` settles a command that has not settled yet: a spawn error, the drain's end, or the last end's turn. */
  ghost predicate Settles(piped: bool, es: seq<Event>, k: nat)
    requires k < |es|
  {
    || es[k].Error?
    || (es[k] == Drain && (SawExit(es[..k]) || SawClose(es[..k])) && !AllEnds(piped, es[..k]))
    || (es[k] == Immediate && AllEnds(piped, es[..k]))
  }

  /** The status that event `k` settles with. */
  ghost predicate Tells(piped: bool, es: seq<Event>, k: nat, s: Status)
    requires k < |es|
  {
    match es[k]
    case Error(_) => s == Status(None, None)
    case Drain => if SawExit(es[..k]) then LastExit(es[..k], s) else LastClose(es[..k], s)
    case _ => ExitAtEnds(piped, es[..k], s)
  }

  /** The outcome of a command that event `k` settles. */
  ghost predicate OutcomeAt(piped: bool, es: seq<Event>, k: nat, r: Result)
    requires k < |es|
  {
    && Tells(piped, es, k, r.status)
    && (r.timedOut <==> Deadline in es[..k]) && (r.aborted <==> Abort in es[..k])
    && r.spawnError == (if es[k].Error? then Some(es[k].message) else None)
  }

  lemma SettlesNow(piped: bool, es: seq<Event>, k: nat)
    requires k < |es| && !Run(Spawned(piped), es[..k]).settled
    ensures var m := Run(Spawned(piped), es[..k + 1]);
      && (m.settled <==> Settles(piped, es, k))
      && (m.settled ==> m.outcome.Some? && OutcomeAt(piped, es, k, m.outcome.value))
  {
    hide GraceRan, SawExit, SawClose, SawError, LastExit, LastClose, ExitAtEnds, AllEnds, Run;
    Unsettled(piped, es[..k]);
    RunNext(Spawned(piped), es, k);
    var m := Run(Spawned(piped), es[..k]);
    EnabledThen(m, piped, es, k);
  }

  lemma RunNext(m: Machine, es: seq<Event>, k: nat)
    requires k < |es|
    ensures var n := Run(m, es[..k]); Run(m, es[..k + 1]) == if n.Enabled(es[k]) then n.Step(es[k]) else n
  {
    hide Machine.Step, Machine.Enabled;
    assert es[..k + 1][..k] == es[..k];
  }

  lemma EnabledThen(m: Machine, piped: bool, es: seq<Event>, k: nat)
    requires k < |es| && !m.settled && Killing(m, es[..k]) && Ending(m, piped, es[..k])
    ensures var m' := if m.Enabled(es[k]) then m.Step(es[k]) else m;
      && (m'.settled <==> Settles(piped, es, k))
      && (m'.settled ==> m'.outcome.Some? && OutcomeAt(piped, es, k, m'.outcome.value))
  {
    hide GraceRan, SawExit, SawClose, SawError, LastExit, LastClose, ExitAtEnds, AllEnds, Machine.FinishAfterProcessEvents;
    match es[k]
    case Error(message) =>
    case Drain =>
    case Immediate =>
    case _ => NotSettled(m, es[k]);
  }

  lemma NotSettled(m: Machine, e: Event)
    requires !m.settled && !(e.Error? || e.Drain? || e.Immediate?)
    ensures !(if m.Enabled(e) then m.Step(e) else m).settled
  {
    hide Machine.FinishAfterProcessEvents;
    match e
    case Exit(s) => FinishKeeps(m.(exitResult := Some(s), exits := m.exits + [s]));
    case Close(s) => FinishKeeps(m.(closeResult := Some(s), closes := m.closes + [s]));
    case StdinDone => FinishKeeps(m.(stdinDone := true));
    case _ =>
  }

  /**
   * The whole outcome, from the events alone: a command settles exactly when some event settles it, and the
   * first that does gives its outcome, which no later event changes.
   */
  lemma OutcomeFromEvents(piped: bool, es: seq<Event>)
    ensures Run(Spawned(piped), es).settled <==> exists k :: 0 <= k < |es| && Settles(piped, es, k)
    ensures forall k :: 0 <= k < |es| && Settles(piped, es, k) && (forall j :: 0 <= j < k ==> !Settles(piped, es, j)) ==>
      var m := Run(Spawned(piped), es); m.outcome.Some? && OutcomeAt(piped, es, k, m.outcome.value)
  {
    hide Settles, OutcomeAt, Run;
    if k :| 0 <= k < |es| && Settles(piped, es, k) {
      var first := FirstSettling(piped, es, k);
      FirstDecides(piped, es, first);
    } else {
      NotBefore(piped, es, |es|);
      assert es[..|es|] == es;
    }
    forall k | 0 <= k < |es| && Settles(piped, es, k) && (forall j :: 0 <= j < k ==> !Settles(piped, es, j))
      ensures Run(Spawned(piped), es).outcome.Some? && OutcomeAt(piped, es, k, Run(Spawned(piped), es).outcome.value)
    {
      FirstDecides(piped, es, k);
    }
  }

  lemma FirstDecides(piped: bool, es: seq<Event>, first: nat)
    requires first < |es| && Settles(piped, es, first) && forall j :: 0 <= j < first ==> !Settles(piped, es, j)
    ensures var m := Run(Spawned(piped), es); m.settled && m.outcome.Some? && OutcomeAt(piped, es, first, m.outcome.value)
  {
    hide Settles, OutcomeAt, Run;
    NotBefore(piped, es, first);
    SettlesNow(piped, es, first);
    assert es == es[..first + 1] + es[first + 1..];
    SettlesOnce(piped, es[..first + 1], es[first + 1..]);
  }

  lemma {:induction false} NotBefore(piped: bool, es: seq<Event>, k: nat)
    requires k <= |es| && forall j :: 0 <= j < k ==> !Settles(piped, es, j)
    ensures !Run(Spawned(piped), es[..k]).settled
  {
    hide Settles, OutcomeAt;
    if k > 0 {
      NotBefore(piped, es, k - 1);
      SettlesNow(piped, es, k - 1);
    }
  }

  lemma {:induction false} FirstSettling(piped: bool, es: seq<Event>, k: nat) returns (first: nat)
    requires k < |es| && Settles(piped, es, k)
    ensures first <= k && Settles(piped, es, first) && forall j :: 0 <= j < first ==> !Settles(piped, es, j)
  {
    hide Settles;
    first := k;
    if j :| 0 <= j < k && Settles(piped, es, j) {
      first := FirstSettling(piped, es, j);
    }
  }

  /** Until it settles, a command has been aborted, or timed out, or signalled exactly as its events show. */
  lemma SignalsFromEvents(piped: bool, es: seq<Event>)
    requires forall k :: 0 <= k < |es| ==> !Settles(piped, es, k)
    ensures var m := Run(Spawned(piped), es);
      && (m.aborted <==> Abort in es) && (m.timedOut <==> Deadline in es)
      && multiset(m.sent)[SIGTERM] == (if Deadline in es then 1 else 0) + (if Abort in es then 1 else 0)
      && multiset(m.sent)[SIGKILL] == if GraceRan(es) then 1 else 0
  {
    hide Settles, Run, GraceRan, Ending;
    NotBefore(piped, es, |es|);
    assert es[..|es|] == es;
    Unsettled(piped, es);
  }
}
