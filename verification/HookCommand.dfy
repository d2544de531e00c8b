/** One hook command, from its spawn to its settlement, under every order of its events. */
module HookCommand {
  import opened Common

  datatype Signal = SIGTERM | SIGKILL

  // An exit code and a signal name, as the process events report them.
  datatype Status = Status(code: Option<int>, signal: Option<string>)

  datatype Result = Result(status: Status, timedOut: bool, aborted: bool, spawnError: Option<string>)

  // A timer handle: never set, waiting, run, or cleared while waiting.
  datatype Timer = Unset | Pending | Fired | Cleared {
    function Clear(): Timer {
      if Pending? then Cleared else this
    }

    function SetOnce(): Timer {
      if Unset? then Pending else this
    }
  }

  datatype Event =
    | Deadline | KillGrace | Abort
    | Error(message: string) | Exit(exit: Status) | Close(close: Status) | StdinDone
    | Drain | Immediate

  const NOTHING := Status(None, None)

  // The variables of a running command; `sent`, `outcome`, `exits` and `closes` record what it has
  // done and what it saw before it settled.
  datatype Machine = Machine(
    settled: bool, timedOut: bool, aborted: bool, spawnError: Option<string>,
    deadline: Timer, kill: Timer, drain: Timer, immediate: Option<Status>, listening: bool,
    exitResult: Option<Status>, closeResult: Option<Status>, stdinDone: bool, scheduled: bool,
    sent: seq<Signal>, outcome: Option<Result>, exits: seq<Status>, closes: seq<Status>)
  {
    /** The events that can happen: a timer must be waiting, and an abort needs its listener. */
    predicate Enabled(e: Event) {
      match e
      case Deadline => deadline.Pending?
      case KillGrace => kill.Pending?
      case Abort => listening
      case Drain => drain.Pending?
      case Immediate => immediate.Some?
      case _ => true
    }

    function StartKill(): Machine {
      this.(sent := sent + [SIGTERM], kill := kill.SetOnce())
    }

    function Settle(status: Status): Machine {
      if settled then this
      else ClearTimers().(settled := true, listening := false, outcome := Some(Result(status, timedOut, aborted, spawnError)))
    }

    function ClearTimers(): Machine {
      this.(deadline := deadline.Clear(), kill := kill.Clear(), drain := drain.Clear())
    }

    function FinishAfterProcessEvents(): Machine {
      if exitResult.Some? && closeResult.Some? && stdinDone then
        if scheduled then this
        else this.(scheduled := true, drain := drain.Clear(), immediate := exitResult)
      else if exitResult.None? && closeResult.None? then this
      else this.(drain := drain.SetOnce())
    }

    function Step(e: Event): Machine
      requires Enabled(e)
    {
      match e
      case Deadline => this.(deadline := Fired, timedOut := true).StartKill()
      case KillGrace => this.(kill := Fired, sent := sent + [SIGKILL])
      case Abort => this.(listening := false, aborted := true).StartKill()
      case Error(message) => this.(spawnError := Some(message)).Settle(NOTHING)
      case Exit(s) =>
        this.(exitResult := Some(s), exits := if settled then exits else exits + [s]).FinishAfterProcessEvents()
      case Close(s) =>
        this.(closeResult := Some(s), closes := if settled then closes else closes + [s]).FinishAfterProcessEvents()
      case StdinDone => this.(stdinDone := true).FinishAfterProcessEvents()
      case Drain =>
        this.(drain := Fired).Settle(
          if exitResult.Some? then exitResult.value else if closeResult.Some? then closeResult.value else NOTHING)
      case Immediate => this.(immediate := None).Settle(immediate.value)
    }
  }

  /** A spawned command that has seen no event; `piped` says whether the child has a stdin stream. */
  function Spawned(piped: bool): Machine {
    Machine(false, false, false, None, Pending, Unset, Unset, None, true, None, None, !piped, false,
            [], None, [], [])
  }

  /** A termination signal comes first, and at most one forced kill follows. */
  ghost predicate Ordered(sent: seq<Signal>, killed: bool) {
    && (sent != [] ==> sent[0] == SIGTERM)
    && (forall i, j :: 0 <= i < j < |sent| ==> !(sent[i] == SIGKILL && sent[j] == SIGKILL))
    && (SIGKILL in sent <==> killed)
  }

  /** The forced kill comes when the grace has run out, and signals come only after a timeout or an abort. */
  ghost predicate SignalsInOrder(m: Machine) {
    && Ordered(m.sent, m.kill.Fired?)
    && (m.kill.Unset? <==> m.sent == [])
    && (m.timedOut || m.aborted <==> m.sent != [])
  }

  /** Until the command settles, its deadline stands or has run, and a seen exit or close will settle it. */
  ghost predicate Progressing(m: Machine) {
    && (m.deadline.Pending? || (m.deadline.Fired? && m.timedOut))
    && !m.kill.Cleared?
    && (m.exitResult.Some? || m.closeResult.Some? ==> m.drain.Pending? || m.immediate.Some?)
    && (m.scheduled <==> m.immediate.Some?)
    && (m.scheduled ==> m.exitResult.Some? && m.closeResult.Some? && m.stdinDone)
    && (m.drain.Fired? || m.drain.Cleared? ==> m.scheduled)
    && (m.exitResult.Some? <==> m.exits != [])
    && (m.closeResult.Some? <==> m.closes != [])
    && (m.exitResult.Some? ==> m.exitResult.value in m.exits)
    && (m.closeResult.Some? ==> m.closeResult.value in m.closes)
    && (m.immediate.Some? ==> m.immediate.value in m.exits)
    && (m.drain.Pending? ==> m.exitResult.Some? || m.closeResult.Some?)
    && m.outcome.None? && m.spawnError.None?
  }

  /** After settlement no signal can follow, and the outcome tells what was seen. */
  ghost predicate Concluded(m: Machine) {
    && m.outcome.Some?
    && !m.deadline.Pending? && !m.kill.Pending? && !m.listening
    && var r := m.outcome.value;
      && r.timedOut == m.timedOut && r.aborted == m.aborted
      && (r.spawnError.Some? ==> r.status == NOTHING)
      && (r.spawnError.None? ==> r.status in if m.exits != [] then m.exits else m.closes)
  }

  ghost predicate Inv(m: Machine) {
    SignalsInOrder(m) && if m.settled then Concluded(m) else Progressing(m)
  }

  lemma SignalKeepsInv(m: Machine, e: Event)
    requires Inv(m) && m.Enabled(e) && (e.Deadline? || e.KillGrace? || e.Abort?)
    ensures Inv(m.Step(e)) && !m.settled && !m.Step(e).settled
  {
    assert !m.settled;
  }

  lemma FinishKeeps(m: Machine)
    ensures var m' := m.FinishAfterProcessEvents();
      m' == m.(scheduled := m'.scheduled, drain := m'.drain, immediate := m'.immediate)
  {
  }

  lemma ProcessKeepsSignals(m: Machine, e: Event)
    requires SignalsInOrder(m) && m.Enabled(e) && !(e.Deadline? || e.KillGrace? || e.Abort?)
    ensures SignalsInOrder(m.Step(e))
  {
    hide Ordered, Machine.FinishAfterProcessEvents;
    match e
    case Exit(s) => FinishKeeps(m.(exitResult := Some(s), exits := if m.settled then m.exits else m.exits + [s]));
    case Close(s) => FinishKeeps(m.(closeResult := Some(s), closes := if m.settled then m.closes else m.closes + [s]));
    case StdinDone => FinishKeeps(m.(stdinDone := true));
    case _ =>
  }

  lemma ExitKeepsProgress(m: Machine, s: Status)
    requires !m.settled && Progressing(m)
    ensures !m.Step(Exit(s)).settled && Progressing(m.Step(Exit(s)))
  {
    assert (m.exits + [s])[|m.exits|] == s;
  }

  lemma CloseKeepsProgress(m: Machine, s: Status)
    requires !m.settled && Progressing(m)
    ensures !m.Step(Close(s)).settled && Progressing(m.Step(Close(s)))
  {
    assert (m.closes + [s])[|m.closes|] == s;
  }

  lemma StdinKeepsProgress(m: Machine)
    requires !m.settled && Progressing(m)
    ensures !m.Step(StdinDone).settled && Progressing(m.Step(StdinDone))
  {
  }

  lemma SettlingConcludes(m: Machine, e: Event)
    requires Inv(m) && m.Enabled(e) && !m.settled && (e.Error? || e.Drain? || e.Immediate?)
    ensures m.Step(e).settled && Concluded(m.Step(e))
  {
    hide SignalsInOrder;
  }

  lemma SettledStays(m: Machine, e: Event)
    requires m.settled && Concluded(m) && m.Enabled(e)
    ensures m.Step(e).settled && Concluded(m.Step(e))
    ensures m.Step(e).outcome == m.outcome && m.Step(e).sent == m.sent
  {
    hide Ordered, Machine.FinishAfterProcessEvents;
    match e
    case Exit(s) => FinishKeeps(m.(exitResult := Some(s)));
    case Close(s) => FinishKeeps(m.(closeResult := Some(s)));
    case StdinDone => FinishKeeps(m.(stdinDone := true));
    case _ =>
  }

  lemma StepKeepsInv(m: Machine, e: Event)
    requires Inv(m) && m.Enabled(e)
    ensures Inv(m.Step(e))
  {
    hide SignalsInOrder, Progressing, Concluded, Machine.Step, Machine.Enabled;
    if e.Deadline? || e.KillGrace? || e.Abort? {
      SignalKeepsInv(m, e);
    } else {
      ProcessKeepsSignals(m, e);
      if m.settled {
        SettledStays(m, e);
      } else {
        match e
        case Exit(s) => ExitKeepsProgress(m, s);
        case Close(s) => CloseKeepsProgress(m, s);
        case StdinDone => StdinKeepsProgress(m);
        case _ => SettlingConcludes(m, e);
      }
    }
  }

  /** Plays the events that can happen when their turn comes; an event that cannot is no event. */
  ghost function Run(m: Machine, es: seq<Event>): Machine {
    if es == [] then m
    else
      var m' := Run(m, es[..|es| - 1]);
      var e := es[|es| - 1];
      if m'.Enabled(e) then m'.Step(e) else m'
  }

  lemma {:induction false} RunKeepsInv(piped: bool, es: seq<Event>)
    ensures Inv(Run(Spawned(piped), es))
  {
    hide Machine.Step, Machine.Enabled;
    if es != [] {
      RunKeepsInv(piped, es[..|es| - 1]);
      var m := Run(Spawned(piped), es[..|es| - 1]);
      if m.Enabled(es[|es| - 1]) {
        StepKeepsInv(m, es[|es| - 1]);
      }
    }
  }

  /** A run settles at most once: once there is an outcome, no later event changes it or sends a signal. */
  lemma {:induction false} SettlesOnce(piped: bool, es: seq<Event>, more: seq<Event>)
    requires Run(Spawned(piped), es).settled
    ensures var m, m' := Run(Spawned(piped), es), Run(Spawned(piped), es + more);
      m'.settled && m'.outcome == m.outcome && m'.sent == m.sent
  {
    hide Machine.Step, Machine.Enabled, SignalsInOrder, Concluded, Progressing;
    if more == [] {
      assert es + more == es;
    } else {
      var n := |more| - 1;
      SettlesOnce(piped, es, more[..n]);
      RunKeepsInv(piped, es + more[..n]);
      assert (es + more)[..|es + more| - 1] == es + more[..n];
      var m := Run(Spawned(piped), es + more[..n]);
      if m.Enabled(more[n]) {
        SettledStays(m, more[n]);
      }
    }
  }

  /** In every run, signals come in order, and the outcome reports what was seen before it. */
  lemma OutcomeIsTrue(piped: bool, es: seq<Event>)
    ensures var m := Run(Spawned(piped), es);
      && SignalsInOrder(m)
      && (m.settled <==> m.outcome.Some?)
      && (m.settled ==> Concluded(m))
  {
    RunKeepsInv(piped, es);
  }

  /** Once an exit or a close is seen, an unsettled command has a timer waiting that settles it at once. */
  lemma SeenExitSettles(piped: bool, es: seq<Event>)
    ensures var m := Run(Spawned(piped), es);
      !m.settled && (m.exitResult.Some? || m.closeResult.Some?) ==>
        && (m.Enabled(Drain) || m.Enabled(Immediate))
        && (m.Enabled(Drain) ==> m.Step(Drain).settled)
        && (m.Enabled(Immediate) ==> m.Step(Immediate).settled)
  {
    RunKeepsInv(piped, es);
  }

  /** A command left unsettled with nothing waiting was killed by force, and its end was never reported. */
  lemma SilenceMeansKilled(piped: bool, es: seq<Event>)
    ensures var m := Run(Spawned(piped), es);
      !m.settled && !m.deadline.Pending? && !m.kill.Pending? && !m.drain.Pending? && m.immediate.None? ==>
        && m.timedOut && SIGTERM in m.sent && SIGKILL in m.sent
        && m.exitResult.None? && m.closeResult.None?
  {
    RunKeepsInv(piped, es);
  }

  /** The running command with its variables in place: one method for each callback. */
  class Command {
    var settled: bool
    var timedOut: bool
    var aborted: bool
    var spawnError: Option<string>
    var deadline: Timer
    var kill: Timer
    var drain: Timer
    var immediate: Option<Status>
    var listening: bool
    var exitResult: Option<Status>
    var closeResult: Option<Status>
    var stdinDone: bool
    var scheduled: bool
    var outcome: Option<Result>
    ghost var sent: seq<Signal>
    ghost var exits: seq<Status>
    ghost var closes: seq<Status>

    ghost function Now(): Machine
      reads this
    {
      Machine(settled, timedOut, aborted, spawnError, deadline, kill, drain, immediate, listening,
              exitResult, closeResult, stdinDone, scheduled, sent, outcome, exits, closes)
    }

    constructor (piped: bool)
      ensures Now() == Spawned(piped) && Inv(Now())
    {
      settled, timedOut, aborted, spawnError := false, false, false, None;
      deadline, kill, drain, immediate, listening := Pending, Unset, Unset, None, true;
      exitResult, closeResult, stdinDone, scheduled := None, None, !piped, false;
      outcome, sent, exits, closes := None, [], [], [];
    }

    method KillAll(signal: Signal)
      modifies this`sent
      ensures Now() == old(Now()).(sent := old(sent) + [signal])
    {
      sent := sent + [signal];
    }

    method StartKill()
      modifies this`sent, this`kill
      ensures Now() == old(Now()).StartKill()
      ensures sent == old(sent) + [SIGTERM] && kill == if old(kill).Unset? then Pending else old(kill)
    {
      KillAll(SIGTERM);
      if kill.Unset? {
        kill := Pending;
      }
    }

    method ClearTimers()
      modifies this`deadline, this`kill, this`drain
      ensures Now() == old(Now()).ClearTimers()
    {
      hide Timer.Clear;
      deadline := deadline.Clear();
      kill := kill.Clear();
      drain := drain.Clear();
    }

    method Settle(status: Status)
      modifies this`settled, this`deadline, this`kill, this`drain, this`listening, this`outcome
      ensures Now() == old(Now()).Settle(status)
      ensures settled && outcome == if old(settled) then old(outcome) else Some(Result(status, timedOut, aborted, spawnError))
    {
      hide Timer.Clear;
      if settled {
        return;
      }
      settled := true;
      ClearTimers();
      listening := false;
      outcome := Some(Result(status, timedOut, aborted, spawnError));
    }

    method FinishAfterProcessEvents()
      modifies this`scheduled, this`drain, this`immediate
      ensures Now() == old(Now()).FinishAfterProcessEvents()
    {
      if exitResult.Some? && closeResult.Some? && stdinDone {
        if scheduled {
          return;
        }
        scheduled := true;
        drain := drain.Clear();
        immediate := exitResult;
        return;
      }
      if exitResult.None? && closeResult.None? {
        return;
      }
      if drain.Unset? {
        drain := Pending;
      }
    }

    method OnDeadline()
      requires Inv(Now()) && deadline.Pending?
      modifies this
      ensures Now() == old(Now()).Step(Deadline) && Inv(Now())
      ensures timedOut && aborted == old(aborted) && !deadline.Pending? && sent == old(sent) + [SIGTERM]
      ensures kill == if old(kill).Unset? then Pending else old(kill)
    {
      hide Inv, Machine.StartKill, Machine.Settle, Machine.FinishAfterProcessEvents;
      StepKeepsInv(Now(), Deadline);
      deadline := Fired;
      timedOut := true;
      StartKill();
    }

    method OnKillGrace()
      requires Inv(Now()) && kill.Pending?
      modifies this
      ensures Now() == old(Now()).Step(KillGrace) && Inv(Now())
      ensures sent == old(sent) + [SIGKILL] && kill == Fired && timedOut == old(timedOut) && aborted == old(aborted)
    {
      hide Inv, Machine.StartKill, Machine.Settle, Machine.FinishAfterProcessEvents;
      StepKeepsInv(Now(), KillGrace);
      kill := Fired;
      KillAll(SIGKILL);
    }

    method OnAbort()
      requires Inv(Now()) && listening
      modifies this
      ensures Now() == old(Now()).Step(Abort) && Inv(Now())
      ensures aborted && timedOut == old(timedOut) && !listening && sent == old(sent) + [SIGTERM]
      ensures kill == if old(kill).Unset? then Pending else old(kill)
    {
      hide Inv, Machine.StartKill, Machine.Settle, Machine.FinishAfterProcessEvents;
      StepKeepsInv(Now(), Abort);
      listening := false;
      aborted := true;
      StartKill();
    }

    method OnError(message: string)
      requires Inv(Now())
      modifies this
      ensures Now() == old(Now()).Step(Error(message)) && Inv(Now())
      ensures !old(settled) ==> outcome == Some(Result(NOTHING, timedOut, aborted, Some(message)))
    {
      hide Inv, Machine.StartKill, Machine.Settle, Machine.FinishAfterProcessEvents;
      StepKeepsInv(Now(), Error(message));
      spawnError := Some(message);
      Settle(NOTHING);
    }

    method OnExit(status: Status)
      requires Inv(Now())
      modifies this
      ensures Now() == old(Now()).Step(Exit(status)) && Inv(Now())
      ensures exitResult == Some(status) && closeResult == old(closeResult) && outcome == old(outcome)
    {
      hide Inv, Machine.StartKill, Machine.Settle, Machine.FinishAfterProcessEvents;
      StepKeepsInv(Now(), Exit(status));
      exitResult := Some(status);
      exits := if settled then exits else exits + [status];
      assert Now() == old(Now()).(exitResult := Some(status), exits := exits);
      FinishAfterProcessEvents();
    }

    method OnClose(status: Status)
      requires Inv(Now())
      modifies this
      ensures Now() == old(Now()).Step(Close(status)) && Inv(Now())
      ensures closeResult == Some(status) && exitResult == old(exitResult) && outcome == old(outcome)
    {
      hide Inv, Machine.StartKill, Machine.Settle, Machine.FinishAfterProcessEvents;
      StepKeepsInv(Now(), Close(status));
      closeResult := Some(status);
      closes := if settled then closes else closes + [status];
      assert Now() == old(Now()).(closeResult := Some(status), closes := closes);
      FinishAfterProcessEvents();
    }

    method OnStdin()
      requires Inv(Now())
      modifies this
      ensures Now() == old(Now()).Step(StdinDone) && Inv(Now())
      ensures stdinDone && outcome == old(outcome)
    {
      hide Inv, Machine.StartKill, Machine.Settle, Machine.FinishAfterProcessEvents;
      StepKeepsInv(Now(), StdinDone);
      stdinDone := true;
      FinishAfterProcessEvents();
    }

    method OnDrain()
      requires Inv(Now()) && drain.Pending?
      modifies this
      ensures Now() == old(Now()).Step(Drain) && Inv(Now())
      ensures var s := if exitResult.Some? then exitResult.value else if closeResult.Some? then closeResult.value else NOTHING;
        !old(settled) ==> outcome == Some(Result(s, timedOut, aborted, spawnError))
    {
      hide Inv, Machine.StartKill, Machine.Settle, Machine.FinishAfterProcessEvents;
      StepKeepsInv(Now(), Drain);
      drain := Fired;
      assert Now() == old(Now()).(drain := Fired);
      var result := if exitResult.Some? then exitResult.value else if closeResult.Some? then closeResult.value else NOTHING;
      Settle(result);
    }

    method OnImmediate()
      requires Inv(Now()) && immediate.Some?
      modifies this
      ensures Now() == old(Now()).Step(Immediate) && Inv(Now())
      ensures outcome == if old(settled) then old(outcome) else Some(Result(old(immediate).value, timedOut, aborted, spawnError))
    {
      hide Inv, Machine.StartKill, Machine.Settle, Machine.FinishAfterProcessEvents;
      StepKeepsInv(Now(), Immediate);
      var status := immediate.value;
      immediate := None;
      Settle(status);
    }
  }

  // How a run begins: settled at once, or with a spawned child.
  datatype Start = Settled(result: Result) | Running(command: Command)

  /** Spawns the command unless the signal is already aborted; a spawn that throws is an ordinary outcome. */
  method RunHookCommand(alreadyAborted: bool, spawnThrows: Option<string>, piped: bool) returns (start: Start)
    ensures alreadyAborted ==> start == Settled(Result(NOTHING, false, true, None))
    ensures !alreadyAborted && spawnThrows.Some? ==> start == Settled(Result(NOTHING, false, false, spawnThrows))
    ensures !alreadyAborted && spawnThrows.None? ==>
              start.Running? && fresh(start.command) && start.command.Now() == Spawned(piped) && Inv(start.command.Now())
  {
    if alreadyAborted {
      return Settled(Result(NOTHING, false, true, None));
    }
    if spawnThrows.Some? {
      return Settled(Result(NOTHING, false, false, spawnThrows));
    }
    var command := new Command(piped);
    return Running(command);
  }

  ghost function Concat<T>(chunks: seq<seq<T>>): seq<T> {
    if chunks == [] then [] else Concat(chunks[..|chunks| - 1]) + chunks[|chunks| - 1]
  }

  /** Keeps the first `maxBytes` bytes of a stream and whether there were more. */
  class Collector<T> {
    const maxBytes: nat
    var chunks: seq<seq<T>>
    var size: nat
    var truncated: bool
    ghost var pushed: seq<T>

    /** The chunks hold the stream so far, cut at the cap; the mark says whether something was cut. */
    ghost predicate Valid()
      reads this
    {
      && truncated == (|pushed| > maxBytes)
      && Concat(chunks) == (if truncated then pushed[..maxBytes] else pushed)
      && size == |Concat(chunks)|
    }

    constructor (maxBytes: nat)
      ensures Valid() && pushed == [] && this.maxBytes == maxBytes
    {
      this.maxBytes := maxBytes;
      chunks, size, truncated, pushed := [], 0, false, [];
    }

    method Push(chunk: seq<T>)
      requires Valid()
      modifies this
      ensures Valid() && pushed == old(pushed) + chunk
    {
      pushed := pushed + chunk;
      if truncated {
        assert pushed[..maxBytes] == old(pushed)[..maxBytes];
        return;
      }
      if size + |chunk| > maxBytes {
        chunks := chunks + [chunk[..maxBytes - size]];
        assert chunks[..|chunks| - 1] == old(chunks);
        size := maxBytes;
        truncated := true;
        return;
      }
      chunks := chunks + [chunk];
      assert chunks[..|chunks| - 1] == old(chunks);
      size := size + |chunk|;
    }
  }
}
