/** The gate: hooks run in order, each on the arguments the earlier ones left, until one denies. */
module Gate {
  import opened Common
  import opened HookOutcome
  import opened Selections

  datatype GateVerdict =
    | GatePass | GateDeny(message: string) | GateAdvise(message: string)
    | GateRewrite(arguments: Fields, advice: Option<string>)

  // What a hook resolves to, given the replacement in force when it runs (none: the original arguments).
  type Resolver<!H> = (H, Option<Fields>) -> Outcome

  function Selected<H(!new)>(specs: seq<H>, fires: H -> bool): (r: seq<H>)
    ensures forall h :: h in r <==> h in specs && fires(h)
  {
    if specs == [] then []
    else
      assert specs == specs[..|specs| - 1] + [specs[|specs| - 1]];
      Selected(specs[..|specs| - 1], fires) + if fires(specs[|specs| - 1]) then [specs[|specs| - 1]] else []
  }

  /** The selected hooks are those that fire, each as often as it is listed, in the order of the list. */
  lemma {:induction false} SelectedPlaces<H(!new)>(specs: seq<H>, fires: H -> bool) returns (at: seq<nat>)
    ensures Picked(specs, fires, at) && Selected(specs, fires) == Listed(specs, at)
  {
    hide Picked;
    at := [];
    if specs == [] {
      NonePicked(specs, fires);
    } else {
      var n := |specs| - 1;
      var before := SelectedPlaces(specs[..n], fires);
      PickedMore(specs, fires, before);
      at := if fires(specs[n]) then before + [n] else before;
    }
  }

  /** The replacement in force before hook `i`: the last one an earlier hook asked for. */
  ghost function Before<H>(hooks: seq<H>, resolve: Resolver<H>, i: nat): Option<Fields>
    requires i <= |hooks|
    decreases i, 0
  {
    if i == 0 then None
    else match OutcomeAt(hooks, resolve, i - 1)
      case Rewrite(arguments, _) => Some(arguments)
      case _ => Before(hooks, resolve, i - 1)
  }

  /** What hook `i` resolves to, run on what the hooks before it left. */
  ghost function OutcomeAt<H>(hooks: seq<H>, resolve: Resolver<H>, i: nat): Outcome
    requires i < |hooks|
    decreases i, 1
  {
    resolve(hooks[i], Before(hooks, resolve, i))
  }

  /** The advice an outcome carries. */
  function AdviceOf(o: Outcome): seq<string> {
    match o
    case Advise(message) => [message]
    case Rewrite(_, Some(message)) => [message]
    case _ => []
  }

  ghost function AdviceBefore<H>(hooks: seq<H>, resolve: Resolver<H>, i: nat): seq<string>
    requires i <= |hooks|
  {
    if i == 0 then [] else AdviceBefore(hooks, resolve, i - 1) + AdviceOf(OutcomeAt(hooks, resolve, i - 1))
  }

  /** The verdict when nobody denies: the last replacement whole, and all advice in order. */
  function Compose(replaced: Option<Fields>, lines: seq<string>): GateVerdict {
    var message := JoinLines(lines);
    if replaced.Some? then GateRewrite(replaced.value, Advice(message))
    else if message == "" then GatePass
    else GateAdvise(message)
  }

  /** The outcome brings the line of advice. */
  predicate Brings(o: Outcome, line: string) {
    o == Advise(line) || (o.Rewrite? && o.advice == Some(line))
  }

  /** `lines` is the advice of the hooks at the places `at`, in order; no other of the first `n` hooks brings any. */
  ghost predicate AdviceAt<H>(hooks: seq<H>, resolve: Resolver<H>, n: nat, lines: seq<string>, at: seq<nat>)
    requires n <= |hooks|
  {
    && |at| == |lines|
    && (forall i, j :: 0 <= i < j < |at| ==> at[i] < at[j])
    && (forall i :: 0 <= i < |at| ==> at[i] < n && Brings(OutcomeAt(hooks, resolve, at[i]), lines[i]))
    && (forall k: nat, line {:trigger Brings(OutcomeAt(hooks, resolve, k), line)} ::
          k < n && Brings(OutcomeAt(hooks, resolve, k), line) ==> k in at)
  }

  /** What the gate answers when no hook denies: the last replacement whole, and the advice, line by line. */
  ghost predicate Composed<H>(hooks: seq<H>, resolve: Resolver<H>, lines: seq<string>, verdict: GateVerdict) {
    var text := JoinLines(lines);
    match verdict
    case GateDeny(_) => false
    case GateRewrite(arguments, advice) =>
      && advice == (if text == "" then None else Some(text))
      && exists j :: LastRewrite(hooks, resolve, |hooks|, j) && OutcomeAt(hooks, resolve, j).arguments == arguments
    case GateAdvise(message) => message == text != "" && NoRewrite(hooks, resolve)
    case GatePass => text == "" && NoRewrite(hooks, resolve)
  }

  ghost predicate NoRewrite<H>(hooks: seq<H>, resolve: Resolver<H>) {
    forall j :: 0 <= j < |hooks| ==> !OutcomeAt(hooks, resolve, j).Rewrite?
  }

  lemma {:induction false} AdviceBeforeAt<H>(hooks: seq<H>, resolve: Resolver<H>, n: nat) returns (at: seq<nat>)
    requires n <= |hooks|
    ensures AdviceAt(hooks, resolve, n, AdviceBefore(hooks, resolve, n), at)
  {
    hide AdviceAt, OutcomeAt, AdviceOf;
    at := [];
    if n == 0 {
      NoAdviceYet(hooks, resolve);
    } else {
      var before := AdviceBeforeAt(hooks, resolve, n - 1);
      AdviceMore(hooks, resolve, n - 1, AdviceBefore(hooks, resolve, n - 1), before);
      at := if AdviceOf(OutcomeAt(hooks, resolve, n - 1)) == [] then before else before + [n - 1];
    }
  }

  lemma NoAdviceYet<H>(hooks: seq<H>, resolve: Resolver<H>)
    ensures AdviceAt(hooks, resolve, 0, [], [])
  {
  }

  lemma AdviceBrings(o: Outcome)
    ensures AdviceOf(o) == [] ==> forall line :: !Brings(o, line)
    ensures AdviceOf(o) != [] ==> |AdviceOf(o)| == 1 && Brings(o, AdviceOf(o)[0])
  {
  }

  lemma AdviceMore<H>(hooks: seq<H>, resolve: Resolver<H>, n: nat, lines: seq<string>, at: seq<nat>)
    requires n < |hooks| && AdviceAt(hooks, resolve, n, lines, at)
    ensures var more := AdviceOf(OutcomeAt(hooks, resolve, n));
      AdviceAt(hooks, resolve, n + 1, lines + more, if more == [] then at else at + [n])
  {
    hide *;
    var more := AdviceOf(OutcomeAt(hooks, resolve, n));
    AdviceBrings(OutcomeAt(hooks, resolve, n));
    if more == [] {
      NoAdvice(hooks, resolve, n, lines, at);
      assert lines + more == lines;
    } else {
      OneAdvice(hooks, resolve, n, lines, at, more[0]);
      assert more == [more[0]];
    }
  }

  lemma NoAdvice<H>(hooks: seq<H>, resolve: Resolver<H>, n: nat, lines: seq<string>, at: seq<nat>)
    requires n < |hooks| && AdviceAt(hooks, resolve, n, lines, at)
    requires forall line :: !Brings(OutcomeAt(hooks, resolve, n), line)
    ensures AdviceAt(hooks, resolve, n + 1, lines, at)
  {
    hide OutcomeAt, Brings;
  }

  lemma OneAdvice<H>(hooks: seq<H>, resolve: Resolver<H>, n: nat, lines: seq<string>, at: seq<nat>, line: string)
    requires n < |hooks| && AdviceAt(hooks, resolve, n, lines, at) && Brings(OutcomeAt(hooks, resolve, n), line)
    ensures AdviceAt(hooks, resolve, n + 1, lines + [line], at + [n])
  {
    hide OutcomeAt, Brings;
    assert forall k: nat :: k in at + [n] <==> k in at || k == n;
  }

  /** Joining puts a newline between, wherever the lines are parted. */
  lemma {:induction false} JoinLinesParts(a: seq<string>, b: seq<string>)
    requires a != [] && b != []
    ensures JoinLines(a + b) == JoinLines(a) + "\n" + JoinLines(b)
  {
    var all, last := a + b, JoinLines(b);
    assert all[1..] == a[1..] + b && all[0] == a[0];
    assert JoinLines(all) == all[0] + "\n" + JoinLines(all[1..]);
    if |a| > 1 {
      JoinLinesParts(a[1..], b);
      var first := JoinLines(a[1..]);
      assert JoinLines(a) == a[0] + "\n" + first;
      hide JoinLines;
      assert a[0] + "\n" + (first + "\n" + last) == a[0] + "\n" + first + "\n" + last;
    } else {
      assert a[1..] + b == b;
    }
  }

  lemma JoinLinesFew(line: string)
    ensures JoinLines([]) == "" && JoinLines([line]) == line
  {
  }

  lemma ComposeIs<H>(hooks: seq<H>, resolve: Resolver<H>)
    ensures Composed(hooks, resolve, AdviceBefore(hooks, resolve, |hooks|),
                     Compose(Before(hooks, resolve, |hooks|), AdviceBefore(hooks, resolve, |hooks|)))
  {
    hide JoinLines, AdviceBefore;
    var replaced := Before(hooks, resolve, |hooks|);
    if replaced.Some? {
      BeforeIsLastRewrite(hooks, resolve, |hooks|, replaced.value);
    } else {
      NoneBefore(hooks, resolve, |hooks|);
    }
  }

  lemma {:induction false} NoneBefore<H>(hooks: seq<H>, resolve: Resolver<H>, i: nat)
    requires i <= |hooks| && Before(hooks, resolve, i) == None
    ensures forall j :: 0 <= j < i ==> !OutcomeAt(hooks, resolve, j).Rewrite?
  {
    if i > 0 {
      NoneBefore(hooks, resolve, i - 1);
    }
  }

  /**
   * The gate's answer for the hooks that are run: the message of the first denial, after which none is run; or,
   * with no denial, all are run and the answer is composed of what they ask for.
   */
  ghost predicate Judged<H>(hooks: seq<H>, resolve: Resolver<H>, verdict: GateVerdict, ran: nat) {
    if verdict.GateDeny? then
      && ran > 0 && FirstDenial(hooks, resolve, ran - 1)
      && OutcomeAt(hooks, resolve, ran - 1) == Deny(verdict.message)
    else
      && ran == |hooks| && (forall i :: 0 <= i < |hooks| ==> !OutcomeAt(hooks, resolve, i).Deny?)
      && exists lines, at :: AdviceAt(hooks, resolve, |hooks|, lines, at) && Composed(hooks, resolve, lines, verdict)
  }

  /** Hook `i` is the first to deny. */
  ghost predicate FirstDenial<H>(hooks: seq<H>, resolve: Resolver<H>, i: nat) {
    && i < |hooks| && OutcomeAt(hooks, resolve, i).Deny?
    && forall j :: 0 <= j < i ==> !OutcomeAt(hooks, resolve, j).Deny?
  }

  /**
   * Runs the hooks that fire on the original call. `ran` counts them: a denial is the last hook run, and
   * without one they all run.
   */
  method RunGate<H(!new)>(specs: seq<H>, fires: H -> bool, resolve: Resolver<H>) returns (verdict: GateVerdict, ran: nat)
    ensures exists at :: Picked(specs, fires, at) && Judged(Listed(specs, at), resolve, verdict, ran)
  {
    hide Compose, Composed, AdviceAt, AdviceOf;
    var hooks: seq<H>;
    hooks, verdict, ran := Fold(specs, fires, resolve);
    ghost var at := SelectedPlaces(specs, fires);
    if !verdict.GateDeny? {
      ghost var places := AdviceBeforeAt(hooks, resolve, ran);
      ComposeIs(hooks, resolve);
    }
    assert Picked(specs, fires, at) && Judged(Listed(specs, at), resolve, verdict, ran);
  }

  /** The loop over the selected hooks. */
  method Fold<H(!new)>(specs: seq<H>, fires: H -> bool, resolve: Resolver<H>)
    returns (hooks: seq<H>, verdict: GateVerdict, ran: nat)
    ensures hooks == Selected(specs, fires)
    ensures if verdict.GateDeny? then
        && ran > 0 && FirstDenial(hooks, resolve, ran - 1)
        && OutcomeAt(hooks, resolve, ran - 1) == Deny(verdict.message)
      else
        && ran == |hooks| && (forall i :: 0 <= i < |hooks| ==> !OutcomeAt(hooks, resolve, i).Deny?)
        && verdict == Compose(Before(hooks, resolve, ran), AdviceBefore(hooks, resolve, ran))
  {
    hooks := Selected(specs, fires);
    var advice: seq<string> := [];
    var replaced: Option<Fields> := None;
    ran := 0;
    for i := 0 to |hooks|
      invariant ran == i && replaced == Before(hooks, resolve, i) && advice == AdviceBefore(hooks, resolve, i)
      invariant forall j :: 0 <= j < i ==> !OutcomeAt(hooks, resolve, j).Deny?
    {
      var outcome := resolve(hooks[i], replaced);
      ran := ran + 1;
      match outcome {
        case Deny(message) => return hooks, GateDeny(message), ran;
        case Advise(message) => advice := advice + [message];
        case Rewrite(arguments, message) =>
          replaced := Some(arguments);
          if message.Some? {
            advice := advice + [message.value];
          }
        case _ =>
      }
    }
    var message := JoinLines(advice);
    if replaced.Some? {
      return hooks, GateRewrite(replaced.value, Advice(message)), ran;
    }
    return hooks, if message == "" then GatePass else GateAdvise(message), ran;
  }

  /** The replacement in force is one that an earlier hook asked for, with no later one in between. */
  lemma {:induction false} BeforeIsLastRewrite<H>(hooks: seq<H>, resolve: Resolver<H>, i: nat, arguments: Fields)
    requires i <= |hooks|
    ensures Before(hooks, resolve, i) == Some(arguments) <==>
      exists j :: 0 <= j < i && LastRewrite(hooks, resolve, i, j) && OutcomeAt(hooks, resolve, j).arguments == arguments
  {
    if i > 0 {
      var last := OutcomeAt(hooks, resolve, i - 1);
      if last.Rewrite? {
        assert LastRewrite(hooks, resolve, i, i - 1);
        assert forall j :: 0 <= j < i - 1 ==> !LastRewrite(hooks, resolve, i, j);
      } else {
        BeforeIsLastRewrite(hooks, resolve, i - 1, arguments);
        forall j | 0 <= j < i - 1
          ensures LastRewrite(hooks, resolve, i, j) <==> LastRewrite(hooks, resolve, i - 1, j)
        {
        }
        assert !LastRewrite(hooks, resolve, i, i - 1);
      }
    }
  }

  ghost predicate LastRewrite<H>(hooks: seq<H>, resolve: Resolver<H>, i: nat, j: nat)
    requires i <= |hooks|
    ensures LastRewrite(hooks, resolve, i, j) ==> j < i && OutcomeAt(hooks, resolve, j).Rewrite?
  {
    && j < i && OutcomeAt(hooks, resolve, j).Rewrite?
    && forall k :: j < k < i ==> !OutcomeAt(hooks, resolve, k).Rewrite?
  }

  // The configured hooks: a command, how it ends on given arguments, whether it runs in the background, and
  // its failure policy; or an MCP tool, and how its call ends. Failures of MCP hooks never block.
  datatype Hook =
    | CommandHook(ends: Option<Fields> -> Finished, background: bool, denyOnFailure: bool)
    | McpHook(calls: Option<Fields> -> McpCall)

  // The JSON reader and writer.
  datatype Codec = Codec(parse: string -> Option<Json>, stringify: Json -> Option<string>)

  /** What a hook resolves to at a gate; a command in the background is not waited for. */
  function HookResult(h: Hook, replaced: Option<Fields>, codec: Codec, inv: Invocation): Outcome {
    match h
    case CommandHook(ends, background, denyOnFailure) =>
      Resolve(if background then Decided(Pass) else Classify(ends(replaced), codec.parse, inv), denyOnFailure, inv)
    case McpHook(calls) => Resolve(ClassifyMcp(calls(replaced), codec.parse, codec.stringify, inv), false, inv)
  }

  function ResolveHook(codec: Codec, inv: Invocation): Resolver<Hook> {
    (h: Hook, replaced: Option<Fields>) => HookResult(h, replaced, codec, inv)
  }

  /** The hook, run on these arguments, says to block. */
  ghost predicate SaysBlock(h: Hook, replaced: Option<Fields>, codec: Codec) {
    match h
    case CommandHook(ends, _, _) => Blocks(ends(replaced), codec.parse)
    case McpHook(calls) => McpBlocks(calls(replaced), codec.parse, codec.stringify)
  }

  /** What the hook says is waited for, and nothing takes its place. */
  ghost predicate Heard(h: Hook, replaced: Option<Fields>, codec: Codec) {
    match h
    case CommandHook(ends, background, _) =>
      && !background && Undisturbed(ends(replaced))
      && (ExitsTwo(ends(replaced)) || OutputHeard(ends(replaced).stdout, codec.parse))
    case McpHook(_) => true
  }

  /** The hook fails, uncancelled, under a policy of denying on failure. */
  ghost predicate FailsClosed(h: Hook, replaced: Option<Fields>, codec: Codec, inv: Invocation) {
    && h.CommandHook? && !h.background && h.denyOnFailure
    && Classify(h.ends(replaced), codec.parse, inv).Failed? && !h.ends(replaced).aborted
  }

  /** At any gate, a hook denies exactly when it says to block and is heard, or fails closed. */
  lemma HookDeniesIff(h: Hook, replaced: Option<Fields>, codec: Codec, inv: Invocation)
    requires inv.gate
    ensures HookResult(h, replaced, codec, inv).Deny? <==>
            (SaysBlock(h, replaced, codec) && Heard(h, replaced, codec)) || FailsClosed(h, replaced, codec, inv)
  {
    hide Classify, ClassifyMcp, McpBlocks, OutputBlocks, OutputHeard, ExitsTwo, Undisturbed;
    match h
    case CommandHook(ends, background, denyOnFailure) =>
      if !background {
        DeniesIff(ends(replaced), codec.parse, denyOnFailure, inv);
      }
    case McpHook(calls) => McpDeniesIff(calls(replaced), codec.parse, codec.stringify, inv);
  }

  /** Run on the arguments the earlier hooks left, some hook denies. */
  ghost predicate SomeDenial<H(!new)>(hooks: seq<H>, resolve: Resolver<H>) {
    exists i :: FirstDenial(hooks, resolve, i)
  }

  /**
   * A gate stops the call exactly when some hook, on the arguments it is given, says to block and is heard,
   * or fails closed.
   */
  lemma GateStopsIff(hooks: seq<Hook>, codec: Codec, inv: Invocation)
    requires inv.gate
    ensures SomeDenial(hooks, ResolveHook(codec, inv)) <==>
      exists i :: 0 <= i < |hooks| &&
        var replaced := Before(hooks, ResolveHook(codec, inv), i);
        (SaysBlock(hooks[i], replaced, codec) && Heard(hooks[i], replaced, codec)) || FailsClosed(hooks[i], replaced, codec, inv)
  {
    hide SaysBlock, Heard, FailsClosed, HookResult;
    var resolve := ResolveHook(codec, inv);
    forall i | 0 <= i < |hooks|
      ensures var replaced := Before(hooks, resolve, i);
        OutcomeAt(hooks, resolve, i).Deny? <==>
        (SaysBlock(hooks[i], replaced, codec) && Heard(hooks[i], replaced, codec)) || FailsClosed(hooks[i], replaced, codec, inv)
    {
      HookDeniesIff(hooks[i], Before(hooks, resolve, i), codec, inv);
    }
    if i :| 0 <= i < |hooks| && OutcomeAt(hooks, resolve, i).Deny? {
      FirstOf(hooks, resolve, i);
    }
  }

  /** A command the gate does not wait for says to block in vain. */
  lemma BackgroundBlockPasses(late: Finished, codec: Codec, inv: Invocation, replaced: Option<Fields>)
    requires inv.gate && Blocks(late, codec.parse)
    ensures var h := CommandHook((_: Option<Fields>) => late, true, true);
      SaysBlock(h, replaced, codec) && HookResult(h, replaced, codec, inv) == Pass
  {
    hide Blocks;
  }

  lemma {:induction false} FirstOf<H>(hooks: seq<H>, resolve: Resolver<H>, i: nat)
    requires i < |hooks| && OutcomeAt(hooks, resolve, i).Deny?
    ensures exists j :: 0 <= j <= i && FirstDenial(hooks, resolve, j)
  {
    if j :| 0 <= j < i && OutcomeAt(hooks, resolve, j).Deny? {
      FirstOf(hooks, resolve, j);
    } else {
      assert FirstDenial(hooks, resolve, i);
    }
  }
}
