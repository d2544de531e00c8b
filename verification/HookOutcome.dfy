/** What a finished hook decided: reading its output, classifying its end, and resolving a failure. */
module HookOutcome {
  import opened Common

  datatype Json =
    | JNull | JBool(b: bool) | JNumber(n: int) | JString(s: string) | JArray(items: seq<Json>) | JObject(fields: Fields)

  type Fields = map<string, Json>

  datatype Outcome =
    | Pass | Deny(message: string) | Advise(message: string) | Context(text: string)
    | Rewrite(arguments: Fields, advice: Option<string>)

  datatype Options = Options(truncated: bool, allowContext: bool, allowRewrite: bool)

  datatype Parsed = Ok(outcome: Outcome) | Bad(reason: string)

  const MESSAGE_MAX := 4_000
  const NO_REASON := "denied by hook (no reason given)"

  function Field(o: Fields, name: string): Option<Json> {
    if name in o then Some(o[name]) else None
  }

  /** JavaScript's `a ?? b`: the second when the first is undefined or null. */
  function Or(a: Option<Json>, b: Option<Json>): Option<Json> {
    if a.None? || a.value.JNull? then b else a
  }

  predicate Control(c: char) {
    c <= '\U{8}' || c == '\U{B}' || c == '\U{C}' || '\U{E}' <= c <= '\U{1F}' || c == '\U{7F}'
  }

  predicate Space(c: char) {
    || '\t' <= c <= '\r' || c == ' ' || c == '\U{A0}' || c == '\U{1680}' || '\U{2000}' <= c <= '\U{200A}'
    || c == '\U{2028}' || c == '\U{2029}' || c == '\U{202F}' || c == '\U{205F}' || c == '\U{3000}' || c == '\U{FEFF}'
  }

  predicate NoControl(s: string) {
    forall i :: 0 <= i < |s| ==> !Control(s[i])
  }

  predicate Blank(s: string) {
    forall i :: 0 <= i < |s| ==> Space(s[i])
  }

  function WithoutControl(s: string): (r: string)
    ensures NoControl(r)
    ensures NoControl(s) ==> r == s
  {
    if s == [] then []
    else
      assert s == [s[0]] + s[1..];
      (if Control(s[0]) then [] else [s[0]]) + WithoutControl(s[1..])
  }

  function TrimStart(s: string): (r: string)
    ensures r == [] || !Space(r[0])
    ensures |r| <= |s|
  {
    if s == [] || !Space(s[0]) then s else TrimStart(s[1..])
  }

  function TrimEnd(s: string): (r: string)
    ensures r == [] || !Space(r[|r| - 1])
    ensures r <= s
  {
    if s == [] || !Space(s[|s| - 1]) then s else TrimEnd(s[..|s| - 1])
  }

  function Trim(s: string): (r: string)
    ensures |r| <= |s|
    ensures r != [] ==> !Space(r[0]) && !Space(r[|r| - 1])
  {
    TrimEnd(TrimStart(s))
  }

  /** `s` with blanks around `t`, which is empty or begins and ends with something else. */
  ghost predicate Padded(s: string, a: string, t: string, b: string) {
    s == a + t + b && Blank(a) && Blank(b) && (t != [] ==> !Space(t[0]) && !Space(t[|t| - 1]))
  }

  lemma {:induction false} TrimStartPads(s: string) returns (n: nat)
    ensures n <= |s| && TrimStart(s) == s[n..]
    ensures forall i :: 0 <= i < n ==> Space(s[i])
  {
    hide Space;
    n := 0;
    if s != [] && Space(s[0]) {
      var t := s[1..];
      n := TrimStartPads(t);
      n := n + 1;
      assert t[n - 1..] == s[n..];
      forall i | 0 <= i < n ensures Space(s[i]) {
        assert i > 0 ==> s[i] == t[i - 1];
      }
    }
  }

  lemma {:induction false} TrimEndPads(s: string)
    ensures forall i :: |TrimEnd(s)| <= i < |s| ==> Space(s[i])
  {
    hide Space;
    if s != [] && Space(s[|s| - 1]) {
      var t := s[..|s| - 1];
      TrimEndPads(t);
      forall i | |TrimEnd(s)| <= i < |s| ensures Space(s[i]) {
        assert i < |t| ==> s[i] == t[i];
      }
    }
  }

  lemma TrimPads(s: string)
    ensures exists a, b :: Padded(s, a, Trim(s), b)
  {
    hide Space, TrimStart, TrimEnd;
    var n := TrimStartPads(s);
    var t, r := TrimStart(s), Trim(s);
    TrimEndPads(t);
    var a, b := s[..n], t[|r|..];
    assert s == a + t && t == r + b;
    assert Padded(s, a, r, b) by {
      assert s == a + r + b;
    }
  }

  /** There is only one way to take the blanks off both ends. */
  lemma TrimIff(s: string, t: string)
    ensures t == Trim(s) <==> exists a, b :: Padded(s, a, t, b)
  {
    TrimPads(s);
    if a, b :| Padded(s, a, t, b) {
      var c, d :| Padded(s, c, Trim(s), d);
      PaddedOnce(s, a, t, b, c, Trim(s), d);
    }
  }

  lemma PaddedOnce(s: string, a: string, t: string, b: string, c: string, u: string, d: string)
    requires Padded(s, a, t, b) && Padded(s, c, u, d)
    ensures t == u
  {
    PaddedEnds(s, a, t, b);
    PaddedEnds(s, c, u, d);
    if t != [] && u != [] {
      assert |a| == |c| && |a| + |t| == |c| + |u|;
    }
  }

  /** Where the text without blanks stands: between the first and the last character that is none. */
  lemma PaddedEnds(s: string, a: string, t: string, b: string)
    requires Padded(s, a, t, b)
    ensures |a| + |t| <= |s| && t == s[|a|..|a| + |t|]
    ensures forall i :: 0 <= i < |a| || |a| + |t| <= i < |s| ==> Space(s[i])
    ensures t != [] ==> !Space(s[|a|]) && !Space(s[|a| + |t| - 1])
  {
    assert forall i :: 0 <= i < |a| ==> s[i] == a[i];
    assert forall i :: |a| + |t| <= i < |s| ==> s[i] == b[i - |a| - |t|];
    assert forall i :: 0 <= i < |t| ==> s[|a| + i] == t[i];
  }

  /** Taking out one control character changes nothing; with none left, nothing is taken out. */
  lemma {:induction false} WithoutControlSkips(s: string, c: char, t: string)
    requires Control(c)
    ensures WithoutControl(s + [c] + t) == WithoutControl(s + t)
  {
    if s == [] {
      assert (s + [c] + t)[1..] == t && s + t == t;
    } else {
      assert (s + [c] + t)[1..] == s[1..] + [c] + t && (s + t)[1..] == s[1..] + t;
      WithoutControlSkips(s[1..], c, t);
    }
  }

  /** Makes a hook's text safe for the model's context: bounded, trimmed, and free of control characters. */
  function CleanText(s: string): (r: string)
    ensures |r| <= 4_000
    ensures r != [] ==> !Space(r[0]) && !Space(r[|r| - 1])
  {
    Trim(Shortened(s))
  }

  /** The text without control characters, cut at the limit. */
  function Shortened(s: string): string {
    var kept := WithoutControl(s);
    if |kept| <= MESSAGE_MAX then kept else kept[..MESSAGE_MAX]
  }

  /** The shortened text is as much of the text without control characters as the limit allows. */
  lemma ShortenedMost(s: string)
    ensures Shortened(s) <= WithoutControl(s)
    ensures |WithoutControl(s)| <= 4_000 ==> Shortened(s) == WithoutControl(s)
    ensures |WithoutControl(s)| > 4_000 ==> |Shortened(s)| == 4_000
  {
    hide WithoutControl;
  }

  /**
   * Cleaning gives the one text that is left when the blanks are taken off both ends of the shortened one;
   * it has no control characters, and a text that is clean already is kept as it is.
   */
  lemma CleanTextIff(s: string, r: string)
    ensures r == CleanText(s) <==> exists a, b :: Padded(Shortened(s), a, r, b)
    ensures NoControl(CleanText(s)) && CleanText(CleanText(s)) == CleanText(s)
    ensures NoControl(s) && |s| <= MESSAGE_MAX && Padded(s, [], s, []) ==> CleanText(s) == s
  {
    hide Shortened, CleanText, Padded;
    TrimIff(Shortened(s), r);
    CleanIsShortened(s);
    CleanKeepsClean(CleanText(s));
    if NoControl(s) && |s| <= MESSAGE_MAX && Padded(s, [], s, []) {
      CleanKeepsClean(s);
    }
  }

  lemma CleanIsShortened(s: string)
    ensures CleanText(s) == Trim(Shortened(s))
    ensures NoControl(CleanText(s)) && Padded(CleanText(s), [], CleanText(s), [])
  {
    hide Space, Control, WithoutControl, Trim;
    TrimPads(Shortened(s));
    var a, b :| Padded(Shortened(s), a, Trim(Shortened(s)), b);
    MiddleClean(Shortened(s), a, CleanText(s), b);
  }

  lemma MiddleClean(s: string, a: string, t: string, b: string)
    requires NoControl(s) && Padded(s, a, t, b)
    ensures NoControl(t) && Padded(t, [], t, [])
  {
    hide Space, Control;
    assert forall i :: 0 <= i < |t| ==> t[i] == s[|a| + i];
  }

  lemma CleanKeepsClean(s: string)
    requires NoControl(s) && |s| <= MESSAGE_MAX && Padded(s, [], s, [])
    ensures CleanText(s) == s
  {
    hide Space, Control, Padded, Trim;
    assert Shortened(s) == s;
    TrimIff(s, s);
  }

  function Clean(value: Option<Json>): string {
    if value.Some? && value.value.JString? then CleanText(value.value.s) else ""
  }

  function OrElse(s: string, fallback: string): string {
    if s == "" then fallback else s
  }

  function Advice(s: string): Option<string> {
    if s == "" then None else Some(s)
  }

  function PlainObject(value: Option<Json>): Option<Fields> {
    if value.Some? && value.value.JObject? then Some(value.value.fields) else None
  }

  /** The nested `hookSpecificOutput` object, or an empty one. */
  function Specific(body: Fields): Fields {
    match PlainObject(Field(body, "hookSpecificOutput"))
    case None => map[]
    case Some(o) => o
  }

  // What a body in the other hosts' dialect says.
  datatype Foreign = Says(outcome: Outcome) | Contradicts(reason: string) | Silent

  function Decision(body: Fields): Option<Json> {
    Or(Field(Specific(body), "permissionDecision"), Field(body, "decision"))
  }

  function Reason(body: Fields): string {
    Clean(Or(Or(Field(Specific(body), "permissionDecisionReason"), Field(body, "reason")), Field(body, "stopReason")))
  }

  function Updated(body: Fields): Option<Json> {
    Or(Field(Specific(body), "updatedInput"), Field(body, "updatedInput"))
  }

  function Offered(body: Fields): string {
    Clean(Or(Or(Field(Specific(body), "additionalContext"), Field(body, "additionalContext")),
             Field(body, "additional_context")))
  }

  predicate Is(value: Option<Json>, word: string) {
    value == Some(JString(word))
  }

  function TranslateForeign(body: Fields, opts: Options): Foreign {
    var decision, reason, updated := Decision(body), Reason(body), Updated(body);
    if Is(decision, "deny") || Is(decision, "block") || Field(body, "continue") == Some(JBool(false)) then
      Says(Deny(OrElse(reason, NO_REASON)))
    else
      var allows := Is(decision, "allow") || Is(decision, "approve");
      if updated.Some? && decision.Some? && !allows then
        Contradicts("replacement arguments cannot accompany "
                    + (if decision.value.JString? then "a '" + decision.value.s + "'" else "that") + " decision")
      else if Is(decision, "ask") then
        Says(if reason == "" then Pass else Advise(reason))
      else if updated.Some? then
        if !opts.allowRewrite then Contradicts("arguments cannot be replaced at this event")
        else match PlainObject(updated)
          case None => Contradicts("replacement arguments are not an object")
          case Some(replacement) => Says(Rewrite(replacement, Advice(Offered(body))))
      else if Offered(body) != "" then
        Says(if opts.allowContext then Context(Offered(body)) else Advise(Offered(body)))
      else if allows then Says(Pass)
      else Silent
  }

  function ReadNative(kind: string, body: Fields, opts: Options): Parsed {
    if kind == "pass" then Ok(Pass)
    else if kind == "deny" then Ok(Deny(OrElse(Clean(Field(body, "message")), NO_REASON)))
    else if kind == "advise" then
      var message := Clean(Field(body, "message"));
      Ok(if message == "" then Pass else Advise(message))
    else if kind == "rewrite" then
      if !opts.allowRewrite then Bad("arguments cannot be replaced at this event")
      else match PlainObject(Field(body, "arguments"))
        case None => Bad("replacement arguments are not an object")
        case Some(replacement) => Ok(Rewrite(replacement, Advice(Clean(Field(body, "message")))))
    else if kind == "context" then
      if !opts.allowContext then Bad("a 'context' outcome is not valid at this event")
      else
        var text := Clean(Field(body, "text"));
        Ok(if text == "" then Pass else Context(text))
    else
      var named := CleanText(kind);
      Bad("unknown kind '" + (if |named| <= 80 then named else named[..80]) + "'")
  }

  function ReadBody(body: Fields, opts: Options): Parsed {
    match Field(body, "kind")
    case None =>
      (match TranslateForeign(body, opts)
       case Says(outcome) => Ok(outcome)
       case Contradicts(reason) => Bad(reason)
       case Silent => Ok(Pass))
    case Some(JString(kind)) => ReadNative(kind, body, opts)
    case Some(_) => Bad("stdout 'kind' is not a string")
  }

  /** Reads a hook's stdout as a verdict; `parse` is the JSON parser, None where it throws. */
  function ParseHookStdout(stdout: string, parse: string -> Option<Json>, opts: Options): Parsed {
    if opts.truncated then Bad("stdout exceeded the capture limit")
    else if Trim(stdout) == "" then Ok(Pass)
    else match parse(stdout)
      case None => Bad("stdout is not JSON")
      case Some(JObject(body)) => ReadBody(body, opts)
      case Some(_) => Bad("stdout JSON is not an object")
  }

  // The end of a hook command, and what the host makes of it.

  const STDERR_TAIL_CHARS := 2_000
  const HOOK_BLOCKING_EXIT_CODE := 2

  datatype Finished = Finished(
    stdout: string, stdoutTruncated: bool, stderr: string, exitCode: Option<int>, signal: Option<string>,
    timedOut: bool, aborted: bool, spawnError: Option<string>)

  // `gate`: the verdict can block; `rewritable`: the arguments can be replaced.
  datatype Invocation = Invocation(gate: bool, rewritable: bool)

  datatype FailureKind = SpawnFailed | TimedOut | ExitNonzero | BadOutput | Aborted

  datatype Verdict = Failed(kind: FailureKind, message: string) | Decided(outcome: Outcome)

  function TailOf(s: string, max: nat): string {
    if |s| <= max then s else s[|s| - max..]
  }

  function Decimal(n: nat): string {
    if n < 10 then [('0' as int + n) as char] else Decimal(n / 10) + [('0' as int + n % 10) as char]
  }

  function ExitText(code: Option<int>): string {
    match code
    case None => "null"
    case Some(n) => if n < 0 then "-" + Decimal(-n) else Decimal(n)
  }

  function OptionsAt(inv: Invocation, truncated: bool): Options {
    Options(truncated, !inv.gate, inv.rewritable)
  }

  function FromParsed(parsed: Parsed): Verdict {
    match parsed
    case Ok(outcome) => Decided(outcome)
    case Bad(reason) => Failed(BadOutput, reason)
  }

  function Classify(res: Finished, parse: string -> Option<Json>, inv: Invocation): Verdict {
    if res.aborted then Failed(Aborted, "the run was cancelled")
    else if res.timedOut then Failed(TimedOut, "the command timed out")
    else if res.spawnError.Some? then
      Failed(SpawnFailed, "the shell could not be started (" + res.spawnError.value + ")")
    else if inv.gate && res.exitCode == Some(HOOK_BLOCKING_EXIT_CODE) && res.signal.None? then
      Decided(Deny(OrElse(CleanText(TailOf(res.stderr, STDERR_TAIL_CHARS)), NO_REASON)))
    else if res.exitCode != Some(0) || res.signal.Some? then
      Failed(ExitNonzero, if res.signal.Some? then "the command was killed by " + res.signal.value
                          else "the command exited with code " + ExitText(res.exitCode))
    else FromParsed(ParseHookStdout(res.stdout, parse, OptionsAt(inv, res.stdoutTruncated)))
  }

  // How the call of an MCP hook tool ends: with a result, thrown, or never made for want of an executor.
  datatype McpCall = Returned(result: Json) | Threw(message: string, runAborted: bool, timedOut: bool) | NoExecutor

  datatype McpOutput = McpText(text: string) | McpError(message: string)

  /** The text of the text entries of a tool result's content, one entry a line. */
  function ContentTexts(items: seq<Json>): seq<string> {
    if items == [] then []
    else
      match items[0]
      case JObject(entry) =>
        (match (Field(entry, "type"), Field(entry, "text"))
         case (Some(JString(kind)), Some(JString(text))) => if kind == "text" then [text] else []
         case _ => []) + ContentTexts(items[1..])
      case _ => ContentTexts(items[1..])
  }

  function JoinLines(lines: seq<string>): string {
    if lines == [] then "" else if |lines| == 1 then lines[0] else lines[0] + "\n" + JoinLines(lines[1..])
  }

  function Serialized(value: Json, stringify: Json -> Option<string>, failure: string): McpOutput {
    match stringify(value)
    case None => McpError(failure)
    case Some(text) => McpText(text)
  }

  /** The hook-output document in what an MCP tool returned; `stringify` is the JSON writer, None where it throws. */
  function McpHookOutput(result: Json, stringify: Json -> Option<string>): McpOutput {
    match result
    case JObject(envelope) =>
      if Field(envelope, "ok") != Some(JBool(true)) then
        (match Field(envelope, "error")
         case Some(JObject(error)) =>
           (match Field(error, "message")
            case Some(JString(message)) => McpError(message)
            case _ => McpError("the MCP hook tool failed"))
         case _ => McpError("the MCP hook tool failed"))
      else
        (match Field(envelope, "data")
         case None => McpText("")
         case Some(JNull) => McpText("")
         case Some(JString(text)) => McpText(text)
         case Some(JObject(data)) =>
           (match Field(data, "structuredContent")
            case Some(content) =>
              Serialized(content, stringify, "the MCP hook returned unserializable structured content")
            case None =>
              (match Field(data, "content")
               case Some(JArray(items)) => McpText(JoinLines(ContentTexts(items)))
               case _ => Serialized(JObject(data), stringify, "the MCP hook returned an unserializable result")))
         case Some(other) => Serialized(other, stringify, "the MCP hook returned an unserializable result"))
    case _ => McpError("the MCP hook returned an invalid transport result")
  }

  function ClassifyMcp(call: McpCall, parse: string -> Option<Json>, stringify: Json -> Option<string>, inv: Invocation): Verdict {
    match call
    case NoExecutor => Failed(SpawnFailed, "the MCP hook executor is unavailable")
    case Threw(message, runAborted, timedOut) =>
      Failed(if runAborted then Aborted else if timedOut then TimedOut else ExitNonzero, message)
    case Returned(result) =>
      match McpHookOutput(result, stringify)
      case McpError(message) => Failed(ExitNonzero, message)
      case McpText(text) => FromParsed(ParseHookStdout(text, parse, OptionsAt(inv, false)))
  }

  /** Folds a verdict into the outcome the host acts on; `denyOnFailure` is the hook's `on_failure`. */
  function Resolve(verdict: Verdict, denyOnFailure: bool, inv: Invocation): Outcome {
    match verdict
    case Decided(outcome) => if !inv.gate && outcome.Deny? then Pass else outcome
    case Failed(kind, message) =>
      if kind.Aborted? then Pass
      else if !inv.gate then Pass
      else if !denyOnFailure then Pass
      else Deny("a workspace hook failed: " + message)
  }

  // What must never fail open.

  /** The fields that carry a decision in the other hosts' dialect block, whatever else the body holds. */
  predicate DecisionBlocks(body: Fields) {
    Is(Decision(body), "deny") || Is(Decision(body), "block") || Field(body, "continue") == Some(JBool(false))
  }

  /** The body blocks, in either dialect. */
  predicate BodyBlocks(body: Fields) {
    Field(body, "kind") == Some(JString("deny")) || DecisionBlocks(body)
  }

  /** No other `kind` stands beside the decision, which would be read in its place. */
  predicate KindAllowsBlock(body: Fields) {
    Field(body, "kind") == None || Field(body, "kind") == Some(JString("deny"))
  }

  /** The object that an output holds, if it is one. */
  function OutputBody(stdout: string, parse: string -> Option<Json>): Option<Fields> {
    if Trim(stdout) == "" then None else PlainObject(parse(stdout))
  }

  predicate OutputBlocks(stdout: string, parse: string -> Option<Json>) {
    OutputBody(stdout, parse).Some? && BodyBlocks(OutputBody(stdout, parse).value)
  }

  predicate OutputHeard(stdout: string, parse: string -> Option<Json>) {
    OutputBody(stdout, parse).Some? && KindAllowsBlock(OutputBody(stdout, parse).value)
  }

  /** The command exited by itself with the blocking code. */
  predicate ExitsTwo(res: Finished) {
    res.exitCode == Some(2) && res.signal.None?
  }

  /** The command exited cleanly with a complete output that blocks. */
  predicate PrintsBlock(res: Finished, parse: string -> Option<Json>) {
    res.exitCode == Some(0) && res.signal.None? && !res.stdoutTruncated && OutputBlocks(res.stdout, parse)
  }

  /** The command says to block. */
  predicate Blocks(res: Finished, parse: string -> Option<Json>) {
    ExitsTwo(res) || PrintsBlock(res, parse)
  }

  /** Neither the deadline nor a cancellation nor the spawn takes the place of what the command says. */
  predicate Undisturbed(res: Finished) {
    !res.aborted && !res.timedOut && res.spawnError.None?
  }

  lemma ForeignDeniesIff(body: Fields, opts: Options)
    requires Field(body, "kind").None?
    ensures var f := TranslateForeign(body, opts);
      && (f.Says? && f.outcome.Deny? <==> DecisionBlocks(body))
      && (f.Says? && f.outcome.Rewrite? ==> opts.allowRewrite)
      && (f.Says? && f.outcome.Context? ==> opts.allowContext)
  {
    hide CleanText, Field;
  }

  lemma NativeDeniesIff(kind: string, body: Fields, opts: Options)
    ensures var p := ReadNative(kind, body, opts);
      && (p.Ok? && p.outcome.Deny? <==> kind == "deny")
      && (p.Ok? && p.outcome.Rewrite? ==> opts.allowRewrite)
      && (p.Ok? && p.outcome.Context? ==> opts.allowContext)
  {
    hide CleanText, Field;
  }

  /** A body denies exactly when it blocks and no other `kind` stands beside the block. */
  lemma BodyDeniesIff(body: Fields, opts: Options)
    ensures (ReadBody(body, opts).Ok? && ReadBody(body, opts).outcome.Deny?) <==> BodyBlocks(body) && KindAllowsBlock(body)
    ensures ReadBody(body, opts).Ok? && ReadBody(body, opts).outcome.Rewrite? ==> opts.allowRewrite
    ensures ReadBody(body, opts).Ok? && ReadBody(body, opts).outcome.Context? ==> opts.allowContext
  {
    hide Field, TranslateForeign, ReadNative, DecisionBlocks;
    var kind := Field(body, "kind");
    if kind.None? {
      ForeignDeniesIff(body, opts);
    } else if kind.value.JString? {
      NativeDeniesIff(kind.value.s, body, opts);
    }
  }

  lemma StdoutDeniesIff(stdout: string, parse: string -> Option<Json>, opts: Options)
    ensures var p := ParseHookStdout(stdout, parse, opts);
      && (p.Ok? && p.outcome.Deny? <==> !opts.truncated && OutputBlocks(stdout, parse) && OutputHeard(stdout, parse))
      && (p.Ok? && p.outcome.Rewrite? ==> opts.allowRewrite)
      && (p.Ok? && p.outcome.Context? ==> opts.allowContext)
  {
    hide ReadBody, BodyBlocks, KindAllowsBlock, Trim;
    var json := parse(stdout);
    if json.Some? && json.value.JObject? {
      BodyDeniesIff(json.value.fields, opts);
    }
  }

  /**
   * A hook's result is a denial exactly at a gate, and exactly when, undisturbed, the command said to block
   * where it is heard, or when it failed, uncancelled, under a policy of denying on failure.
   */
  lemma DeniesIff(res: Finished, parse: string -> Option<Json>, denyOnFailure: bool, inv: Invocation)
    ensures var verdict := Classify(res, parse, inv);
      Resolve(verdict, denyOnFailure, inv).Deny? <==>
      && inv.gate
      && (|| (Undisturbed(res) && (ExitsTwo(res) || (PrintsBlock(res, parse) && OutputHeard(res.stdout, parse))))
          || (denyOnFailure && verdict.Failed? && !res.aborted))
  {
    hide ParseHookStdout, OutputBlocks, OutputHeard, CleanText;
    StdoutDeniesIff(res.stdout, parse, OptionsAt(inv, res.stdoutTruncated));
  }

  /**
   * A command that says to block at a gate denies, under the default policy of passing on failure, exactly
   * when nothing disturbed it and no other `kind` stands beside its printed decision. Under either policy
   * it then denies.
   */
  lemma BlockingDeniesIff(res: Finished, parse: string -> Option<Json>, inv: Invocation)
    requires inv.gate && Blocks(res, parse)
    ensures Resolve(Classify(res, parse, inv), false, inv).Deny? <==>
            Undisturbed(res) && (ExitsTwo(res) || OutputHeard(res.stdout, parse))
    ensures Resolve(Classify(res, parse, inv), false, inv).Deny? ==> Resolve(Classify(res, parse, inv), true, inv).Deny?
  {
    hide ParseHookStdout, OutputBlocks, OutputHeard, CleanText, Classify, Resolve;
    DeniesIff(res, parse, false, inv);
    DeniesIff(res, parse, true, inv);
  }

  /** Exit code 2 denies at a gate exactly when neither the deadline, nor a cancellation, nor the spawn disturbed it. */
  lemma ExitTwoDeniesIff(res: Finished, parse: string -> Option<Json>, inv: Invocation)
    requires inv.gate && ExitsTwo(res)
    ensures Resolve(Classify(res, parse, inv), false, inv).Deny? <==> !res.aborted && !res.timedOut && res.spawnError.None?
  {
    hide CleanText, Classify, Resolve, PrintsBlock;
    BlockingDeniesIff(res, parse, inv);
  }

  /** A complete printed block of an undisturbed command denies exactly when its `kind` is absent or "deny". */
  lemma PrintedBlockDeniesIff(res: Finished, parse: string -> Option<Json>, inv: Invocation)
    requires inv.gate && Undisturbed(res) && PrintsBlock(res, parse)
    ensures Resolve(Classify(res, parse, inv), false, inv).Deny? <==>
            var kind := Field(OutputBody(res.stdout, parse).value, "kind"); kind == None || kind == Some(JString("deny"))
  {
    hide CleanText, Classify, Resolve, Field, OutputBody, BodyBlocks;
    BlockingDeniesIff(res, parse, inv);
  }

  /** A cancelled command is passed, and one that timed out fails, whatever else they say. */
  lemma LateVerdicts(res: Finished, parse: string -> Option<Json>, denyOnFailure: bool, inv: Invocation)
    ensures res.aborted ==> Resolve(Classify(res, parse, inv), denyOnFailure, inv) == Pass
    ensures !res.aborted && res.timedOut ==>
      Resolve(Classify(res, parse, inv), denyOnFailure, inv) ==
      if inv.gate && denyOnFailure then Deny("a workspace hook failed: the command timed out") else Pass
  {
    hide ParseHookStdout, CleanText;
    assert "a workspace hook failed: " + "the command timed out" == "a workspace hook failed: the command timed out";
  }

  /** A hook that exits 2 after its deadline, or on the cancellation, is passed. */
  lemma LateExitTwoPasses(parse: string -> Option<Json>, rewritable: bool)
    ensures var late := Finished("", false, "", Some(HOOK_BLOCKING_EXIT_CODE), None, true, false, None);
      && ExitsTwo(late) && Resolve(Classify(late, parse, Invocation(true, rewritable)), false, Invocation(true, rewritable)) == Pass
    ensures var cancelled := Finished("", false, "", Some(HOOK_BLOCKING_EXIT_CODE), None, false, true, None);
      && ExitsTwo(cancelled)
      && Resolve(Classify(cancelled, parse, Invocation(true, rewritable)), true, Invocation(true, rewritable)) == Pass
  {
    hide CleanText, ParseHookStdout;
  }

  /** A block beside another `kind` is dropped: beside "pass" it is a pass, and beside null it is bad output. */
  lemma KindHidesBlock(opts: Options)
    ensures var body := map["kind" := JString("pass"), "decision" := JString("block")];
      BodyBlocks(body) && ReadBody(body, opts) == Ok(Pass)
    ensures var body := map["kind" := JNull, "decision" := JString("block")];
      BodyBlocks(body) && ReadBody(body, opts).Bad?
  {
    hide CleanText;
  }

  // MCP hook tools, whose failures never block.

  /** The tool returned a document that blocks where it is heard. */
  predicate McpBlocks(call: McpCall, parse: string -> Option<Json>, stringify: Json -> Option<string>) {
    match call
    case Returned(result) =>
      (match McpHookOutput(result, stringify)
       case McpText(text) => OutputBlocks(text, parse) && OutputHeard(text, parse)
       case _ => false)
    case _ => false
  }

  /** An MCP hook denies exactly at a gate, and exactly when its document blocks. */
  lemma McpDeniesIff(call: McpCall, parse: string -> Option<Json>, stringify: Json -> Option<string>, inv: Invocation)
    ensures Resolve(ClassifyMcp(call, parse, stringify, inv), false, inv).Deny? <==> inv.gate && McpBlocks(call, parse, stringify)
  {
    hide ParseHookStdout, OutputBlocks, OutputHeard, CleanText, McpHookOutput;
    if call.Returned? && McpHookOutput(call.result, stringify).McpText? {
      StdoutDeniesIff(McpHookOutput(call.result, stringify).text, parse, OptionsAt(inv, false));
    }
  }

  lemma StructuredText(body: Fields, stringify: Json -> Option<string>)
    requires stringify(JObject(body)).Some?
    ensures var data := JObject(map["structuredContent" := JObject(body)]);
      McpHookOutput(JObject(map["ok" := JBool(true), "data" := data]), stringify) == McpText(stringify(JObject(body)).value)
  {
    hide JoinLines, ContentTexts;
  }

  /** A structured result that blocks, written and read again without loss, denies. */
  lemma StructuredBlockDenies(body: Fields, parse: string -> Option<Json>, stringify: Json -> Option<string>, inv: Invocation)
    requires inv.gate && BodyBlocks(body) && KindAllowsBlock(body)
    requires stringify(JObject(body)).Some? && Trim(stringify(JObject(body)).value) != ""
    requires parse(stringify(JObject(body)).value) == Some(JObject(body))
    ensures var data := JObject(map["structuredContent" := JObject(body)]);
      Resolve(ClassifyMcp(Returned(JObject(map["ok" := JBool(true), "data" := data])), parse, stringify, inv), false, inv).Deny?
  {
    hide ParseHookStdout, BodyBlocks, KindAllowsBlock, CleanText, Trim, ClassifyMcp, Resolve, McpHookOutput;
    var data := map["structuredContent" := JObject(body)];
    var result := JObject(map["ok" := JBool(true), "data" := JObject(data)]);
    StructuredText(body, stringify);
    McpDeniesIff(Returned(result), parse, stringify, inv);
  }

  /** A rewrite reaches the host only where arguments can be replaced, and context only away from a gate. */
  lemma ChannelsRespected(res: Finished, parse: string -> Option<Json>, denyOnFailure: bool, inv: Invocation)
    ensures var outcome := Resolve(Classify(res, parse, inv), denyOnFailure, inv);
      (outcome.Rewrite? ==> inv.rewritable) && (outcome.Context? ==> !inv.gate) && (outcome.Deny? ==> inv.gate)
  {
    hide ParseHookStdout, OutputBlocks, OutputHeard, CleanText;
    StdoutDeniesIff(res.stdout, parse, OptionsAt(inv, res.stdoutTruncated));
  }

  /** Replacement arguments offered without a block are used whole or reported: they are never dropped in silence. */
  lemma ReplacementNeverDropped(body: Fields, opts: Options)
    requires Field(body, "kind").None? && Updated(body).Some? && !DecisionBlocks(body)
    ensures var allowed := Decision(body).None? || Is(Decision(body), "allow") || Is(Decision(body), "approve");
      if allowed && opts.allowRewrite && Updated(body).value.JObject?
      then ReadBody(body, opts) == Ok(Rewrite(Updated(body).value.fields, Advice(Offered(body))))
      else ReadBody(body, opts).Bad?
  {
    hide CleanText;
  }

  // The dialects, field by field.

  predicate Has(o: Fields, name: string, value: Json) {
    name in o && o[name] == value
  }

  /** The field is missing or null. */
  predicate Unset(o: Fields, name: string) {
    name !in o || o[name] == JNull
  }

  predicate NestedHas(body: Fields, name: string, value: Json) {
    "hookSpecificOutput" in body && body["hookSpecificOutput"].JObject? && Has(body["hookSpecificOutput"].fields, name, value)
  }

  /** There is no nested object, or the field is missing or null in it. */
  predicate NestedUnset(body: Fields, name: string) {
    "hookSpecificOutput" in body && body["hookSpecificOutput"].JObject? ==> Unset(body["hookSpecificOutput"].fields, name)
  }

  /** A nested field that is set stands before the one at the top, which is read even if it is null. */
  predicate Effective(body: Fields, nested: string, top: string, value: Json) {
    || (NestedHas(body, nested, value) && value != JNull)
    || (NestedUnset(body, nested) && Has(body, top, value))
  }

  lemma EffectiveFields(body: Fields, nested: string, top: string, value: Json)
    ensures Or(Field(Specific(body), nested), Field(body, top)) == Some(value) <==> Effective(body, nested, top, value)
  {
  }

  /**
   * A body of the other dialect blocks exactly when its decision, nested before top, is "deny" or "block", or
   * when `continue` is false; and then it denies with its cleaned reason, or with a placeholder for want of one.
   */
  lemma DeniesByFields(body: Fields, opts: Options)
    requires "kind" !in body
    ensures var p := ReadBody(body, opts);
      && (p.Ok? && p.outcome.Deny? <==>
           || Effective(body, "permissionDecision", "decision", JString("deny"))
           || Effective(body, "permissionDecision", "decision", JString("block"))
           || Has(body, "continue", JBool(false)))
      && (p.Ok? && p.outcome.Deny? ==>
           p.outcome.message == if Reason(body) == "" then "denied by hook (no reason given)" else Reason(body))
  {
    EffectiveFields(body, "permissionDecision", "decision", JString("deny"));
    EffectiveFields(body, "permissionDecision", "decision", JString("block"));
    BodyDeniesIff(body, opts);
    hide CleanText, Effective, Reason, Updated, Offered;
  }

  /** A body with a `kind` denies exactly when the kind is "deny". */
  lemma DeniesByKind(body: Fields, opts: Options)
    requires "kind" in body
    ensures var p := ReadBody(body, opts);
      && (p.Ok? && p.outcome.Deny? <==> body["kind"] == JString("deny"))
      && (p.Ok? && p.outcome.Deny? ==>
           var message := if "message" in body then Clean(Some(body["message"])) else "";
           p.outcome.message == if message == "" then "denied by hook (no reason given)" else message)
  {
    hide CleanText, TranslateForeign;
    BodyDeniesIff(body, opts);
  }

  /** What stands in the first of three places that is set: nested, or under either of two names at the top. */
  lemma ReasonFields(body: Fields)
    ensures forall v :: NestedHas(body, "permissionDecisionReason", v) && v != JNull ==> Reason(body) == Clean(Some(v))
    ensures NestedUnset(body, "permissionDecisionReason") && !Unset(body, "reason") ==> Reason(body) == Clean(Some(body["reason"]))
    ensures NestedUnset(body, "permissionDecisionReason") && Unset(body, "reason") ==>
      Reason(body) == if "stopReason" in body then Clean(Some(body["stopReason"])) else ""
  {
    hide CleanText;
  }

  lemma OfferedFields(body: Fields)
    ensures forall v :: NestedHas(body, "additionalContext", v) && v != JNull ==> Offered(body) == Clean(Some(v))
    ensures NestedUnset(body, "additionalContext") && !Unset(body, "additionalContext") ==>
      Offered(body) == Clean(Some(body["additionalContext"]))
    ensures NestedUnset(body, "additionalContext") && Unset(body, "additionalContext") ==>
      Offered(body) == if "additional_context" in body then Clean(Some(body["additional_context"])) else ""
  {
    hide CleanText;
  }

  lemma UpdatedFields(body: Fields, v: Json)
    ensures Updated(body) == Some(v) <==> Effective(body, "updatedInput", "updatedInput", v)
  {
    EffectiveFields(body, "updatedInput", "updatedInput", v);
  }

  /** The body blocks, in the dialect that its `kind` or the lack of one says. */
  predicate FieldsBlock(body: Fields) {
    || Effective(body, "permissionDecision", "decision", JString("deny"))
    || Effective(body, "permissionDecision", "decision", JString("block"))
    || Has(body, "continue", JBool(false))
  }

  /** A request to ask the human, without replacement arguments, arrives as advice, at a gate and off one. */
  lemma AskAdvises(body: Fields, opts: Options)
    requires "kind" !in body && !FieldsBlock(body)
    requires Effective(body, "permissionDecision", "decision", JString("ask"))
    requires forall v :: !Effective(body, "updatedInput", "updatedInput", v)
    ensures ReadBody(body, opts) == Ok(if Reason(body) == "" then Pass else Advise(Reason(body)))
  {
    EffectiveFields(body, "permissionDecision", "decision", JString("ask"));
    ForeignParts(body);
    hide CleanText, Effective, Reason, Offered;
  }

  lemma ForeignParts(body: Fields)
    ensures DecisionBlocks(body) <==> FieldsBlock(body)
    ensures Updated(body).None? <==> forall v :: !Effective(body, "updatedInput", "updatedInput", v)
  {
    EffectiveFields(body, "permissionDecision", "decision", JString("deny"));
    EffectiveFields(body, "permissionDecision", "decision", JString("block"));
    forall v ensures Updated(body) == Some(v) <==> Effective(body, "updatedInput", "updatedInput", v) {
      UpdatedFields(body, v);
    }
    hide Effective, Updated;
    assert Updated(body).Some? ==> Updated(body) == Some(Updated(body).value);
  }

  /** Text offered beside no block, no question and no replacement is context off a gate, and advice at one. */
  lemma OfferedArrives(body: Fields, opts: Options)
    requires "kind" !in body && !FieldsBlock(body)
    requires !Effective(body, "permissionDecision", "decision", JString("ask"))
    requires forall v :: !Effective(body, "updatedInput", "updatedInput", v)
    ensures ReadBody(body, opts) ==
      Ok(if Offered(body) == "" then Pass else if opts.allowContext then Context(Offered(body)) else Advise(Offered(body)))
  {
    EffectiveFields(body, "permissionDecision", "decision", JString("ask"));
    ForeignParts(body);
    hide CleanText, Effective, Reason, Offered;
  }

  /** Replacement arguments beside no block: used whole, with what is offered as advice, or reported. */
  lemma ReplacementByFields(body: Fields, opts: Options, v: Json)
    requires "kind" !in body && !FieldsBlock(body) && Effective(body, "updatedInput", "updatedInput", v)
    ensures var silent := forall d :: !Effective(body, "permissionDecision", "decision", d);
      var allowed := Effective(body, "permissionDecision", "decision", JString("allow"))
                     || Effective(body, "permissionDecision", "decision", JString("approve"));
      if (silent || allowed) && opts.allowRewrite && v.JObject?
      then ReadBody(body, opts) == Ok(Rewrite(v.fields, if Offered(body) == "" then None else Some(Offered(body))))
      else ReadBody(body, opts).Bad?
  {
    ForeignParts(body);
    UpdatedFields(body, v);
    forall d ensures Decision(body) == Some(d) <==> Effective(body, "permissionDecision", "decision", d) {
      EffectiveFields(body, "permissionDecision", "decision", d);
    }
    hide Effective, Decision, Updated, Offered, FieldsBlock, CleanText;
    assert Decision(body).Some? ==> Decision(body) == Some(Decision(body).value);
    ReplacementNeverDropped(body, opts);
  }

  /** The other kinds of the native dialect, each with its own field, and where it is bad output. */
  lemma NativeReads(body: Fields, opts: Options)
    requires "kind" in body
    ensures body["kind"] == JString("pass") ==> ReadBody(body, opts) == Ok(Pass)
    ensures body["kind"] == JString("advise") ==>
      var m := if "message" in body then Clean(Some(body["message"])) else "";
      ReadBody(body, opts) == Ok(if m == "" then Pass else Advise(m))
    ensures body["kind"] == JString("context") ==>
      var t := if "text" in body then Clean(Some(body["text"])) else "";
      if opts.allowContext then ReadBody(body, opts) == Ok(if t == "" then Pass else Context(t)) else ReadBody(body, opts).Bad?
    ensures body["kind"] == JString("rewrite") ==>
      var m := if "message" in body then Clean(Some(body["message"])) else "";
      if opts.allowRewrite && "arguments" in body && body["arguments"].JObject?
      then ReadBody(body, opts) == Ok(Rewrite(body["arguments"].fields, if m == "" then None else Some(m)))
      else ReadBody(body, opts).Bad?
    ensures body["kind"] !in {JString("pass"), JString("deny"), JString("advise"), JString("rewrite"), JString("context")} ==>
      ReadBody(body, opts).Bad?
  {
    hide CleanText, TranslateForeign;
  }

  /** The reason of an exit 2 is the end of what it wrote to stderr, cleaned, or a placeholder. */
  lemma ExitTwoMessage(res: Finished, parse: string -> Option<Json>, inv: Invocation)
    requires inv.gate && ExitsTwo(res) && Undisturbed(res)
    ensures var tail := if |res.stderr| <= 2_000 then res.stderr else res.stderr[|res.stderr| - 2_000..];
      Classify(res, parse, inv) ==
      Decided(Deny(if CleanText(tail) == "" then "denied by hook (no reason given)" else CleanText(tail)))
  {
    hide CleanText, ParseHookStdout;
  }

  // Which commands fail.

  /** The command did not exit with code zero, or a signal ended it. */
  predicate ExitsBadly(res: Finished) {
    res.exitCode != Some(0) || res.signal.Some?
  }

  /** The output was cut, or is something other than blanks and not an object that can be read here. */
  predicate OutputUnusable(res: Finished, parse: string -> Option<Json>, inv: Invocation) {
    || res.stdoutTruncated
    || (&& Trim(res.stdout) != ""
        && (parse(res.stdout).None? || !parse(res.stdout).value.JObject?
            || ReadBody(parse(res.stdout).value.fields, OptionsAt(inv, false)).Bad?))
  }

  /**
   * An uncancelled command fails exactly when it timed out or was not started, exited badly other than by a
   * block at a gate, or exited well with an unusable output.
   */
  lemma FailsIff(res: Finished, parse: string -> Option<Json>, inv: Invocation)
    requires !res.aborted
    ensures Classify(res, parse, inv).Failed? <==>
      || res.timedOut || res.spawnError.Some?
      || (ExitsBadly(res) && !(inv.gate && ExitsTwo(res)))
      || (!ExitsBadly(res) && OutputUnusable(res, parse, inv))
  {
    hide CleanText, Trim, ReadBody;
    if !res.stdoutTruncated {
      assert OptionsAt(inv, res.stdoutTruncated) == OptionsAt(inv, false);
    }
  }

  /** A failure is denied at a gate under the policy of denying, with what went wrong, and passed otherwise. */
  lemma FailureResolved(res: Finished, parse: string -> Option<Json>, denyOnFailure: bool, inv: Invocation)
    requires !res.aborted && Classify(res, parse, inv).Failed?
    ensures var outcome := Resolve(Classify(res, parse, inv), denyOnFailure, inv);
      if inv.gate && denyOnFailure then outcome.Deny? && "a workspace hook failed: " <= outcome.message else outcome == Pass
  {
    hide ParseHookStdout, CleanText;
  }

  /** Only texts of text entries count, one a line. */
  lemma TextEntries(text: string, rest: seq<Json>)
    ensures ContentTexts([JObject(map["type" := JString("text"), "text" := JString(text)])] + rest) == [text] + ContentTexts(rest)
  {
    var entry := map["type" := JString("text"), "text" := JString(text)];
    assert ([JObject(entry)] + rest)[1..] == rest;
  }

  /** A document that blocks, returned as the text content of a tool, denies at a gate. */
  lemma TextBlockDenies(text: string, parse: string -> Option<Json>, stringify: Json -> Option<string>, inv: Invocation)
    requires inv.gate && OutputBlocks(text, parse) && OutputHeard(text, parse)
    ensures var entry := JObject(map["type" := JString("text"), "text" := JString(text)]);
      var result := JObject(map["ok" := JBool(true), "data" := JObject(map["content" := JArray([entry])])]);
      Resolve(ClassifyMcp(Returned(result), parse, stringify, inv), false, inv).Deny?
  {
    hide OutputBlocks, OutputHeard, ClassifyMcp, Resolve;
    var entry := JObject(map["type" := JString("text"), "text" := JString(text)]);
    TextEntries(text, []);
    assert [entry] + [] == [entry] && ContentTexts([]) == [];
    var data := map["content" := JArray([entry])];
    var result := JObject(map["ok" := JBool(true), "data" := JObject(data)]);
    assert McpHookOutput(result, stringify) == McpText(text);
    McpDeniesIff(Returned(result), parse, stringify, inv);
  }

  /** A tool that succeeds with a text has said that text; with no data it has said nothing, which passes. */
  lemma McpPlainData(envelope: Fields, text: string, stringify: Json -> Option<string>)
    requires Has(envelope, "ok", JBool(true))
    ensures Has(envelope, "data", JString(text)) ==> McpHookOutput(JObject(envelope), stringify) == McpText(text)
    ensures Unset(envelope, "data") ==> McpHookOutput(JObject(envelope), stringify) == McpText("")
  {
    hide JoinLines, ContentTexts;
  }

  /** A tool that reports no success is passed, whatever else it returned. */
  lemma McpFailurePasses(envelope: Fields, parse: string -> Option<Json>, stringify: Json -> Option<string>, inv: Invocation)
    requires !Has(envelope, "ok", JBool(true))
    ensures Resolve(ClassifyMcp(Returned(JObject(envelope)), parse, stringify, inv), false, inv) == Pass
  {
    hide ParseHookStdout;
  }

  /** The control characters taken out: all below the space but tab, newline and carriage return, and delete. */
  lemma ControlIff(c: char)
    ensures Control(c) <==> (c < ' ' && c !in "\t\n\r") || c == '\U{7F}'
  {
  }
}
