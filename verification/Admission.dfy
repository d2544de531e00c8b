/** Admission of extension calls: counters against the physical calls that have not settled. */
module Admission {
  import opened Common

  datatype CallClass = Normal | RunEnd

  datatype Call = Call(class_: CallClass, operation: string)

  datatype Reason = Closed | OperationBusy | CapacityFull

  datatype Outcome = Admitted | Unavailable(reason: Reason) | EmptyOperation

  datatype Limits = Limits(normal: nat, runEnd: nat, perOperation: nat)

  function ClassName(c: CallClass): string {
    if c.RunEnd? then "run_end" else "normal"
  }

  function Key(call: Call): string {
    ClassName(call.class_) + "\0" + call.operation
  }

  lemma KeyInjective(a: Call, b: Call)
    ensures Key(a) == Key(b) ==> a == b
  {
    var s, t := Key(a), Key(b);
    assert s[0] == ClassName(a.class_)[0] && t[0] == ClassName(b.class_)[0];
    assert a.operation == s[|ClassName(a.class_)| + 1..] && b.operation == t[|ClassName(b.class_)| + 1..];
  }

  // The specification: the physical calls in flight, by class and operation.
  datatype Model = Model(limits: Limits, inFlight: multiset<Call>, closed: bool) {

    ghost function OfClass(c: CallClass): multiset<Call> {
      Restrict(inFlight, c)
    }

    function Limit(c: CallClass): nat {
      if c.RunEnd? then limits.runEnd else limits.normal
    }

    /** Whether a call is admitted, and why not. */
    ghost function Decide(call: Call): Outcome {
      if call.operation == "" then EmptyOperation
      else if closed then Unavailable(Closed)
      else if inFlight[call] >= limits.perOperation then Unavailable(OperationBusy)
      else if |OfClass(call.class_)| >= Limit(call.class_) then Unavailable(CapacityFull)
      else Admitted
    }

    ghost predicate WithinLimits() {
      && |OfClass(Normal)| <= limits.normal && |OfClass(RunEnd)| <= limits.runEnd
      && forall call :: inFlight[call] <= limits.perOperation
    }
  }

  ghost function Restrict(m: multiset<Call>, c: CallClass): (r: multiset<Call>)
    ensures forall call :: r[call] == if call.class_ == c then m[call] else 0
    decreases |m|
  {
    if m == multiset{} then multiset{}
    else
      var x :| x in m;
      var rest := Restrict(m - multiset{x}, c);
      if x.class_ == c then rest + multiset{x} else rest
  }

  lemma RestrictAdd(m: multiset<Call>, x: Call, c: CallClass)
    ensures Restrict(m + multiset{x}, c) == if x.class_ == c then Restrict(m, c) + multiset{x} else Restrict(m, c)
  {
    hide Restrict;
    forall y ensures Restrict(m + multiset{x}, c)[y] ==
      if x.class_ == c then (Restrict(m, c) + multiset{x})[y] else Restrict(m, c)[y] {
    }
  }

  lemma RestrictRemove(m: multiset<Call>, x: Call, c: CallClass)
    requires x in m
    ensures Restrict(m - multiset{x}, c) == if x.class_ == c then Restrict(m, c) - multiset{x} else Restrict(m, c)
    ensures x.class_ == c ==> x in Restrict(m, c)
  {
    hide Restrict;
    assert m == m - multiset{x} + multiset{x};
    RestrictAdd(m - multiset{x}, x, c);
  }

  /** The counts of the calls in `s`, added up. */
  ghost function Sum(m: multiset<Call>, s: set<Call>): nat {
    if s == {} then 0
    else
      var x :| x in s;
      m[x] + Sum(m, s - {x})
  }

  lemma {:induction false} SumSame(m: multiset<Call>, n: multiset<Call>, s: set<Call>)
    requires forall x :: x in s ==> m[x] == n[x]
    ensures Sum(m, s) == Sum(n, s)
  {
    if s != {} {
      var x :| x in s && Sum(m, s) == m[x] + Sum(m, s - {x}) && Sum(n, s) == n[x] + Sum(n, s - {x});
      SumSame(m, n, s - {x});
    }
  }

  /** The number of calls is the sum of the counts of the different ones. */
  lemma {:induction false} SumIsSize(m: multiset<Call>, s: set<Call>)
    requires forall x :: x in m ==> x in s
    ensures |m| == Sum(m, s)
  {
    if s == {} {
      assert m == multiset{};
    } else {
      var x :| x in s && Sum(m, s) == m[x] + Sum(m, s - {x});
      var rest := m[x := 0];
      SumIsSize(rest, s - {x});
      SumSame(m, rest, s - {x});
    }
  }

  /** Each class total is the sum of that class's counts, operation by operation. */
  lemma ClassTotalIsSum(m: Model, c: CallClass)
    ensures |m.OfClass(c)| == Sum(m.inFlight, set x | x in m.inFlight && x.class_ == c)
  {
    var s := set x | x in m.inFlight && x.class_ == c;
    SumIsSize(m.OfClass(c), s);
    SumSame(m.OfClass(c), m.inFlight, s);
  }

  /** The reasons of a refusal, each by the calls in flight, and the earlier ones first. */
  lemma DecideIff(m: Model, call: Call)
    ensures m.Decide(call) == EmptyOperation <==> call.operation == ""
    ensures m.Decide(call) == Unavailable(Closed) <==> call.operation != "" && m.closed
    ensures m.Decide(call) == Unavailable(OperationBusy) <==>
      call.operation != "" && !m.closed && m.inFlight[call] >= m.limits.perOperation
    ensures m.Decide(call) == Unavailable(CapacityFull) <==>
      && call.operation != "" && !m.closed && m.inFlight[call] < m.limits.perOperation
      && Sum(m.inFlight, set x | x in m.inFlight && x.class_ == call.class_) >=
         if call.class_.RunEnd? then m.limits.runEnd else m.limits.normal
  {
    ClassTotalIsSum(m, call.class_);
  }

  /** A run-end call is judged by run-end calls alone, however many normal calls are in flight. */
  lemma RunEndIsIndependent(m: Model, n: Model, operation: string)
    requires m.closed == n.closed && m.limits.(normal := 0) == n.limits.(normal := 0)
    requires m.OfClass(RunEnd) == n.OfClass(RunEnd)
    ensures m.Decide(Call(RunEnd, operation)) == n.Decide(Call(RunEnd, operation))
  {
    var call := Call(RunEnd, operation);
    assert m.OfClass(RunEnd)[call] == n.OfClass(RunEnd)[call];
  }

  /** Admitting what is decided to be admitted keeps every limit and adds one to its class. */
  lemma AdmitEffect(m: Model, call: Call)
    requires m.WithinLimits() && m.Decide(call) == Admitted
    ensures var m' := m.(inFlight := m.inFlight + multiset{call});
      && m'.WithinLimits()
      && |m'.OfClass(Normal)| == |m.OfClass(Normal)| + (if call.class_.Normal? then 1 else 0)
      && |m'.OfClass(RunEnd)| == |m.OfClass(RunEnd)| + (if call.class_.RunEnd? then 1 else 0)
  {
    hide Restrict;
    RestrictAdd(m.inFlight, call, Normal);
    RestrictAdd(m.inFlight, call, RunEnd);
  }

  lemma SettleEffect(m: Model, call: Call)
    requires m.WithinLimits() && call in m.inFlight
    ensures var m' := m.(inFlight := m.inFlight - multiset{call});
      && m'.WithinLimits()
      && |m'.OfClass(Normal)| == |m.OfClass(Normal)| - (if call.class_.Normal? then 1 else 0)
      && |m'.OfClass(RunEnd)| == |m.OfClass(RunEnd)| - (if call.class_.RunEnd? then 1 else 0)
  {
    hide Restrict;
    RestrictRemove(m.inFlight, call, Normal);
    RestrictRemove(m.inFlight, call, RunEnd);
  }

  ghost predicate Mirrors(counts: map<string, int>, inFlight: multiset<Call>) {
    forall call :: (Key(call) in counts <==> call in inFlight) && (call in inFlight ==> counts[Key(call)] == inFlight[call])
  }

  lemma MirrorsAdd(counts: map<string, int>, m: multiset<Call>, call: Call)
    requires Mirrors(counts, m)
    ensures Mirrors(counts[Key(call) := m[call] + 1], m + multiset{call})
  {
    forall other | other != call ensures Key(other) != Key(call) {
      KeyInjective(other, call);
    }
    hide Key;
    var counts' := counts[Key(call) := m[call] + 1];
    forall other ensures Key(other) in counts' <==> other in m + multiset{call} {
    }
  }

  lemma MirrorsRemove(counts: map<string, int>, m: multiset<Call>, call: Call)
    requires Mirrors(counts, m) && call in m
    ensures Mirrors(if m[call] <= 1 then counts - {Key(call)} else counts[Key(call) := m[call] - 1], m - multiset{call})
  {
    forall other | other != call ensures Key(other) != Key(call) {
      KeyInjective(other, call);
    }
    hide Key;
  }

  class Controller {
    const maxActiveNormal: nat
    const maxActiveRunEnd: nat
    const maxActivePerOperation: nat
    var activeNormal: int
    var activeRunEnd: int
    var closed: bool
    var activeByOperation: map<string, int>
    ghost var model: Model

    ghost predicate Valid()
      reads this
    {
      && model.limits == Limits(maxActiveNormal, maxActiveRunEnd, maxActivePerOperation)
      && model.closed == closed
      && model.WithinLimits()
      && activeNormal == |model.OfClass(Normal)|
      && activeRunEnd == |model.OfClass(RunEnd)|
      && Mirrors(activeByOperation, model.inFlight)
    }

    constructor (limits: Limits)
      ensures Valid() && model == Model(limits, multiset{}, false)
    {
      maxActiveNormal, maxActiveRunEnd, maxActivePerOperation := limits.normal, limits.runEnd, limits.perOperation;
      activeNormal, activeRunEnd, closed, activeByOperation := 0, 0, false, map[];
      model := Model(limits, multiset{}, false);
      new;
      assert model.OfClass(Normal) == multiset{} == model.OfClass(RunEnd);
    }

    method Close()
      requires Valid()
      modifies this`closed, this`model
      ensures Valid() && model == old(model).(closed := true)
    {
      closed := true;
      model := model.(closed := true);
    }

    /** Claims a permit for one physical call, or says why there is none and changes nothing. */
    method Admit(operation: string, callClass: CallClass) returns (outcome: Outcome)
      requires Valid()
      modifies this`activeNormal, this`activeRunEnd, this`activeByOperation, this`model
      ensures Valid() && outcome == old(model).Decide(Call(callClass, operation))
      ensures outcome.Admitted? ==> model == old(model).(inFlight := old(model).inFlight + multiset{Call(callClass, operation)})
      ensures !outcome.Admitted? ==> unchanged(this)
      ensures outcome == EmptyOperation <==> operation == ""
      ensures outcome == Unavailable(Closed) <==> operation != "" && closed
      ensures outcome == Unavailable(OperationBusy) <==>
        operation != "" && !closed && old(model).inFlight[Call(callClass, operation)] >= maxActivePerOperation
      ensures outcome == Unavailable(CapacityFull) <==>
        && operation != "" && !closed && old(model).inFlight[Call(callClass, operation)] < maxActivePerOperation
        && if callClass.RunEnd? then old(activeRunEnd) >= maxActiveRunEnd else old(activeNormal) >= maxActiveNormal
      ensures outcome.Admitted? ==>
        && activeRunEnd == old(activeRunEnd) + (if callClass.RunEnd? then 1 else 0)
        && activeNormal == old(activeNormal) + (if callClass.Normal? then 1 else 0)
    {
      hide Key, Mirrors, Model.OfClass, Model.WithinLimits;
      ghost var call := Call(callClass, operation);
      if |operation| == 0 {
        return EmptyOperation;
      }
      if closed {
        return Unavailable(Closed);
      }
      var operationKey := Key(Call(callClass, operation));
      MirrorsAt(activeByOperation, model.inFlight, call);
      var operationActive := if operationKey in activeByOperation then activeByOperation[operationKey] else 0;
      if operationActive >= maxActivePerOperation {
        return Unavailable(OperationBusy);
      }
      var classActive := if callClass.RunEnd? then activeRunEnd else activeNormal;
      var classLimit := if callClass.RunEnd? then maxActiveRunEnd else maxActiveNormal;
      if classActive >= classLimit {
        return Unavailable(CapacityFull);
      }
      AdmitEffect(model, call);
      MirrorsAdd(activeByOperation, model.inFlight, call);
      if callClass.RunEnd? {
        activeRunEnd := activeRunEnd + 1;
      } else {
        activeNormal := activeNormal + 1;
      }
      activeByOperation := activeByOperation[operationKey := operationActive + 1];
      model := model.(inFlight := model.inFlight + multiset{call});
      return Admitted;
    }

    /** The physical call settles, either way, and gives its permit back. No clamp ever takes effect. */
    method Settle(operation: string, callClass: CallClass)
      requires Valid() && Call(callClass, operation) in model.inFlight
      modifies this`activeNormal, this`activeRunEnd, this`activeByOperation, this`model
      ensures Valid() && model == old(model).(inFlight := old(model).inFlight - multiset{Call(callClass, operation)})
      ensures activeRunEnd == old(activeRunEnd) - (if callClass.RunEnd? then 1 else 0)
      ensures activeNormal == old(activeNormal) - (if callClass.Normal? then 1 else 0)
    {
      hide Key, Mirrors, Model.OfClass, Model.WithinLimits;
      ghost var call := Call(callClass, operation);
      var operationKey := Key(Call(callClass, operation));
      MirrorsAt(activeByOperation, model.inFlight, call);
      SettleEffect(model, call);
      MirrorsRemove(activeByOperation, model.inFlight, call);
      var current := if operationKey in activeByOperation then activeByOperation[operationKey] else 1;
      if current <= 1 {
        activeByOperation := activeByOperation - {operationKey};
      } else {
        activeByOperation := activeByOperation[operationKey := current - 1];
      }
      if callClass.RunEnd? {
        activeRunEnd := if activeRunEnd - 1 < 0 then 0 else activeRunEnd - 1;
      } else {
        activeNormal := if activeNormal - 1 < 0 then 0 else activeNormal - 1;
      }
      model := model.(inFlight := model.inFlight - multiset{call});
    }
  }

  lemma MirrorsAt(counts: map<string, int>, m: multiset<Call>, call: Call)
    requires Mirrors(counts, m)
    ensures Key(call) in counts <==> call in m
    ensures call in m ==> counts[Key(call)] == m[call]
  {
  }

  /** A limit that is given must be positive; one that is not given takes its default. */
  function PositiveInteger(value: Option<int>, fallback: nat): Option<nat> {
    if value.None? then Some(fallback) else if value.value <= 0 then None else Some(value.value)
  }

  /** Makes a controller unless a limit is refused. */
  method Create(normal: Option<int>, runEnd: Option<int>, perOperation: Option<int>) returns (controller: Option<Controller>)
    ensures controller.Some? <==>
      forall v :: v in {normal, runEnd, perOperation} && v.Some? ==> v.value > 0
    ensures controller.Some? ==> controller.value.Valid() && fresh(controller.value)
    ensures controller.Some? ==>
      && controller.value.model.inFlight == multiset{} && !controller.value.model.closed
      && controller.value.model.limits == Limits(if normal.Some? then normal.value else 32,
                                                 if runEnd.Some? then runEnd.value else 8,
                                                 if perOperation.Some? then perOperation.value else 4)
  {
    var a, b, c := PositiveInteger(normal, 32), PositiveInteger(runEnd, 8), PositiveInteger(perOperation, 4);
    if a.None? || b.None? || c.None? {
      return None;
    }
    var made := new Controller(Limits(a.value, b.value, c.value));
    return Some(made);
  }
}
