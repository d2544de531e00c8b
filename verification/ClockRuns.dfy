/** Runs of the compute clock, told from the list of calls alone. */
module ClockRuns {
  import opened Common
  import opened ComputeClock

  ghost function NewModel(budget: nat): Model {
    Model(budget, 0, map[], 0, map[], 0, false)
  }

  // What the calls leave outstanding.

  /** `on` was called, and none of `offs` since. */
  ghost predicate Outstanding(es: seq<Event>, on: Event, offs: set<Event>) {
    exists k :: 0 <= k < |es| && es[k] == on && forall j :: k < j < |es| ==> es[j] !in offs
  }

  /** The release that a `pauseCompute` returned has not been called. */
  ghost predicate HandleOut(es: seq<Event>, h: Id) {
    Outstanding(es, PauseCompute(h), {Release(h)})
  }

  /** The background region was entered and has not been left. */
  ghost predicate Live(es: seq<Event>, r: Id) {
    Outstanding(es, EnterBackground(r), {LeaveRegion(r)})
  }

  /** The region was held while live, and neither that hold taken back nor the region left since. */
  ghost predicate HoldOut(es: seq<Event>, r: Id, p: Id) {
    exists k :: 0 <= k < |es| && es[k] == Hold(r, p) && Live(es[..k], r)
      && forall j :: k < j < |es| ==> es[j] !in {Unhold(r, p), LeaveRegion(r), EnterBackground(r)}
  }

  lemma OutstandingMore(es: seq<Event>, e: Event, on: Event, offs: set<Event>)
    requires on !in offs
    ensures Outstanding(es + [e], on, offs) <==> e == on || (Outstanding(es, on, offs) && e !in offs)
  {
    var es' := es + [e];
    if k :| 0 <= k < |es'| && es'[k] == on && forall j :: k < j < |es'| ==> es'[j] !in offs {
      if k < |es| {
        assert es[k] == on && es'[|es|] == e;
        assert forall j :: k < j < |es| ==> es[j] == es'[j];
      }
    }
    if e == on {
      assert es'[|es|] == on;
    } else if k :| 0 <= k < |es| && es[k] == on && forall j :: k < j < |es| ==> es[j] !in offs {
      assert es'[k] == on;
    }
  }

  lemma HoldOutMore(es: seq<Event>, e: Event, r: Id, p: Id)
    ensures HoldOut(es + [e], r, p) <==>
      || (e == Hold(r, p) && Live(es, r))
      || (HoldOut(es, r, p) && e !in {Unhold(r, p), LeaveRegion(r), EnterBackground(r)})
  {
    hide Live;
    var es', offs := es + [e], {Unhold(r, p), LeaveRegion(r), EnterBackground(r)};
    assert forall k :: 0 <= k <= |es| ==> es'[..k] == es[..k];
    assert es[..|es|] == es && es'[|es|] == e;
    if k :| 0 <= k < |es'| && es'[k] == Hold(r, p) && Live(es'[..k], r) && forall j :: k < j < |es'| ==> es'[j] !in offs {
      if k < |es| {
        assert es[k] == Hold(r, p);
        assert forall j :: k < j < |es| ==> es[j] == es'[j];
      }
    }
    if e == Hold(r, p) && Live(es, r) {
      assert es'[|es|] == Hold(r, p);
    } else if k :| 0 <= k < |es| && es[k] == Hold(r, p) && Live(es[..k], r) && forall j :: k < j < |es| ==> es[j] !in offs {
      assert es'[k] == Hold(r, p);
    }
  }

  lemma RunSplit(m: Model, es: seq<Event>)
    requires es != []
    ensures es == es[..|es| - 1] + [es[|es| - 1]]
    ensures Run(m, es) == Run(m, es[..|es| - 1]).Step(es[|es| - 1])
  {
    hide Model.Step;
  }

  lemma {:induction false} HandlesAre(budget: nat, es: seq<Event>, h: Id)
    ensures h in Run(NewModel(budget), es).handles <==> HandleOut(es, h)
  {
    if es != [] {
      var n := |es| - 1;
      RunSplit(NewModel(budget), es);
      HandlesAre(budget, es[..n], h);
      OutstandingMore(es[..n], es[n], PauseCompute(h), {Release(h)});
    }
  }

  lemma RegionStep(m: Model, e: Event, r: Id)
    ensures r in m.Step(e).regions <==> e == EnterBackground(r) || (r in m.regions && e != LeaveRegion(r))
    ensures forall p :: r in m.Step(e).regions && p in m.Step(e).regions[r] <==>
      || (e == Hold(r, p) && r in m.regions)
      || (r in m.regions && p in m.regions[r] && e !in {Unhold(r, p), LeaveRegion(r), EnterBackground(r)})
  {
    hide Claims, Model.Paused, Model.Depth;
    if !(e.EnterBackground? || e.Hold? || e.Unhold? || e.LeaveRegion?) {
      SameRegions(m, e);
    }
  }

  lemma SameRegions(m: Model, e: Event)
    requires !(e.EnterBackground? || e.Hold? || e.Unhold? || e.LeaveRegion?)
    ensures m.Step(e).regions == m.regions
  {
    hide Claims, Model.Paused, Model.Depth;
  }

  /** The live regions and their pauses are those that the calls leave outstanding. */
  lemma {:induction false} RegionsAre(budget: nat, es: seq<Event>, r: Id)
    ensures r in Run(NewModel(budget), es).regions <==> Live(es, r)
    ensures forall p :: r in Run(NewModel(budget), es).regions && p in Run(NewModel(budget), es).regions[r] <==> HoldOut(es, r, p)
  {
    if es != [] {
      hide Model.Step, HoldOut, Outstanding;
      var n := |es| - 1;
      RunSplit(NewModel(budget), es);
      RegionsAre(budget, es[..n], r);
      RegionStep(Run(NewModel(budget), es[..n]), es[n], r);
      OutstandingMore(es[..n], es[n], EnterBackground(r), {LeaveRegion(r)});
      forall p ensures r in Run(NewModel(budget), es).regions && p in Run(NewModel(budget), es).regions[r] <==> HoldOut(es, r, p) {
        HoldOutMore(es[..n], es[n], r, p);
      }
    }
  }

  /** Enters less leaves. */
  ghost function Surplus(es: seq<Event>): int {
    Count(es, Enter) - Count(es, Leave)
  }

  lemma SurplusMore(es: seq<Event>, e: Event)
    ensures Surplus(es + [e]) == Surplus(es) + (if e == Enter then 1 else if e == Leave then -1 else 0)
  {
    assert (es + [e])[..|es|] == es;
  }

  /** `c` is the greatest surplus of enters over leaves from any point on. */
  ghost predicate GreatestSurplus(es: seq<Event>, c: int) {
    && (exists k :: 0 <= k <= |es| && Surplus(es[k..]) == c)
    && (forall k :: 0 <= k <= |es| ==> Surplus(es[k..]) <= c)
  }

  lemma GreatestMore(es: seq<Event>, e: Event, c: nat)
    requires GreatestSurplus(es, c)
    ensures GreatestSurplus(es + [e], if e == Enter then c + 1 else if e == Leave then (if c == 0 then 0 else c - 1) else c)
  {
    hide Surplus;
    var es' := es + [e];
    assert Surplus(es'[|es'|..]) == 0 by { NoSurplus(); assert es'[|es'|..] == []; }
    forall k | 0 <= k <= |es|
      ensures Surplus(es'[k..]) == Surplus(es[k..]) + (if e == Enter then 1 else if e == Leave then -1 else 0)
    {
      assert es'[k..] == es[k..] + [e];
      SurplusMore(es[k..], e);
    }
    var k :| 0 <= k <= |es| && Surplus(es[k..]) == c;
    assert Surplus(es'[k..]) == Surplus(es[k..]) + (if e == Enter then 1 else if e == Leave then -1 else 0);
  }

  lemma NoSurplus()
    ensures Surplus([]) == 0
  {
  }

  lemma ComputeStep(m: Model, e: Event)
    ensures m.Step(e).compute ==
      if e == Enter then m.compute + 1 else if e == Leave then (if m.compute == 0 then 0 else m.compute - 1) else m.compute
  {
    hide Claims;
  }

  /** The compute regions counted are the greatest surplus of enters over leaves from any point on. */
  lemma {:induction false} ComputeIs(budget: nat, es: seq<Event>)
    ensures GreatestSurplus(es, Run(NewModel(budget), es).compute)
  {
    hide Model.Step, Surplus;
    if es == [] {
      NoSurplus();
      assert es[0..] == [];
    } else {
      hide GreatestSurplus;
      var n := |es| - 1;
      RunSplit(NewModel(budget), es);
      ComputeIs(budget, es[..n]);
      ComputeStep(Run(NewModel(budget), es[..n]), es[n]);
      GreatestMore(es[..n], es[n], Run(NewModel(budget), es[..n]).compute);
    }
  }

  /** There are more compute regions than claims on them. */
  ghost predicate Unclaimed(budget: nat, es: seq<Event>) {
    Run(NewModel(budget), es).compute > |Claims(Run(NewModel(budget), es).handles)|
  }

  /** The pause is outstanding, and found an unclaimed region when it was made. */
  ghost predicate ClaimOut(budget: nat, es: seq<Event>, h: Id) {
    exists k :: 0 <= k < |es| && es[k] == PauseCompute(h) && Unclaimed(budget, es[..k])
      && forall j :: k < j < |es| ==> es[j] !in {PauseCompute(h), Release(h)}
  }

  lemma ClaimOutMore(budget: nat, es: seq<Event>, e: Event, h: Id)
    ensures ClaimOut(budget, es + [e], h) <==>
      if e == PauseCompute(h) then Unclaimed(budget, es) else ClaimOut(budget, es, h) && e != Release(h)
  {
    hide Unclaimed;
    var es', offs := es + [e], {PauseCompute(h), Release(h)};
    assert forall k :: 0 <= k <= |es| ==> es'[..k] == es[..k];
    assert es[..|es|] == es && es'[|es|] == e;
    if k :| 0 <= k < |es'| && es'[k] == PauseCompute(h) && Unclaimed(budget, es'[..k])
            && forall j :: k < j < |es'| ==> es'[j] !in offs {
      if k < |es| {
        assert es[k] == PauseCompute(h);
        assert forall j :: k < j < |es| ==> es[j] == es'[j];
      }
    }
    if e == PauseCompute(h) {
      assert es'[|es|] == PauseCompute(h) && es'[..|es|] == es;
    } else if k :| 0 <= k < |es| && es[k] == PauseCompute(h) && Unclaimed(budget, es[..k])
                   && forall j :: k < j < |es| ==> es[j] !in offs {
      assert es'[k] == PauseCompute(h);
    }
  }

  lemma ClaimStep(m: Model, e: Event, h: Id)
    ensures h in Claims(m.Step(e).handles) <==>
      if e == PauseCompute(h) then m.compute > |Claims(m.handles)| else h in Claims(m.handles) && e != Release(h)
  {
  }

  /** The claims counted are those of the outstanding pauses that found an unclaimed region. */
  lemma {:induction false} ClaimsAre(budget: nat, es: seq<Event>, h: Id)
    ensures h in Claims(Run(NewModel(budget), es).handles) <==> ClaimOut(budget, es, h)
  {
    if es != [] {
      hide Claims, Model.Step, ClaimOut;
      var n := |es| - 1;
      RunSplit(NewModel(budget), es);
      ClaimsAre(budget, es[..n], h);
      ClaimStep(Run(NewModel(budget), es[..n]), es[n], h);
      ClaimOutMore(budget, es[..n], es[n], h);
    }
  }

  lemma {:induction false} StoppedIff(budget: nat, es: seq<Event>)
    ensures Run(NewModel(budget), es).stopped <==> Stop in es
    ensures Run(NewModel(budget), es).budget == budget
  {
    if es != [] {
      var n := |es| - 1;
      RunSplit(NewModel(budget), es);
      StoppedIff(budget, es[..n]);
    }
  }

  /**
   * With paired pauses and resumes, the clock stands still exactly while more pauses than resumes were called or a
   * `pauseCompute` is outstanding, every compute region is claimed, and every live background region is held.
   */
  lemma PausedFromCalls(budget: nat, es: seq<Event>)
    requires Paired(es)
    ensures Run(NewModel(budget), es).Paused() <==>
      && (Count(es, Pause) > Count(es, Resume) || exists h :: HandleOut(es, h))
      && (forall c :: GreatestSurplus(es, c) ==> c <= |Claims(Run(NewModel(budget), es).handles)|)
      && (forall r :: Live(es, r) ==> exists p :: HoldOut(es, r, p))
  {
    hide Run, HandleOut, Live, HoldOut, GreatestSurplus, Claims;
    var m := Run(NewModel(budget), es);
    assert es[..|es|] == es;
    PairedPlain(NewModel(budget), es, |es|);
    assert m.plain >= 0;
    assert m.Depth() > 0 <==> Count(es, Pause) > Count(es, Resume) || exists h :: HandleOut(es, h) by {
      forall h ensures h in m.handles <==> HandleOut(es, h) {
        HandlesAre(budget, es, h);
      }
      assert m.handles != map[] ==> exists h :: h in m.handles;
    }
    ComputeIs(budget, es);
    forall c | GreatestSurplus(es, c) ensures c == m.compute {
      OneGreatest(es, c, m.compute);
    }
    forall r ensures r in m.regions <==> Live(es, r) {
      RegionsAre(budget, es, r);
    }
    forall r | r in m.regions ensures m.regions[r] != {} <==> exists p :: HoldOut(es, r, p) {
      RegionsAre(budget, es, r);
    }
  }

  lemma OneGreatest(es: seq<Event>, c: int, d: int)
    requires GreatestSurplus(es, c) && GreatestSurplus(es, d)
    ensures c == d
  {
    hide Surplus;
  }

  // The time charged.

  /** The clock runs before call `k`: it is not paused, and has not stopped. */
  ghost predicate Runs(budget: nat, es: seq<Event>, k: nat)
    requires k <= |es|
  {
    !Run(NewModel(budget), es[..k]).Paused() && Stop !in es[..k]
  }

  /** Call `from - 1` is the last poke of a clock that had not stopped; there is none when `from` is zero. */
  ghost predicate LastPoke(es: seq<Event>, from: nat) {
    && from <= |es|
    && (from > 0 ==> es[from - 1] == Poke && Stop !in es[..from - 1])
    && forall k :: from <= k < |es| && es[k] == Poke ==> Stop in es[..k]
  }

  /** The time that passed from call `from` on, while the clock ran. */
  ghost function TimeRun(budget: nat, es: seq<Event>, from: nat): nat
    requires from <= |es|
    decreases |es|
  {
    if from == |es| then 0
    else
      var n := |es| - 1;
      TimeRun(budget, es[..n], from) + if es[n].Advance? && Runs(budget, es, n) then es[n].ms else 0
  }

  /** The time charged is the time that passed, while the clock ran, since the last poke. */
  lemma {:induction false} SpentIsTimeRun(budget: nat, es: seq<Event>, from: nat)
    requires LastPoke(es, from)
    ensures Run(NewModel(budget), es).spent == TimeRun(budget, es, from)
  {
    if es != [] {
      var n := |es| - 1;
      var m := Run(NewModel(budget), es[..n]);
      RunSplit(NewModel(budget), es);
      StoppedIff(budget, es[..n]);
      if from == |es| {
        assert m.Step(Poke).spent == 0;
      } else {
        assert forall k :: 0 <= k <= n ==> es[..n][..k] == es[..k];
        SpentIsTimeRun(budget, es[..n], from);
        SpentStep(m, es[n]);
      }
    }
  }

  lemma SpentStep(m: Model, e: Event)
    ensures m.Step(e).spent ==
      if e == Poke && !m.stopped then 0
      else m.spent + if e.Advance? && !m.Paused() && !m.stopped then e.ms else 0
  {
  }

  lemma {:induction false} SomeLastPoke(es: seq<Event>) returns (from: nat)
    ensures LastPoke(es, from)
  {
    from := 0;
    if es != [] {
      var n := |es| - 1;
      assert forall k :: 0 <= k <= n ==> es[..n][..k] == es[..k];
      if es[n] == Poke && Stop !in es[..n] {
        from := |es|;
      } else {
        from := SomeLastPoke(es[..n]);
      }
    }
  }

  /**
   * Plays any calls on a new clock. Until it stops, it has left its budget less the time that passed, while it
   * ran, since the last poke; it stops when its timer runs or its race is over.
   */
  method PlayNew(timeoutMs: int, es: seq<Event>) returns (clock: Clock, happened: seq<bool>)
    ensures clock.Valid() && clock.timeoutMs == timeoutMs && |happened| == |es|
    ensures forall k :: 0 <= k < |es| && Unconditional(es[k]) ==> happened[k]
    ensures clock.fired <==> Stop in Chosen(es, happened)
    ensures !clock.fired ==> forall from :: LastPoke(Chosen(es, happened), from) ==>
      clock.Left() == Max(0, Max(0, timeoutMs) - TimeRun(Max(0, timeoutMs), Chosen(es, happened), from))
  {
    hide TimeRun, Chosen, Run, Captured, Clock.Counted, Clock.Raced;
    clock := new Clock(timeoutMs);
    happened := clock.Play(es);
    StoppedIff(Max(0, timeoutMs), Chosen(es, happened));
    forall from | LastPoke(Chosen(es, happened), from)
      ensures clock.model.spent == TimeRun(Max(0, timeoutMs), Chosen(es, happened), from)
    {
      SpentIsTimeRun(Max(0, timeoutMs), Chosen(es, happened), from);
    }
    if !clock.fired {
      LeftIsUnspent(clock);
    }
  }
}
