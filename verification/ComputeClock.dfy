/** The pausable compute clock: integer counters and one timer against the sets they stand for. */
module ComputeClock {
  import opened Common

  // The longest delay a JavaScript timer holds.
  const MAX_DELAY_MS := 2_147_483_647

  type Id = nat

  function Claims(handles: map<Id, bool>): set<Id> {
    set h | h in handles && handles[h]
  }

  function PausedRegions(live: map<Id, set<Id>>): set<Id> {
    set r | r in live && live[r] != {}
  }

  /**
   * What the counters stand for: every unreleased pause by name, and the running time charged.
   * `plain` counts calls of `pause` less effective calls of `resume`; `handles` maps each unreleased
   * `pauseCompute` to whether it claimed a compute region; `regions` maps each live background
   * region to its unreleased pauses.
   */
  datatype Model = Model(budget: nat, plain: int, handles: map<Id, bool>, compute: nat, regions: map<Id, set<Id>>,
                         spent: nat, stopped: bool)
  {
    function Depth(): int {
      plain + |handles|
    }

    /** Somebody holds a pause, every compute region is claimed, and every live background region is paused. */
    predicate Paused() {
      Depth() > 0 && compute <= |Claims(handles)| && forall r :: r in regions ==> regions[r] != {}
    }

    function Release(h: Id): Model {
      this.(handles := handles - {h})
    }

    function Step(e: Event): Model {
      match e
      case Pause => this.(plain := plain + 1)
      case Resume => if Depth() == 0 then this else this.(plain := plain - 1)
      case Enter => this.(compute := compute + 1)
      case Leave => if compute == 0 then this else this.(compute := compute - 1)
      case PauseCompute(h) => this.(handles := handles[h := compute > |Claims(handles)|])
      case Release(h) => Release(h)
      case EnterBackground(r) => this.(regions := regions[r := {}])
      case Hold(r, p) => if r in regions then this.(regions := regions[r := regions[r] + {p}]) else this
      case Unhold(r, p) => if r in regions then this.(regions := regions[r := regions[r] - {p}]) else this
      case LeaveRegion(r) => this.(regions := regions - {r})
      case Poke => if stopped then this else this.(spent := 0)
      case Advance(ms) => if stopped || Paused() then this else this.(spent := spent + ms)
      case Stop => this.(stopped := true)
      case StartRace => this
      case LoopEnds => this
    }
  }

  datatype Event =
    | Pause | Resume | Enter | Leave
    | PauseCompute(handle: Id) | Release(handle: Id)
    | EnterBackground(region: Id) | Hold(region: Id, hold: Id) | Unhold(region: Id, hold: Id) | LeaveRegion(region: Id)
    | Poke | Advance(ms: nat) | Stop | StartRace | LoopEnds

  // The variables captured by the functions a pause returns, and by a background region.
  datatype ReleaseCell = ReleaseCell(claimed: bool, released: bool)
  datatype RegionCell = RegionCell(depth: int, left: bool)
  datatype HoldCell = HoldCell(region: Id, released: bool)

  datatype Cells = Cells(nextId: Id, releases: map<Id, ReleaseCell>, regions: map<Id, RegionCell>,
                               holds: map<Id, HoldCell>)

  ghost predicate CapturedHandles(handles: map<Id, bool>, releases: map<Id, ReleaseCell>) {
    && (forall h :: h in handles <==> h in releases && !releases[h].released)
    && (forall h :: h in handles ==> handles[h] == releases[h].claimed)
  }

  ghost predicate CapturedRegions(live: map<Id, set<Id>>, regions: map<Id, RegionCell>) {
    && (forall r :: r in live <==> r in regions && !regions[r].left)
    && (forall r :: r in live ==> regions[r].depth == |live[r]|)
  }

  ghost predicate CapturedHolds(live: map<Id, set<Id>>, holds: map<Id, HoldCell>) {
    forall r, p {:trigger p in live[r]} :: r in live ==>
      (p in live[r] <==> p in holds && holds[p].region == r && !holds[p].released)
  }

  /** Names in use were given out, and every hold names a region. */
  ghost predicate Issued(c: Cells) {
    && (forall i :: i in c.releases ==> i < c.nextId)
    && (forall i :: i in c.regions ==> i < c.nextId)
    && (forall p :: p in c.holds ==> p < c.nextId && c.holds[p].region in c.regions)
  }

  /** The captured variables are those of the unreleased pauses and the live regions. */
  ghost predicate Captured(handles: map<Id, bool>, live: map<Id, set<Id>>, c: Cells) {
    && Issued(c)
    && CapturedHandles(handles, c.releases)
    && CapturedRegions(live, c.regions)
    && CapturedHolds(live, c.holds)
  }

  /** No name is forgotten, and a hold stays one of its region. */
  ghost predicate Grows(c: Cells, d: Cells) {
    && c.nextId <= d.nextId && c.releases.Keys <= d.releases.Keys && c.regions.Keys <= d.regions.Keys
    && (forall p :: p in c.holds ==> p in d.holds && d.holds[p].region == c.holds[p].region)
  }

  lemma GrowsOn(c: Cells, d: Cells, e: Cells)
    ensures Grows(c, c)
    ensures Grows(c, d) && Grows(d, e) ==> Grows(c, e)
  {
  }

  datatype Verdict = Finished | Timeout

  class Clock {
    const timeoutMs: int
    var remaining: int
    var runningSince: Option<int>
    var pauseDepth: int
    var activeCompute: int
    var computePaused: int
    var bgActive: int
    var bgPaused: int
    var timer: Option<int>
    var fired: bool
    var raceConsumed: bool
    var loopSettled: bool
    var result: Option<Verdict>

    var now: int
    var cells: Cells

    ghost var model: Model

    /** The counters count the sets of the model. */
    ghost predicate Counted()
      reads this
    {
      && pauseDepth == model.Depth()
      && activeCompute == model.compute
      && computePaused == |Claims(model.handles)|
      && bgActive == |model.regions|
      && bgPaused == |PausedRegions(model.regions)|
    }

    /** Until the clock stops, the timer and the remaining budget account for the charged time. */
    ghost predicate Accounts(budget: nat, spent: nat, stopped: bool)
      reads this`remaining, this`runningSince, this`timer, this`fired, this`now
    {
      && budget == Max(0, timeoutMs) && stopped == fired && remaining >= 0
      && (!fired ==>
            && (timer.Some? <==> runningSince.Some?)
            && (timer.Some? ==>
                  && timer.value == runningSince.value + Min(remaining, MAX_DELAY_MS)
                  && 0 <= now - runningSince.value <= spent
                  && remaining == Max(0, budget - (spent - (now - runningSince.value))))
            && (timer.None? ==> remaining == Max(0, budget - spent)))
    }

    ghost predicate Accounted()
      reads this
    {
      Accounts(model.budget, model.spent, model.stopped)
    }

    /**
     * A race is decided once it has begun and the loop has settled or the clock has stopped; it answers
     * "timeout" only on a stopped clock that has charged its budget or the longest delay.
     */
    ghost predicate Raced(budget: nat, spent: nat)
      reads this`raceConsumed, this`loopSettled, this`result, this`fired
    {
      && (result.Some? <==> raceConsumed && (loopSettled || fired))
      && (result == Some(Finished) ==> loopSettled)
      && (result == Some(Timeout) ==> fired && spent >= Min(budget, MAX_DELAY_MS))
      && (fired ==> raceConsumed || spent >= Min(budget, MAX_DELAY_MS))
    }

    /** Until the clock stops, its timer runs exactly when the model is not paused. */
    ghost predicate Valid()
      reads this
    {
      && Counted() && Captured(model.handles, model.regions, cells) && Accounted() && Raced(model.budget, model.spent)
      && (!fired ==> (timer.Some? <==> !model.Paused()))
    }

    predicate EffectivePaused()
      reads this
    {
      pauseDepth > 0 && activeCompute <= computePaused && bgActive <= bgPaused
    }

    method StopTimer()
      requires Accounted() && !fired
      modifies this`remaining, this`runningSince, this`timer
      ensures Accounted() && timer == None
    {
      if runningSince.Some? {
        remaining := Max(0, remaining - (now - runningSince.value));
        runningSince := None;
      }
      timer := None;
    }

    method Arm()
      requires Accounted() && Counted()
      modifies this`runningSince, this`timer
      ensures Accounted() && (!fired && !model.Paused() ==> timer.Some?)
      ensures fired || model.Paused() ==> timer == old(timer)
    {
      PausedIff(model);
      if fired || EffectivePaused() || timer.Some? {
        return;
      }
      runningSince := Some(now);
      timer := Some(now + Min(remaining, MAX_DELAY_MS));
    }

    method Sync()
      requires Accounted() && Counted()
      modifies this`remaining, this`runningSince, this`timer
      ensures Accounted() && (!fired ==> (timer.Some? <==> !model.Paused()))
    {
      if fired {
        return;
      }
      PausedIff(model);
      if EffectivePaused() {
        StopTimer();
      } else {
        Arm();
      }
    }

    constructor (timeoutMs: int)
      ensures Valid() && this.timeoutMs == timeoutMs && !raceConsumed && !loopSettled && result == None
      ensures model == Model(Max(0, timeoutMs), 0, map[], 0, map[], 0, false)
    {
      this.timeoutMs := timeoutMs;
      remaining := Max(0, timeoutMs);
      runningSince, timer := None, None;
      pauseDepth, activeCompute, computePaused, bgActive, bgPaused := 0, 0, 0, 0, 0;
      fired, raceConsumed, loopSettled, result := false, false, false, None;
      now, cells := 0, Cells(0, map[], map[], map[]);
      model := Model(Max(0, timeoutMs), 0, map[], 0, map[], 0, false);
      new;
      assert Claims(model.handles) == {} && PausedRegions(model.regions) == {};
      Arm();
    }

    method AddPause()
      requires Valid()
      modifies this`pauseDepth, this`remaining, this`runningSince, this`timer, this`model
      ensures Valid() && model == old(model).Step(Pause)
      ensures pauseDepth == old(pauseDepth) + 1
    {
      hide Captured, Model.Paused, Claims, PausedRegions, Clock.Accounts, Clock.Raced;
      pauseDepth := pauseDepth + 1;
      model := model.Step(Pause);
      Sync();
    }

    method RemovePause()
      requires Valid()
      modifies this`pauseDepth, this`remaining, this`runningSince, this`timer, this`model
      ensures Valid() && model == old(model).Step(Resume)
      ensures pauseDepth == if old(pauseDepth) == 0 then 0 else old(pauseDepth) - 1
    {
      hide Captured, Model.Paused, Claims, PausedRegions, Clock.Accounts, Clock.Raced;
      model := model.Step(Resume);
      if pauseDepth == 0 {
        return;
      }
      pauseDepth := pauseDepth - 1;
      Sync();
    }

    method EnterCompute()
      requires Valid()
      modifies this`activeCompute, this`remaining, this`runningSince, this`timer, this`model
      ensures Valid() && model == old(model).Step(Enter)
      ensures activeCompute == old(activeCompute) + 1
    {
      hide Captured, Model.Paused, Claims, PausedRegions, Clock.Accounts, Clock.Raced;
      activeCompute := activeCompute + 1;
      model := model.Step(Enter);
      Sync();
    }

    method LeaveCompute()
      requires Valid()
      modifies this`activeCompute, this`remaining, this`runningSince, this`timer, this`model
      ensures Valid() && model == old(model).Step(Leave)
      ensures activeCompute == if old(activeCompute) == 0 then 0 else old(activeCompute) - 1
    {
      hide Captured, Model.Paused, Claims, PausedRegions, Clock.Accounts, Clock.Raced;
      model := model.Step(Leave);
      if activeCompute == 0 {
        return;
      }
      activeCompute := activeCompute - 1;
      Sync();
    }

    method PauseForCompute() returns (handle: Id)
      requires Valid()
      modifies this`pauseDepth, this`computePaused, this`cells, this`remaining, this`runningSince, this`timer, this`model
      ensures Valid() && handle == old(cells).nextId && handle !in old(model).handles
      ensures model == old(model).Step(PauseCompute(handle))
      ensures handle in cells.releases && Grows(old(cells), cells)
      ensures pauseDepth == old(pauseDepth) + 1
      ensures computePaused == old(computePaused) + (if old(activeCompute) > old(computePaused) then 1 else 0)
      ensures cells.releases[handle] == ReleaseCell(old(activeCompute) > old(computePaused), false)
    {
      hide Captured, Model.Paused, Claims, PausedRegions, Clock.Accounts, Clock.Raced;
      handle := cells.nextId;
      NewHandle(model, cells, activeCompute > computePaused);
      NewHandleCounts(model, handle);
      cells := cells.(nextId := cells.nextId + 1);
      pauseDepth := pauseDepth + 1;
      var claimed := activeCompute > computePaused;
      if claimed {
        computePaused := computePaused + 1;
      }
      cells := cells.(releases := cells.releases[handle := ReleaseCell(claimed, false)]);
      model := model.Step(PauseCompute(handle));
      Sync();
    }

    /** Calls the function that `PauseForCompute` returned. */
    method ReleaseCompute(handle: Id)
      requires Valid() && handle in cells.releases
      modifies this`pauseDepth, this`computePaused, this`cells, this`remaining, this`runningSince, this`timer, this`model
      ensures Valid() && model == old(model).Step(Release(handle))
      ensures Grows(old(cells), cells) && cells.releases[handle] == old(cells).releases[handle].(released := true)
      ensures var cell := old(cells).releases[handle];
        && pauseDepth == old(pauseDepth) - (if cell.released then 0 else 1)
        && computePaused == old(computePaused) - (if !cell.released && cell.claimed then 1 else 0)
    {
      hide Captured, Model.Paused, Claims, PausedRegions, Clock.Accounts, Clock.Raced, Model.Step;
      DropHandle(model, cells, handle);
      model := model.Step(Release(handle));
      if cells.releases[handle].released {
        return;
      }
      ReleaseEffect(old(model), cells, handle);
      cells := cells.(releases := cells.releases[handle := cells.releases[handle].(released := true)]);
      pauseDepth := pauseDepth - 1;
      if cells.releases[handle].claimed {
        computePaused := computePaused - 1;
      }
      Sync();
    }

    method BackgroundRegion() returns (region: Id)
      requires Valid()
      modifies this`bgActive, this`cells, this`remaining, this`runningSince, this`timer, this`model
      ensures Valid() && region == old(cells).nextId && region !in old(model).regions && region in cells.regions
      ensures model == old(model).Step(EnterBackground(region))
      ensures bgActive == old(bgActive) + 1
      ensures Grows(old(cells), cells)
    {
      hide Captured, Model.Paused, Claims, PausedRegions, Clock.Accounts, Clock.Raced;
      region := cells.nextId;
      NewRegion(model, cells);
      NewRegionCounts(model.regions, region);
      cells := cells.(nextId := cells.nextId + 1);
      bgActive := bgActive + 1;
      cells := cells.(regions := cells.regions[region := RegionCell(0, false)]);
      model := model.Step(EnterBackground(region));
      Sync();
    }

    method HoldRegion(region: Id) returns (hold: Id)
      requires Valid() && region in cells.regions
      modifies this`bgPaused, this`cells, this`remaining, this`runningSince, this`timer, this`model
      ensures Valid() && hold == old(cells).nextId && hold in cells.holds
      ensures model == old(model).Step(Hold(region, hold))
      ensures cells.holds[hold].region == region && Grows(old(cells), cells)
      ensures var cell := old(cells).regions[region];
        bgPaused == old(bgPaused) + (if !cell.left && cell.depth == 0 then 1 else 0)
    {
      hide Captured, Model.Paused, Claims, PausedRegions, Clock.Accounts, Clock.Raced, Model.Step;
      hold := cells.nextId;
      FreshHold(model, cells);
      var cell := cells.regions[region];
      model := model.Step(Hold(region, hold));
      if cell.left {
        HoldIgnored(old(model), cells, region);
        cells := cells.(nextId := hold + 1, holds := cells.holds[hold := HoldCell(region, true)]);
        return;
      }
      HoldEffect(old(model), cells, region);
      cells := cells.(nextId := hold + 1, holds := cells.holds[hold := HoldCell(region, false)],
                      regions := cells.regions[region := RegionCell(cell.depth + 1, false)]);
      if cell.depth + 1 == 1 {
        bgPaused := bgPaused + 1;
      }
      Sync();
    }

    /** Calls the function that `HoldRegion` returned. */
    method UnholdRegion(hold: Id)
      requires Valid() && hold in cells.holds
      modifies this`bgPaused, this`cells, this`remaining, this`runningSince, this`timer, this`model
      ensures Valid() && model == old(model).Step(Unhold(old(cells).holds[hold].region, hold))
      ensures Grows(old(cells), cells)
      ensures old(cells).holds[hold].region in old(cells).regions &&
        var cell := old(cells).regions[old(cells).holds[hold].region];
        bgPaused == old(bgPaused) - (if !old(cells).holds[hold].released && !cell.left && cell.depth == 1 then 1 else 0)
    {
      hide Captured, Model.Paused, Claims, PausedRegions, Clock.Accounts, Clock.Raced, Model.Step;
      var region := cells.holds[hold].region;
      DropHold(model, cells, hold);
      model := model.Step(Unhold(region, hold));
      if cells.holds[hold].released || cells.regions[region].left {
        return;
      }
      UnholdEffect(old(model), cells, hold);
      cells := cells.(holds := cells.holds[hold := HoldCell(region, true)]);
      cells := cells.(regions := cells.regions[region := RegionCell(cells.regions[region].depth - 1, false)]);
      if cells.regions[region].depth == 0 {
        bgPaused := bgPaused - 1;
      }
      Sync();
    }

    method LeaveBackground(region: Id)
      requires Valid() && region in cells.regions
      modifies this`bgActive, this`bgPaused, this`cells, this`remaining, this`runningSince, this`timer, this`model
      ensures Valid() && model == old(model).Step(LeaveRegion(region))
      ensures Grows(old(cells), cells) && cells.regions[region].left
      ensures var cell := old(cells).regions[region];
        && bgActive == old(bgActive) - (if cell.left then 0 else 1)
        && bgPaused == old(bgPaused) - (if !cell.left && cell.depth > 0 then 1 else 0)
    {
      hide Captured, Model.Paused, Claims, PausedRegions, Clock.Accounts, Clock.Raced, Model.Step;
      DropRegion(model, cells, region);
      model := model.Step(LeaveRegion(region));
      if cells.regions[region].left {
        return;
      }
      LeaveEffect(old(model), cells, region);
      bgActive := bgActive - 1;
      if cells.regions[region].depth > 0 {
        bgPaused := bgPaused - 1;
      }
      cells := cells.(regions := cells.regions[region := RegionCell(0, true)]);
      Sync();
    }

    method PokeBudget()
      requires Valid()
      modifies this`remaining, this`runningSince, this`timer, this`model
      ensures Valid() && model == old(model).Step(Poke)
      ensures if old(fired) then Left() == old(Left()) && timer == old(timer) else Left() == Max(0, timeoutMs)
    {
      hide Captured, Model.Paused, Claims, PausedRegions;
      model := model.Step(Poke);
      if fired {
        return;
      }
      remaining := Max(0, timeoutMs);
      timer := None;
      runningSince := None;
      Sync();
    }

    /** Time passes; nothing else happens. */
    method PassTime(ms: nat)
      requires Valid()
      modifies this`now, this`model
      ensures Valid() && model == old(model).Step(Advance(ms)) && now == old(now) + ms
      ensures !fired ==> Left() == if timer.Some? then Max(0, old(Left()) - ms) else old(Left())
    {
      hide Captured, Claims, PausedRegions;
      now := now + ms;
      model := model.Step(Advance(ms));
    }

    /** The timer may run its callback: it is set, and its delay has passed. */
    predicate Due()
      reads this
    {
      timer.Some? && now >= timer.value
    }

    /** The timer's callback. */
    method Fire()
      requires Valid() && !fired && Due()
      modifies this`fired, this`timer, this`runningSince, this`result, this`model
      ensures Valid() && model == old(model).Step(Stop)
      ensures model.spent >= Min(model.budget, MAX_DELAY_MS)
      ensures timeoutMs <= 0x7FFF_FFFF ==> model.spent >= model.budget
      ensures fired && result == if raceConsumed && old(result).None? then Some(Timeout) else old(result)
    {
      hide Captured, Model.Paused, Claims, PausedRegions;
      fired := true;
      timer := None;
      runningSince := None;
      model := model.Step(Stop);
      if raceConsumed && result.None? {
        result := Some(Timeout);
      }
    }

    /**
     * Starts the one race of the loop against the timeout; a second race is refused. A loop that has settled
     * wins even on a clock that has fired, since its settlement is listened to first.
     */
    method Race() returns (started: bool)
      requires Valid()
      modifies this`raceConsumed, this`result
      ensures Valid() && started == !old(raceConsumed) && raceConsumed && (old(result).Some? ==> !started)
      ensures result ==
        if !started then old(result) else if loopSettled then Some(Finished) else if fired then Some(Timeout) else None
    {
      if raceConsumed {
        return false;
      }
      raceConsumed := true;
      if loopSettled {
        result := Some(Finished);
      } else if fired {
        result := Some(Timeout);
      }
      return true;
    }

    /** The loop's promise settles; it decides a race under way unless the timeout already has. */
    method LoopSettles()
      requires Valid()
      modifies this`loopSettled, this`result
      ensures Valid() && loopSettled
      ensures result == if raceConsumed && old(result).None? then Some(Finished) else old(result)
    {
      loopSettled := true;
      if raceConsumed && result.None? {
        result := Some(Finished);
      }
    }

    /** Once the race is decided, the clock stops for good. */
    method FinishRace()
      requires Valid() && result.Some?
      modifies this`timer, this`fired, this`model
      ensures Valid() && timer.None? && model == old(model).Step(Stop)
    {
      hide Captured, Model.Paused, Claims, PausedRegions;
      timer := None;
      fired := true;
      model := model.Step(Stop);
    }

    /** The call can be made: it names what the clock gave out, or asks for the next name; or the timer is due. */
    predicate Possible(e: Event)
      reads this
    {
      match e
      case PauseCompute(h) => h == cells.nextId
      case Release(h) => h in cells.releases
      case EnterBackground(r) => r == cells.nextId
      case Hold(r, p) => r in cells.regions && p == cells.nextId
      case Unhold(r, p) => p in cells.holds && cells.holds[p].region == r
      case LeaveRegion(r) => r in cells.regions
      case Stop => (!fired && Due()) || result.Some?
      case _ => true
    }

    /** A race once begun has begun, and an answer once given stands. */
    ghost predicate RaceKept(begun: bool, answer: Option<Verdict>)
      reads this`raceConsumed, this`result
    {
      (begun ==> raceConsumed) && (answer.Some? ==> result == answer)
    }

    /** Makes one call, whichever it is; a call that cannot be made is none. */
    method Apply(e: Event) returns (happened: bool)
      requires Valid()
      modifies this
      ensures Valid() && happened == old(Possible(e))
      ensures model == if happened then old(model).Step(e) else old(model)
      ensures Grows(old(cells), cells) && RaceKept(old(raceConsumed), old(result))
    {
      hide Clock.Valid, Model.Step, Grows;
      GrowsOn(cells, cells, cells);
      happened := Possible(e);
      if !happened {
        return;
      }
      match e {
        case Pause => AddPause();
        case Resume => RemovePause();
        case Enter => EnterCompute();
        case Leave => LeaveCompute();
        case PauseCompute(_) => var handle := PauseForCompute();
        case Release(h) => ReleaseCompute(h);
        case EnterBackground(_) => var region := BackgroundRegion();
        case Hold(r, _) => var hold := HoldRegion(r);
        case Unhold(_, p) => UnholdRegion(p);
        case LeaveRegion(r) => LeaveBackground(r);
        case Poke => PokeBudget();
        case Advance(ms) => PassTime(ms);
        case StartRace => var started := Race(); SameStep(old(model), e);
        case LoopEnds => LoopSettles(); SameStep(old(model), e);
        case Stop =>
          if !fired && Due() {
            Fire();
          } else {
            FinishRace();
          }
      }
    }

    /** Makes calls one after the other. Over every sequence of them the clock stays valid and follows its model. */
    method Play(es: seq<Event>) returns (happened: seq<bool>)
      requires Valid()
      modifies this
      ensures Valid() && |happened| == |es| && model == Run(old(model), Chosen(es, happened))
      ensures forall k :: 0 <= k < |es| && Unconditional(es[k]) ==> happened[k]
      ensures Grows(old(cells), cells) && RaceKept(old(raceConsumed), old(result))
    {
      hide Clock.Valid, Model.Step, Grows;
      GrowsOn(cells, cells, cells);
      happened := [];
      for k := 0 to |es|
        invariant Valid() && |happened| == k && model == Run(old(model), Chosen(es[..k], happened))
        invariant forall j :: 0 <= j < k && Unconditional(es[j]) ==> happened[j]
        invariant Grows(old(cells), cells) && RaceKept(old(raceConsumed), old(result))
      {
        ghost var before := cells;
        var done := Apply(es[k]);
        GrowsOn(old(cells), before, cells);
        ChosenLast(es, happened, done);
        RunMore(old(model), Chosen(es[..k], happened), es[k]);
        happened := happened + [done];
      }
      assert es[..|es|] == es;
    }

    /** The budget left, as the timer would be armed now. */
    function Left(): int
      reads this
    {
      if runningSince.Some? then Max(0, remaining - (now - runningSince.value)) else remaining
    }
  }

  /** Until it stops, a clock has left its budget less the running time charged. */
  lemma LeftIsUnspent(c: Clock)
    requires c.Valid() && !c.fired
    ensures c.Left() == Max(0, c.model.budget - c.model.spent)
  {
  }

  /** Until it stops, a clock stands still exactly while somebody pauses it and no compute or background work goes on. */
  lemma ArmedIff(c: Clock)
    requires c.Valid() && !c.fired
    ensures c.timer.None? <==> c.pauseDepth > 0 && c.activeCompute <= c.computePaused && c.bgActive <= c.bgPaused
  {
    PausedIff(c.model);
  }

  /** Within the longest delay, the timer is due exactly when a running clock has charged its whole budget. */
  lemma DueIffSpent(c: Clock)
    requires c.Valid() && !c.fired && c.timeoutMs <= 0x7FFF_FFFF
    ensures c.Due() <==> !c.model.Paused() && c.model.spent >= c.model.budget
  {
  }

  /** Beyond the longest delay, a clock that is never paused fires before its budget is charged. */
  method EarlyFire(timeoutMs: int) returns (clock: Clock)
    requires timeoutMs > 0x7FFF_FFFF
    ensures clock.Valid() && clock.timeoutMs == timeoutMs && clock.fired && clock.model.spent < clock.model.budget
  {
    hide Captured, Clock.Counted, Clock.Raced, Claims, PausedRegions;
    clock := new Clock(timeoutMs);
    clock.PassTime(MAX_DELAY_MS);
    clock.Fire();
  }

  // How a question to the human ends.
  datatype Reply = Answered(ok: bool) | WaitElapsed | Failed
  datatype Exit = Mapped | NoResponse | Threw

  /**
   * Waits for an answer with the clock paused; `during` are the calls of others, the passing of time and the
   * run of the timer while it waits. `Answered(ok)` is a delivered answer whose mapping succeeds or throws;
   * the signal may be aborted before the wait or by its end. On every way out the pause is given back.
   */
  method ElicitWithClockPause(clock: Clock, abortedBefore: bool, during: seq<Event>, reply: Reply, abortedAfter: bool)
    returns (exit: Exit, happened: seq<bool>)
    requires clock.Valid()
    modifies clock
    ensures clock.Valid()
    ensures abortedBefore ==> clock.model == old(clock.model)
    ensures !abortedBefore ==>
      && |happened| == |during| && (forall k :: 0 <= k < |during| && Unconditional(during[k]) ==> happened[k])
      && clock.model == Run(old(clock.model).Step(Pause), Chosen(during, happened)).Step(Resume)
    ensures exit == Mapped <==> !abortedBefore && reply == Answered(true)
    ensures exit == NoResponse <==> !abortedBefore && reply == WaitElapsed && !abortedAfter
  {
    hide Clock.Valid, Model.Step;
    if abortedBefore {
      return Threw, [];
    }
    clock.AddPause();
    happened := clock.Play(during);
    if reply == Answered(true) {
      exit := Mapped;
    } else if abortedAfter {
      exit := Threw;
    } else if reply == WaitElapsed {
      exit := NoResponse;
    } else {
      exit := Threw;
    }
    clock.RemovePause();
  }

  /**
   * Releases a handle, takes a hold back, and leaves a region, each twice, and then holds the region again and
   * takes that back: the repeats, and whatever comes after leaving, change nothing.
   */
  method RepeatsChangeNothing(clock: Clock, handle: Id, hold: Id)
    requires clock.Valid() && handle in clock.cells.releases && hold in clock.cells.holds
    modifies clock
    ensures clock.Valid()
    ensures clock.model == old(clock.model).Step(Release(handle)).Step(LeaveRegion(old(clock.cells).holds[hold].region))
  {
    hide Clock.Counted, Clock.Accounts, Clock.Raced, Model.Paused, CapturedHandles, CapturedRegions, CapturedHolds;
    var region := clock.cells.holds[hold].region;
    clock.ReleaseCompute(handle);
    clock.ReleaseCompute(handle);
    clock.UnholdRegion(hold);
    clock.UnholdRegion(hold);
    clock.LeaveBackground(region);
    clock.LeaveBackground(region);
    clock.UnholdRegion(hold);
    var late := clock.HoldRegion(region);
    clock.UnholdRegion(late);
    RepeatedSteps(old(clock.model), handle, region, hold, late);
  }

  /** Each repeated step changes nothing, and neither does a step on a region that was left. */
  lemma RepeatedSteps(m: Model, h: Id, r: Id, p: Id, late: Id)
    ensures m.Step(Release(h)).Step(Release(h)) == m.Step(Release(h))
    ensures var n := m.Step(Release(h));
      && n.Step(Unhold(r, p)).Step(Unhold(r, p)) == n.Step(Unhold(r, p))
      && n.Step(Unhold(r, p)).Step(LeaveRegion(r)) == n.Step(LeaveRegion(r))
    ensures var n := m.Step(Release(h)).Step(LeaveRegion(r));
      n.Step(LeaveRegion(r)) == n && n.Step(Unhold(r, p)) == n && n.Step(Hold(r, late)) == n && n.Step(Unhold(r, late)) == n
  {
    assert m.handles - {h} - {h} == m.handles - {h};
    var live: map<Id, set<Id>> := m.regions;
    var rest: map<Id, set<Id>> := live - {r};
    assert rest - {r} == rest;
    if r in live {
      assert live[r] - {p} - {p} == live[r] - {p};
      assert live[r := live[r] - {p}] - {r} == rest;
    }
  }

  // Runs of the model.

  ghost function Run(m: Model, es: seq<Event>): Model {
    if es == [] then m else Run(m, es[..|es| - 1]).Step(es[|es| - 1])
  }

  /** The calls that happened. */
  ghost function Chosen(es: seq<Event>, happened: seq<bool>): seq<Event>
    requires |happened| == |es|
  {
    if es == [] then []
    else
      var n := |es| - 1;
      Chosen(es[..n], happened[..n]) + if happened[n] then [es[n]] else []
  }

  /** The call needs no name and no timer that is due. */
  predicate Unconditional(e: Event) {
    e.Pause? || e.Resume? || e.Enter? || e.Leave? || e.Poke? || e.Advance? || e.StartRace? || e.LoopEnds?
  }

  lemma ChosenLast(es: seq<Event>, happened: seq<bool>, done: bool)
    requires |happened| < |es|
    ensures var k := |happened|;
      Chosen(es[..k + 1], happened + [done]) == Chosen(es[..k], happened) + if done then [es[k]] else []
  {
    var k := |happened|;
    assert es[..k + 1][..k] == es[..k] && (happened + [done])[..k] == happened;
  }

  lemma RunMore(m: Model, es: seq<Event>, e: Event)
    ensures Run(m, es + []) == Run(m, es) && Run(m, es + [e]) == Run(m, es).Step(e)
  {
    assert es + [] == es && (es + [e])[..|es|] == es;
  }

  lemma SameStep(m: Model, e: Event)
    requires e.StartRace? || e.LoopEnds?
    ensures m.Step(e) == m
  {
  }

  // What an elicitation leaves behind.

  /** Every compute region is claimed and every background region paused: any pause at all stops the clock. */
  ghost predicate Quiet(m: Model) {
    m.compute <= |Claims(m.handles)| && forall r :: r in m.regions ==> m.regions[r] != {}
  }

  /** Every resume follows a pause of its own, also without counting the pauses held at the start. */
  ghost predicate OwnResumes(m: Model, es: seq<Event>) {
    forall k :: 0 <= k < |es| && es[k] == Resume ==> Run(m, es[..k]).plain > 0
  }

  /** One more pause beside a run. */
  ghost predicate OneMorePause(m: Model, n: Model) {
    m == n.(plain := n.plain + 1, spent := m.spent) && m.spent <= n.spent && n.plain >= 0
  }

  lemma StepBeside(m: Model, n: Model, e: Event)
    requires OneMorePause(m, n) && (e == Resume ==> n.plain > 0)
    ensures OneMorePause(m.Step(e), n.Step(e))
    ensures Quiet(n) ==> m.Step(e).spent <= m.spent
  {
    hide Claims;
  }

  lemma {:induction false} RunBeside(m: Model, es: seq<Event>)
    requires m.plain >= 0 && OwnResumes(m, es)
    ensures OneMorePause(Run(m.Step(Pause), es), Run(m, es))
    ensures (forall k :: 0 <= k < |es| ==> Quiet(Run(m, es[..k]))) ==> Run(m.Step(Pause), es).spent <= m.spent
  {
    if es != [] {
      var n := |es| - 1;
      assert forall k :: 0 <= k < n ==> es[..n][..k] == es[..k];
      RunBeside(m, es[..n]);
      StepBeside(Run(m.Step(Pause), es[..n]), Run(m, es[..n]), es[n]);
    }
  }

  /**
   * An elicitation leaves the clock as the calls made meanwhile would without it, but for time charged less;
   * and while all compute and background work stands still, its wait costs nothing.
   */
  lemma ElicitationCostsNothing(m: Model, es: seq<Event>)
    requires m.plain >= 0 && OwnResumes(m, es)
    ensures var after, without := Run(m.Step(Pause), es).Step(Resume), Run(m, es);
      && after == without.(spent := after.spent) && after.spent <= without.spent
      && ((forall k :: 0 <= k < |es| ==> Quiet(Run(m, es[..k]))) ==> after.spent <= m.spent)
  {
    RunBeside(m, es);
  }

  /** A resume that takes away a pause which a `pauseCompute` handle holds. */
  ghost predicate Steals(m: Model, e: Event) {
    e == Resume && m.plain <= 0 && m.Depth() != 0
  }

  ghost function Releases(hs: seq<Id>): seq<Event> {
    seq(|hs|, i requires 0 <= i < |hs| => Release(hs[i]))
  }

  /** No release of outstanding handles, at any point of the run, makes the pause depth negative. */
  ghost predicate NeverNegative(m: Model, es: seq<Event>) {
    forall k, hs :: 0 <= k <= |es| ==> Run(Run(m, es[..k]), Releases(hs)).Depth() >= 0
  }

  lemma PlainStep(m: Model, e: Event)
    requires m.plain >= 0
    ensures m.Step(e).plain >= 0 <==> !Steals(m, e)
  {
  }

  lemma RunLast(m: Model, es: seq<Event>, k: nat)
    requires k < |es|
    ensures Run(m, es[..k + 1]) == Run(m, es[..k]).Step(es[k])
  {
    assert es[..k + 1][..k] == es[..k];
  }

  lemma {:induction false} PlainKept(m: Model, es: seq<Event>, k: nat)
    requires m.plain >= 0 && k <= |es|
    requires forall j :: 0 <= j < k ==> !Steals(Run(m, es[..j]), es[j])
    ensures Run(m, es[..k]).plain >= 0
  {
    hide Model.Step, Steals;
    if k > 0 {
      PlainKept(m, es, k - 1);
      RunLast(m, es, k - 1);
      PlainStep(Run(m, es[..k - 1]), es[k - 1]);
    }
  }

  lemma {:induction false} RunReleases(m: Model, hs: seq<Id>)
    ensures Run(m, Releases(hs)) == m.(handles := m.handles - (set h | h in hs))
  {
    if hs == [] {
      assert m.handles - (set h | h in hs) == m.handles;
    } else {
      var n := |hs| - 1;
      RunReleases(m, hs[..n]);
      assert Releases(hs)[..n] == Releases(hs[..n]);
      assert hs == hs[..n] + [hs[n]];
      assert m.handles - (set h | h in hs) == m.handles - (set h | h in hs[..n]) - {hs[n]};
    }
  }

  lemma {:induction false} Enumerated(s: set<Id>) returns (q: seq<Id>)
    ensures forall x :: x in q <==> x in s
  {
    q := [];
    if x :| x in s {
      q := Enumerated(s - {x});
      q := q + [x];
    }
  }

  /** Releasing every handle leaves the depth that `pause` and `resume` account for. */
  lemma ReleaseAll(m: Model, es: seq<Event>, k: nat)
    requires k <= |es| && Run(m, es[..k]).plain < 0
    ensures !NeverNegative(m, es)
  {
    var r := Run(m, es[..k]);
    var hs := Enumerated(r.handles.Keys);
    RunReleases(r, hs);
    assert r.handles - (set h | h in hs) == map[];
    assert Run(r, Releases(hs)).Depth() < 0;
  }

  /**
   * The pause depth can be driven below zero by releasing handles exactly when some resume took
   * away a pause it did not pair with.
   */
  lemma NeverNegativeIff(m: Model, es: seq<Event>)
    requires m.plain >= 0
    ensures NeverNegative(m, es) <==> forall k :: 0 <= k < |es| ==> !Steals(Run(m, es[..k]), es[k])
  {
    hide Model.Step, Steals;
    if k :| 0 <= k < |es| && Steals(Run(m, es[..k]), es[k]) {
      if Run(m, es[..k]).plain < 0 {
        ReleaseAll(m, es, k);
      } else {
        RunLast(m, es, k);
        PlainStep(Run(m, es[..k]), es[k]);
        ReleaseAll(m, es, k + 1);
      }
    } else {
      forall k, hs | 0 <= k <= |es| ensures Run(Run(m, es[..k]), Releases(hs)).Depth() >= 0 {
        PlainKept(m, es, k);
        RunReleases(Run(m, es[..k]), hs);
      }
    }
  }

  ghost function Count(es: seq<Event>, e: Event): nat {
    if es == [] then 0 else Count(es[..|es| - 1], e) + if es[|es| - 1] == e then 1 else 0
  }

  /** Every resume follows a pause of its own, as in any interleaving of complete elicitations. */
  ghost predicate Paired(es: seq<Event>) {
    forall k :: 0 <= k <= |es| ==> Count(es[..k], Resume) <= Count(es[..k], Pause)
  }

  lemma PairedStep(m: Model, e: Event)
    ensures m.plain >= 0 && (e == Resume ==> m.plain > 0) ==>
      m.Step(e).plain == m.plain + (if e == Pause then 1 else if e == Resume then -1 else 0)
  {
  }

  lemma {:induction false} PairedPlain(m: Model, es: seq<Event>, k: nat)
    requires m.plain == 0 && Paired(es) && k <= |es|
    ensures Run(m, es[..k]).plain == Count(es[..k], Pause) - Count(es[..k], Resume)
  {
    hide Model.Step;
    if k > 0 {
      PairedPlain(m, es, k - 1);
      RunLast(m, es, k - 1);
      assert es[..k][..k - 1] == es[..k - 1];
      assert Count(es[..k - 1], Resume) <= Count(es[..k - 1], Pause);
      assert Count(es[..k], Resume) <= Count(es[..k], Pause);
      PairedStep(Run(m, es[..k - 1]), es[k - 1]);
    }
  }

  /** With paired pauses and resumes the pause depth never goes negative. */
  lemma PairedNeverNegative(m: Model, es: seq<Event>)
    requires m.plain == 0 && Paired(es)
    ensures NeverNegative(m, es)
  {
    forall k | 0 <= k < |es| ensures !Steals(Run(m, es[..k]), es[k]) {
      PairedPlain(m, es, k);
      assert es[..k + 1][..k] == es[..k];
      assert Count(es[..k + 1], Resume) <= Count(es[..k + 1], Pause);
    }
    NeverNegativeIff(m, es);
  }

  /** Comparing the two region counters is asking whether every live region is paused. */
  lemma PausedIff(m: Model)
    ensures m.Paused() <==> m.Depth() > 0 && m.compute <= |Claims(m.handles)| && |m.regions| <= |PausedRegions(m.regions)|
  {
    SubsetCount(PausedRegions(m.regions), m.regions.Keys);
    assert |m.regions.Keys| == |m.regions|;
    if PausedRegions(m.regions) == m.regions.Keys {
      forall r | r in m.regions ensures m.regions[r] != {} {
        assert r in PausedRegions(m.regions);
      }
    }
  }

  // How each call moves the counts and the captured variables.

  lemma NewHandleCounts(m: Model, h: Id)
    requires h !in m.handles
    ensures var m' := m.Step(PauseCompute(h));
      && m'.Depth() == m.Depth() + 1
      && |Claims(m'.handles)| == |Claims(m.handles)| + (if m.compute > |Claims(m.handles)| then 1 else 0)
  {
    var claimed := m.compute > |Claims(m.handles)|;
    assert Claims(m.handles[h := claimed]) == if claimed then Claims(m.handles) + {h} else Claims(m.handles);
  }

  lemma NewHandle(m: Model, c: Cells, claimed: bool)
    requires Captured(m.handles, m.regions, c)
    ensures c.nextId !in m.handles
    ensures Captured(m.handles[c.nextId := claimed], m.regions,
                     c.(nextId := c.nextId + 1, releases := c.releases[c.nextId := ReleaseCell(claimed, false)]))
  {
    hide CapturedHolds, CapturedRegions;
  }

  lemma DropHandleCounts(m: Model, h: Id)
    requires h in m.handles
    ensures var m' := m.Step(Release(h));
      && m'.Depth() == m.Depth() - 1 && |Claims(m'.handles)| == |Claims(m.handles)| - (if m.handles[h] then 1 else 0)
  {
    var m' := m.Step(Release(h));
    assert m'.handles.Keys == m.handles.Keys - {h};
    assert |m'.handles.Keys| == |m'.handles|;
    assert Claims(m'.handles) == Claims(m.handles) - {h};
  }

  lemma DropHandle(m: Model, c: Cells, h: Id)
    requires Captured(m.handles, m.regions, c) && h in c.releases
    ensures c.releases[h].released ==> m.Step(Release(h)) == m
    ensures !c.releases[h].released ==>
      && h in m.handles && m.handles[h] == c.releases[h].claimed
      && Captured(m.handles - {h}, m.regions, c.(releases := c.releases[h := c.releases[h].(released := true)]))
  {
    hide CapturedHolds, CapturedRegions;
    if c.releases[h].released {
      assert m.handles - {h} == m.handles;
    }
  }

  lemma NewRegionCounts(live: map<Id, set<Id>>, r: Id)
    requires r !in live
    ensures |live[r := {}]| == |live| + 1 && PausedRegions(live[r := {}]) == PausedRegions(live)
  {
  }

  lemma NewRegion(m: Model, c: Cells)
    requires Captured(m.handles, m.regions, c)
    ensures c.nextId !in m.regions
    ensures Captured(m.handles, m.regions[c.nextId := {}],
                     c.(nextId := c.nextId + 1, regions := c.regions[c.nextId := RegionCell(0, false)]))
  {
    hide CapturedHandles;
    assert c.nextId !in m.regions;
    assert forall p :: p in c.holds ==> c.holds[p].region != c.nextId;
    assert CapturedHolds(m.regions[c.nextId := {}], c.holds);
    hide CapturedHolds;
  }

  lemma SwapCount<T>(s: set<T>, x: T, b: bool)
    ensures var s' := if b then s + {x} else s - {x}; |s'| == |s| - (if x in s then 1 else 0) + (if b then 1 else 0)
  {
    assert x in s ==> s + {x} == s;
    assert x !in s ==> s - {x} == s;
  }

  /** Changing the pauses of one live region changes the count of paused regions by at most that region. */
  lemma RegionCounts(live: map<Id, set<Id>>, r: Id, ps: set<Id>)
    requires r in live
    ensures |live[r := ps]| == |live|
    ensures |PausedRegions(live[r := ps])| ==
            |PausedRegions(live)| - (if |live[r]| > 0 then 1 else 0) + (if |ps| > 0 then 1 else 0)
  {
    assert live[r := ps].Keys == live.Keys;
    assert |live.Keys| == |live| && |live[r := ps].Keys| == |live[r := ps]|;
    assert PausedRegions(live[r := ps]) == if ps != {} then PausedRegions(live) + {r} else PausedRegions(live) - {r};
    SwapCount(PausedRegions(live), r, ps != {});
  }

  lemma RegionRecount(live: map<Id, set<Id>>, regions: map<Id, RegionCell>, r: Id, ps: set<Id>)
    requires CapturedRegions(live, regions) && r in live
    ensures CapturedRegions(live[r := ps], regions[r := RegionCell(|ps|, false)])
  {
  }

  lemma HoldAdded(live: map<Id, set<Id>>, holds: map<Id, HoldCell>, r: Id, p: Id)
    requires CapturedHolds(live, holds) && r in live && p !in holds
    ensures p !in live[r] && CapturedHolds(live[r := live[r] + {p}], holds[p := HoldCell(r, false)])
  {
  }

  lemma HoldDropped(live: map<Id, set<Id>>, holds: map<Id, HoldCell>, r: Id, p: Id)
    requires CapturedHolds(live, holds) && r in live && p in holds && holds[p].region == r && !holds[p].released
    ensures p in live[r] && CapturedHolds(live[r := live[r] - {p}], holds[p := HoldCell(r, true)])
  {
  }

  lemma NewHold(m: Model, c: Cells, r: Id)
    requires Captured(m.handles, m.regions, c) && r in c.regions
    ensures c.regions[r].left ==>
      && m.Step(Hold(r, c.nextId)) == m
      && Captured(m.handles, m.regions, c.(nextId := c.nextId + 1, holds := c.holds[c.nextId := HoldCell(r, true)]))
    ensures !c.regions[r].left ==>
      r in m.regions &&
      var ps := m.regions[r] + {c.nextId};
      && |ps| == c.regions[r].depth + 1 == |m.regions[r]| + 1
      && Captured(m.handles, m.regions[r := ps],
                  c.(nextId := c.nextId + 1, holds := c.holds[c.nextId := HoldCell(r, false)],
                     regions := c.regions[r := RegionCell(|ps|, false)]))
  {
    hide CapturedHandles;
    var p := c.nextId;
    if c.regions[r].left {
      assert CapturedHolds(m.regions, c.holds[p := HoldCell(r, true)]);
    } else {
      HoldAdded(m.regions, c.holds, r, p);
      RegionRecount(m.regions, c.regions, r, m.regions[r] + {p});
      hide CapturedHolds, CapturedRegions;
    }
  }

  lemma DropHold(m: Model, c: Cells, p: Id)
    requires Captured(m.handles, m.regions, c) && p in c.holds
    ensures c.holds[p].region in c.regions
    ensures c.holds[p].released || c.regions[c.holds[p].region].left ==> m.Step(Unhold(c.holds[p].region, p)) == m
    ensures !c.holds[p].released && !c.regions[c.holds[p].region].left ==>
      var r := c.holds[p].region;
      r in m.regions &&
      var ps := m.regions[r] - {p};
      && |ps| == c.regions[r].depth - 1 == |m.regions[r]| - 1
      && Captured(m.handles, m.regions[r := ps], c.(holds := c.holds[p := HoldCell(r, true)],
                                                    regions := c.regions[r := RegionCell(|ps|, false)]))
  {
    hide CapturedHandles;
    var r := c.holds[p].region;
    if r in m.regions {
      if c.holds[p].released {
        assert p !in m.regions[r];
        assert m.regions[r] - {p} == m.regions[r];
        assert m.regions[r := m.regions[r]] == m.regions;
      } else {
        HoldDropped(m.regions, c.holds, r, p);
        RegionRecount(m.regions, c.regions, r, m.regions[r] - {p});
        hide CapturedHolds, CapturedRegions;
      }
    }
  }

  lemma DropRegionCounts(live: map<Id, set<Id>>, r: Id)
    requires r in live
    ensures |live - {r}| == |live| - 1
    ensures |PausedRegions(live - {r})| == |PausedRegions(live)| - (if |live[r]| > 0 then 1 else 0)
  {
    assert (live - {r}).Keys == live.Keys - {r};
    assert |(live - {r}).Keys| == |live - {r}| && |live.Keys| == |live|;
    assert PausedRegions(live - {r}) == PausedRegions(live) - {r};
  }

  lemma DropRegion(m: Model, c: Cells, r: Id)
    requires Captured(m.handles, m.regions, c) && r in c.regions
    ensures c.regions[r].left ==> m.Step(LeaveRegion(r)) == m
    ensures !c.regions[r].left ==>
      && r in m.regions && c.regions[r].depth == |m.regions[r]|
      && Captured(m.handles, m.regions - {r}, c.(regions := c.regions[r := RegionCell(0, true)]))
  {
    hide CapturedHandles;
    if c.regions[r].left {
      assert m.regions - {r} == m.regions;
    } else {
      assert CapturedHolds(m.regions - {r}, c.holds);
    }
  }

  lemma ReleaseEffect(m: Model, c: Cells, h: Id)
    requires Captured(m.handles, m.regions, c) && h in c.releases && !c.releases[h].released
    ensures var m', cell := m.Step(Release(h)), c.releases[h];
      && m' == m.(handles := m'.handles) && m'.Depth() == m.Depth() - 1
      && |Claims(m'.handles)| == |Claims(m.handles)| - (if cell.claimed then 1 else 0)
      && Captured(m'.handles, m'.regions, c.(releases := c.releases[h := cell.(released := true)]))
  {
    hide Captured, Claims;
    DropHandle(m, c, h);
    DropHandleCounts(m, h);
  }

  lemma FreshHold(m: Model, c: Cells)
    requires Captured(m.handles, m.regions, c)
    ensures c.nextId !in c.holds
  {
  }

  lemma HoldIgnored(m: Model, c: Cells, r: Id)
    requires Captured(m.handles, m.regions, c) && r in c.regions && c.regions[r].left
    ensures m.Step(Hold(r, c.nextId)) == m
    ensures Captured(m.handles, m.regions, c.(nextId := c.nextId + 1, holds := c.holds[c.nextId := HoldCell(r, true)]))
  {
    hide Captured;
    NewHold(m, c, r);
  }

  /** What no call on a region changes. */
  ghost predicate SameBesideRegions(m: Model, m': Model) {
    m' == m.(regions := m'.regions)
  }

  lemma HoldEffect(m: Model, c: Cells, r: Id)
    requires Captured(m.handles, m.regions, c) && r in c.regions && !c.regions[r].left
    ensures var m', depth := m.Step(Hold(r, c.nextId)), c.regions[r].depth + 1;
      && SameBesideRegions(m, m') && |m'.regions| == |m.regions|
      && |PausedRegions(m'.regions)| == |PausedRegions(m.regions)| + (if depth == 1 then 1 else 0)
      && Captured(m'.handles, m'.regions, c.(nextId := c.nextId + 1, holds := c.holds[c.nextId := HoldCell(r, false)],
                                             regions := c.regions[r := RegionCell(depth, false)]))
  {
    hide Captured, PausedRegions;
    NewHold(m, c, r);
    RegionCounts(m.regions, r, m.regions[r] + {c.nextId});
  }

  lemma UnholdEffect(m: Model, c: Cells, p: Id)
    requires Captured(m.handles, m.regions, c) && p in c.holds && c.holds[p].region in c.regions
    requires !c.holds[p].released && !c.regions[c.holds[p].region].left
    ensures var r := c.holds[p].region; var m', depth := m.Step(Unhold(r, p)), c.regions[r].depth - 1;
      && SameBesideRegions(m, m') && |m'.regions| == |m.regions|
      && |PausedRegions(m'.regions)| == |PausedRegions(m.regions)| - (if depth == 0 then 1 else 0)
      && Captured(m'.handles, m'.regions, c.(holds := c.holds[p := HoldCell(r, true)],
                                             regions := c.regions[r := RegionCell(depth, false)]))
  {
    hide Captured, PausedRegions;
    var r := c.holds[p].region;
    DropHold(m, c, p);
    RegionCounts(m.regions, r, m.regions[r] - {p});
  }

  lemma LeaveEffect(m: Model, c: Cells, r: Id)
    requires Captured(m.handles, m.regions, c) && r in c.regions && !c.regions[r].left
    ensures var m' := m.Step(LeaveRegion(r));
      && SameBesideRegions(m, m') && |m'.regions| == |m.regions| - 1
      && |PausedRegions(m'.regions)| == |PausedRegions(m.regions)| - (if c.regions[r].depth > 0 then 1 else 0)
      && Captured(m'.handles, m'.regions, c.(regions := c.regions[r := RegionCell(0, true)]))
  {
    hide Captured, PausedRegions;
    DropRegion(m, c, r);
    DropRegionCounts(m.regions, r);
  }
}
