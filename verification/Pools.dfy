/** One first-in first-out pool, and the two pieces of code that run it: a semaphore and a hook queue. */
module Pools {
  import opened Sorting
  import opened Selections

  type Id = nat

  // How many slots there are; a semaphore may be made without a limit.
  datatype Cap = Slots(n: nat) | Unlimited {
    predicate Exceeds(running: int) {
      Unlimited? || running < n
    }
  }

  datatype Event = Arrive(id: Id) | Abort(id: Id) | Release

  /** The sequence without the members of `out`. */
  function Without<T(==)>(s: seq<T>, out: set<T>): seq<T> {
    if s == [] then []
    else Without(s[..|s| - 1], out) + if s[|s| - 1] in out then [] else [s[|s| - 1]]
  }

  /**
   * The abstract pool: whoever arrives waits at the back, and while there is room the front of the queue
   * starts. `arrivals`, `started`, `rejected` and `releases` record the whole history.
   */
  datatype Pool = Pool(cap: Cap, running: nat, waiting: seq<Id>,
                       arrivals: seq<Id>, started: seq<Id>, rejected: set<Id>, releases: nat)
  {
    function Fill(): Pool {
      if waiting != [] && cap.Exceeds(running)
      then this.(running := running + 1, waiting := waiting[1..], started := started + [waiting[0]])
      else this
    }

    function Step(e: Event): Pool {
      match e
      case Arrive(x) => this.(waiting := waiting + [x], arrivals := arrivals + [x]).Fill()
      case Abort(x) =>
        if x in waiting then this.(waiting := Without(waiting, {x}), rejected := rejected + {x}) else this
      case Release => this.(running := if running > 0 then running - 1 else 0, releases := releases + 1).Fill()
    }

    /** Nobody waits while there is room, and those who were not rejected start in the order they arrived. */
    ghost predicate Fair() {
      && cap != Slots(0) && (cap.Slots? ==> running <= cap.n)
      && (waiting != [] ==> cap == Slots(running))
      && Distinct(arrivals)
      && rejected <= (set x | x in arrivals)
      && started + waiting == Without(arrivals, rejected)
    }

    /** Every slot in use belongs to somebody who started and has not been released. */
    ghost predicate Balanced() {
      running == |started| - releases
    }
  }

  function Empty(cap: Cap): Pool {
    Pool(cap, 0, [], [], [], {}, 0)
  }

  /** What is left keeps its order: each remaining element in its place, as often as before. */
  lemma {:induction false} WithoutPlaces<T>(s: seq<T>, out: set<T>) returns (at: seq<nat>)
    ensures Picked(s, x => x !in out, at) && Without(s, out) == Listed(s, at)
  {
    hide Picked;
    at := [];
    if s == [] {
      NonePicked(s, x => x !in out);
    } else {
      var n := |s| - 1;
      var before := WithoutPlaces(s[..n], out);
      PickedMore(s, x => x !in out, before);
      at := if s[n] in out then before else before + [n];
    }
  }

  lemma {:induction false} WithoutMembers<T>(s: seq<T>, out: set<T>)
    ensures forall x :: x in Without(s, out) <==> x in s && x !in out
  {
    if s != [] {
      WithoutMembers(s[..|s| - 1], out);
      assert s == s[..|s| - 1] + [s[|s| - 1]];
    }
  }

  lemma {:induction false} WithoutDistinct<T>(s: seq<T>, out: set<T>)
    requires Distinct(s)
    ensures Distinct(Without(s, out))
  {
    if s != [] {
      WithoutDistinct(s[..|s| - 1], out);
      WithoutMembers(s[..|s| - 1], out);
      assert s == s[..|s| - 1] + [s[|s| - 1]];
    }
  }

  lemma {:induction false} WithoutNone<T>(s: seq<T>, out: set<T>)
    requires forall x :: x in s ==> x !in out
    ensures Without(s, out) == s
  {
    if s != [] {
      assert s == s[..|s| - 1] + [s[|s| - 1]];
      WithoutNone(s[..|s| - 1], out);
    }
  }

  lemma {:induction false} WithoutMore<T>(s: seq<T>, out: set<T>, more: set<T>)
    ensures Without(s, out + more) == Without(Without(s, out), more)
  {
    if s != [] {
      var n := |s| - 1;
      WithoutMore(s[..n], out, more);
      if s[n] in out {
        assert Without(s, out) == Without(s[..n], out);
      } else {
        var t := Without(s[..n], out);
        assert Without(s, out) == t + [s[n]];
        assert (t + [s[n]])[..|t|] == t;
      }
    }
  }

  lemma {:induction false} WithoutJoin<T>(s: seq<T>, t: seq<T>, out: set<T>)
    ensures Without(s + t, out) == Without(s, out) + Without(t, out)
  {
    if t == [] {
      assert s + t == s;
    } else {
      assert (s + t)[..|s + t| - 1] == s + t[..|t| - 1];
      WithoutJoin(s, t[..|t| - 1], out);
    }
  }

  lemma {:induction false} WithoutAt<T>(s: seq<T>, i: nat)
    requires i < |s| && Distinct(s)
    ensures Without(s, {s[i]}) == s[..i] + s[i + 1..]
  {
    hide Without;
    var before, after, one := s[..i], s[i + 1..], [s[i]];
    assert s == before + (one + after);
    WithoutJoin(before, one + after, {s[i]});
    WithoutJoin(one, after, {s[i]});
    WithoutNone(before, {s[i]});
    WithoutNone(after, {s[i]});
    WithoutSelf(s[i]);
  }

  lemma WithoutSelf<T>(x: T)
    ensures Without([x], {x}) == []
  {
  }

  /** Starting the front of the queue moves it from the one list to the end of the other. */
  lemma FillKeeps(p: Pool)
    ensures var q := p.Fill();
      && q == p.(running := q.running, waiting := q.waiting, started := q.started)
      && q.started + q.waiting == p.started + p.waiting
      && q.running - |q.started| == p.running - |p.started|
  {
    if p.waiting != [] {
      assert p.started + p.waiting == p.started + [p.waiting[0]] + p.waiting[1..];
    }
  }

  lemma ArriveKeepsOrder(p: Pool, x: Id)
    requires p.Fair() && x !in p.arrivals
    ensures Distinct(p.arrivals + [x])
    ensures p.started + (p.waiting + [x]) == Without(p.arrivals + [x], p.rejected)
  {
    var arrivals := p.arrivals + [x];
    assert arrivals[..|p.arrivals|] == p.arrivals && x !in p.rejected;
    assert p.started + (p.waiting + [x]) == p.started + p.waiting + [x];
  }

  lemma ArriveKeepsFair(p: Pool, x: Id)
    requires p.Fair() && x !in p.arrivals
    ensures p.Step(Arrive(x)).Fair()
    ensures p.Balanced() ==> p.Step(Arrive(x)).Balanced()
  {
    hide Without, Distinct;
    ArriveKeepsOrder(p, x);
    FillKeeps(p.(waiting := p.waiting + [x], arrivals := p.arrivals + [x]));
  }

  lemma AbortKeepsFair(p: Pool, x: Id)
    requires p.Fair()
    ensures p.Step(Abort(x)).Fair()
    ensures p.Balanced() ==> p.Step(Abort(x)).Balanced()
  {
    if x in p.waiting {
      WithoutMembers(p.arrivals, p.rejected);
      WithoutDistinct(p.arrivals, p.rejected);
      assert x in p.started + p.waiting;
      WithoutMore(p.arrivals, p.rejected, {x});
      WithoutJoin(p.started, p.waiting, {x});
      StartedNotWaiting(p, x);
      WithoutNone(p.started, {x});
      if Without(p.waiting, {x}) != [] {
        assert p.waiting != [];
      }
    }
  }

  lemma StartedNotWaiting(p: Pool, x: Id)
    requires Distinct(p.started + p.waiting) && x in p.waiting
    ensures x !in p.started
  {
    var j :| 0 <= j < |p.waiting| && p.waiting[j] == x;
    var all := p.started + p.waiting;
    assert all[|p.started| + j] == x;
    forall i | 0 <= i < |p.started| ensures p.started[i] != x {
      assert all[i] == p.started[i];
    }
  }

  lemma ReleaseKeepsFair(p: Pool)
    requires p.Fair()
    ensures p.Step(Release).Fair()
    ensures p.Balanced() ==> (p.Step(Release).Balanced() <==> p.releases < |p.started|)
  {
    hide Without, Distinct;
    FillKeeps(p.(running := if p.running > 0 then p.running - 1 else 0, releases := p.releases + 1));
  }

  /** Each arrival is started at most once, rejected at most once, and never both. */
  lemma GrantedOrRejected(p: Pool)
    requires p.Fair()
    ensures Distinct(p.started) && Distinct(p.waiting)
    ensures forall x :: x in p.started ==> x !in p.rejected && x !in p.waiting
    ensures forall x :: x in p.arrivals <==> x in p.started || x in p.waiting || x in p.rejected
    ensures forall x :: x in p.waiting ==> x !in p.rejected
  {
    WithoutMembers(p.arrivals, p.rejected);
    WithoutDistinct(p.arrivals, p.rejected);
    var all := p.started + p.waiting;
    forall i, j | 0 <= i < j < |p.started| ensures p.started[i] != p.started[j] {
      assert all[i] != all[j];
    }
    forall i, j | 0 <= i < j < |p.waiting| ensures p.waiting[i] != p.waiting[j] {
      assert all[|p.started| + i] != all[|p.started| + j];
    }
    forall x | x in p.started ensures x !in p.rejected && x !in p.waiting {
      assert x in all;
      if x in p.waiting {
        StartedNotWaiting(p, x);
      }
    }
    forall x ensures x in p.arrivals <==> x in p.started || x in p.waiting || x in p.rejected {
      assert x in all <==> x in p.started || x in p.waiting;
    }
  }

  // What each event does.

  /** Who arrives starts at once while there is room, and waits at the back otherwise. */
  lemma ArriveLaw(p: Pool, x: Id)
    requires p.Fair()
    ensures p.cap.Exceeds(p.running) ==>
      p.Step(Arrive(x)) == p.(running := p.running + 1, started := p.started + [x], arrivals := p.arrivals + [x])
    ensures !p.cap.Exceeds(p.running) ==>
      p.Step(Arrive(x)) == p.(waiting := p.waiting + [x], arrivals := p.arrivals + [x])
  {
    hide Without;
    if p.cap.Exceeds(p.running) {
      assert p.waiting == [];
      assert ([] + [x])[1..] == [];
      assert p.(waiting := []) == p;
    }
  }

  /** A waiter that aborts leaves the queue and is rejected; the others keep their order, and no slot moves. */
  lemma AbortLaw(p: Pool, x: Id)
    requires p.Fair()
    ensures x !in p.waiting ==> p.Step(Abort(x)) == p
    ensures forall i :: 0 <= i < |p.waiting| && p.waiting[i] == x ==>
      p.Step(Abort(x)) == p.(waiting := p.waiting[..i] + p.waiting[i + 1..], rejected := p.rejected + {x})
    ensures x in p.waiting ==> x in p.Step(Abort(x)).rejected && x !in p.Step(Abort(x)).waiting
  {
    FairMembers(p, x);
    WithoutMembers(p.waiting, {x});
    hide Without;
    forall i | 0 <= i < |p.waiting| && p.waiting[i] == x
      ensures Without(p.waiting, {x}) == p.waiting[..i] + p.waiting[i + 1..]
    {
      WithoutAt(p.waiting, i);
    }
  }

  /** A release hands its slot to the first waiter, and gives it back when nobody waits. */
  lemma ReleaseLaw(p: Pool)
    requires p.Fair()
    ensures p.waiting != [] ==>
      p.Step(Release) == p.(waiting := p.waiting[1..], started := p.started + [p.waiting[0]], releases := p.releases + 1)
    ensures p.waiting == [] ==>
      p.Step(Release) == p.(running := if p.running == 0 then 0 else p.running - 1, releases := p.releases + 1)
  {
  }

  // Runs: every arrival is new, and each release follows a start of its own.

  ghost predicate Legal(p: Pool, e: Event) {
    match e
    case Arrive(x) => x !in p.arrivals
    case Abort(_) => true
    case Release => p.releases < |p.started|
  }

  ghost function Run(p: Pool, es: seq<Event>): Pool {
    if es == [] then p else Run(p, es[..|es| - 1]).Step(es[|es| - 1])
  }

  ghost predicate LegalRun(p: Pool, es: seq<Event>) {
    forall k :: 0 <= k < |es| ==> Legal(Run(p, es[..k]), es[k])
  }

  /**
   * With one release for each start, a pool is fair and balanced after every run: the slots in use are the
   * starts less the releases, and never more than the cap.
   */
  lemma {:induction false} RunsAreFair(cap: Cap, es: seq<Event>)
    requires cap != Slots(0) && LegalRun(Empty(cap), es)
    ensures Run(Empty(cap), es).Fair() && Run(Empty(cap), es).Balanced() && Run(Empty(cap), es).cap == cap
  {
    hide Pool.Fair, Pool.Balanced, Pool.Step, Legal, Empty;
    var p := Empty(cap);
    if es == [] {
      EmptyIsFair(cap);
    } else {
      var n := |es| - 1;
      assert forall k :: 0 <= k < n ==> es[..n][..k] == es[..k];
      RunsAreFair(cap, es[..n]);
      StepKeepsFair(Run(p, es[..n]), es[n]);
    }
  }

  lemma StepKeepsFair(p: Pool, e: Event)
    requires p.Fair() && p.Balanced() && Legal(p, e)
    ensures p.Step(e).Fair() && p.Step(e).Balanced() && p.Step(e).cap == p.cap
  {
    hide Pool.Fair, Pool.Balanced;
    match e
    case Arrive(x) => ArriveKeepsFair(p, x);
    case Abort(x) => AbortKeepsFair(p, x);
    case Release => ReleaseKeepsFair(p);
  }

  lemma EmptyIsFair(cap: Cap)
    requires cap != Slots(0)
    ensures Empty(cap).Fair() && Empty(cap).Balanced() && Empty(cap).cap == cap
  {
  }

  // The limit a semaphore is made with.
  datatype Limit = Finite(value: real) | Infinite

  /** The counting semaphore, which hands a released slot straight to the next waiter. */
  class Semaphore {
    const max: Cap
    var active: int
    var queue: seq<Id>
    ghost var pool: Pool

    ghost predicate Valid()
      reads this
    {
      pool.Fair() && pool.cap == max && pool.running == active && pool.waiting == queue
    }

    constructor (limit: Limit)
      ensures Valid() && pool == Empty(max)
      ensures max == if limit.Infinite? then Unlimited else Slots(if limit.value < 1.0 then 1 else limit.value.Floor)
    {
      var atLeastOne := if limit.Infinite? then Unlimited else Slots(if limit.value.Floor < 1 then 1 else limit.value.Floor);
      max := atLeastOne;
      active, queue := 0, [];
      pool := Empty(atLeastOne);
    }

    /** Acquires for the new waiter `x`; the signal may be aborted already, which matters only if `x` has to wait. */
    method Acquire(x: Id, aborted: bool)
      requires Valid() && x !in pool.arrivals
      modifies this
      ensures Valid()
      ensures pool == if aborted then old(pool).Step(Arrive(x)).Step(Abort(x)) else old(pool).Step(Arrive(x))
      ensures x in pool.started <==> max.Exceeds(old(active))
      ensures if max.Exceeds(old(active)) then active == old(active) + 1 && queue == old(queue)
              else active == old(active) && queue == if aborted then old(queue) else old(queue) + [x]
    {
      hide Pool.Fair;
      ArriveKeepsFair(pool, x);
      FairMembers(pool, x);
      FairMembers(pool.Step(Arrive(x)), x);
      pool := pool.Step(Arrive(x));
      if max.Exceeds(active) {
        active := active + 1;
        return;
      }
      queue := queue + [x];
      if aborted {
        OnAbort(x);
      }
    }

    /** The waiter's signal aborts; a waiter that already holds a slot is left alone. */
    method OnAbort(x: Id)
      requires Valid()
      modifies this`queue, this`pool
      ensures Valid() && pool == old(pool).Step(Abort(x))
      ensures x !in old(queue) ==> queue == old(queue)
      ensures forall i :: 0 <= i < |old(queue)| && old(queue)[i] == x ==> queue == old(queue)[..i] + old(queue)[i + 1..]
    {
      hide Pool.Fair;
      AbortKeepsFair(pool, x);
      FairMembers(pool, x);
      pool := pool.Step(Abort(x));
      for idx := 0 to |queue|
        invariant x !in queue[..idx]
      {
        if queue[idx] == x {
          assert forall i :: 0 <= i < |queue| && queue[i] == x ==> i == idx;
          WithoutAt(queue, idx);
          queue := queue[..idx] + queue[idx + 1..];
          return;
        }
      }
    }

    method Release()
      requires Valid()
      modifies this
      ensures Valid() && pool == old(pool).Step(Event.Release)
      ensures if old(queue) != [] then active == old(active) && queue == old(queue)[1..]
              else active == (if old(active) == 0 then 0 else old(active) - 1) && queue == []
    {
      ReleaseKeepsFair(pool);
      pool := pool.Step(Event.Release);
      if |queue| > 0 {
        queue := queue[1..];
      } else {
        active := if active - 1 < 0 then 0 else active - 1;
      }
    }
  }

  /** What a fair pool says of one arrival, and of its queue. */
  lemma FairMembers(p: Pool, x: Id)
    requires p.Fair()
    ensures p.waiting != [] ==> p.cap == Slots(p.running)
    ensures p.cap.Slots? ==> p.running <= p.cap.n
    ensures Distinct(p.waiting)
    ensures x in p.started ==> x in p.arrivals && x !in p.waiting
    ensures x in p.waiting ==> x in p.arrivals
  {
    hide Without;
    GrantedOrRejected(p);
  }

  const MAX_BACKGROUND_HOOKS := 8

  /** The background-hook queue, which gives a slot back and then starts the next hook itself. */
  class BackgroundHooks {
    var active: int
    var queue: seq<Id>
    ghost var pool: Pool

    /** At most eight hooks run, and nobody is queued while fewer do. */
    ghost predicate Valid()
      reads this
    {
      && pool.Fair() && pool.Balanced() && pool.cap == Slots(MAX_BACKGROUND_HOOKS)
      && pool.running == active && pool.waiting == queue
      && 0 <= active <= MAX_BACKGROUND_HOOKS && (active < MAX_BACKGROUND_HOOKS ==> queue == [])
    }

    constructor ()
      ensures Valid() && pool == Empty(Slots(MAX_BACKGROUND_HOOKS))
    {
      active, queue := 0, [];
      pool := Empty(Slots(MAX_BACKGROUND_HOOKS));
    }

    method Start()
      modifies this`active
      ensures active == old(active) + 1
    {
      active := active + 1;
    }

    method Schedule(task: Id)
      requires Valid() && task !in pool.arrivals
      modifies this
      ensures Valid() && pool == old(pool).Step(Arrive(task))
      ensures task in pool.started <==> old(active) < 8
      ensures if old(active) < 8 then active == old(active) + 1 && queue == old(queue)
              else active == old(active) && queue == old(queue) + [task]
    {
      hide Pool.Fair;
      ArriveKeepsFair(pool, task);
      FairMembers(pool, task);
      FairMembers(pool.Step(Arrive(task)), task);
      pool := pool.Step(Arrive(task));
      if active < MAX_BACKGROUND_HOOKS {
        Start();
      } else {
        queue := queue + [task];
      }
    }

    /** A running hook settles, however it ended. */
    method Settles()
      requires Valid() && active > 0
      modifies this
      ensures Valid() && pool == old(pool).Step(Event.Release)
      ensures if old(queue) != [] then active == old(active) && queue == old(queue)[1..]
              else active == old(active) - 1 && queue == []
    {
      hide Pool.Fair;
      ReleaseKeepsFair(pool);
      FairMembers(pool, 0);
      FairMembers(pool.Step(Event.Release), 0);
      pool := pool.Step(Event.Release);
      active := active - 1;
      if |queue| > 0 {
        queue := queue[1..];
        Start();
      }
    }
  }
}
