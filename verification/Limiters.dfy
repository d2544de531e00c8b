/** Rate limiting and sampling by key, as functions of what was admitted or seen before. */
module Limiters {
  import opened Recency

  /** The limiter's rule: a remembered key whose last admission is within the window is held back. */
  ghost predicate Admits(h: History<int>, key: string, now: int, windowMs: int, cap: nat) {
    !(Remembered(h, key, cap) && now - Latest(h, key) < windowMs)
  }

  function Fresh<V>(): OrderedMap<V> {
    OrderedMap([], map[])
  }

  lemma EmptyExplains<V>(cap: nat)
    ensures Explains<V>([], Fresh(), cap)
  {
  }

  class RateLimiter {
    const windowMs: int
    const maxKeys: int
    var emitted: OrderedMap<int>
    ghost var admitted: History<int>

    /** The table is bounded and is what the admissions so far make it. */
    ghost predicate Valid()
      reads this
    {
      Explains(admitted, emitted, Capacity(maxKeys)) && |emitted.order| <= Capacity(maxKeys)
    }

    constructor (windowMs: int, maxKeys: int)
      ensures Valid() && admitted == [] && this.windowMs == windowMs && this.maxKeys == maxKeys
    {
      this.windowMs, this.maxKeys := windowMs, maxKeys;
      emitted := Fresh();
      admitted := [];
      EmptyExplains<int>(Capacity(maxKeys));
    }

    method Admit(key: string, now: int) returns (admit: bool)
      requires Valid()
      modifies this
      ensures Valid() && admit == Admits(old(admitted), key, now, windowMs, Capacity(maxKeys))
      ensures admitted == if admit then old(admitted) + [(key, now)] else old(admitted)
      ensures |emitted.order| <= Capacity(maxKeys)
    {
      hide Explains, Remembered;
      HasIffRemembered(admitted, emitted, Capacity(maxKeys), key);
      if emitted.Has(key) && now - emitted.values[key] < windowMs {
        return false;
      }
      TouchExplains(admitted, emitted, maxKeys, key, now);
      ExplainsBounded(admitted + [(key, now)], Touch(emitted, key, now, maxKeys), Capacity(maxKeys));
      emitted := EvictOldest(emitted, key, maxKeys);
      emitted := emitted.Delete(key);
      emitted := emitted.Set(key, now);
      admitted := admitted + [(key, now)];
      return true;
    }
  }

  lemma ExplainsBounded<V>(h: History<V>, seen: OrderedMap<V>, cap: nat)
    requires Explains(h, seen, cap)
    ensures |seen.order| <= cap
  {
  }

  const MAX_DEDUPE_KEYS := 1_024

  /** The best-effort task reporter, which carries its own copy of the limiter with a fixed table size. */
  class TaskReporter {
    var lastEmission: OrderedMap<int>
    ghost var admitted: History<int>

    ghost predicate Valid()
      reads this
    {
      Explains(admitted, lastEmission, MAX_DEDUPE_KEYS)
    }

    constructor ()
      ensures Valid() && admitted == []
    {
      lastEmission := Fresh();
      admitted := [];
      EmptyExplains<int>(MAX_DEDUPE_KEYS);
    }

    /** Whether a failure is reported; the reporter decides as a limiter of that window would. */
    method Observe(key: string, now: int, rateLimitMs: int) returns (report: bool)
      requires Valid()
      modifies this
      ensures Valid() && report == Admits(old(admitted), key, now, rateLimitMs, 1_024)
      ensures admitted == if report then old(admitted) + [(key, now)] else old(admitted)
    {
      hide Explains, Remembered;
      HasIffRemembered(admitted, lastEmission, MAX_DEDUPE_KEYS, key);
      if lastEmission.Has(key) && now - lastEmission.values[key] < rateLimitMs {
        return false;
      }
      TouchExplains(admitted, lastEmission, MAX_DEDUPE_KEYS, key, now);
      if lastEmission.Size() >= MAX_DEDUPE_KEYS && !lastEmission.Has(key) {
        if lastEmission.order != [] {
          lastEmission := lastEmission.Delete(lastEmission.order[0]);
        }
      }
      lastEmission := lastEmission.Delete(key);
      lastEmission := lastEmission.Set(key, now);
      admitted := admitted + [(key, now)];
      return true;
    }
  }

  // What lies between two admissions of one key.

  ghost function KeysOf<V>(h: History<V>): set<string> {
    set i | 0 <= i < |h| :: h[i].0
  }

  lemma {:induction false} SinceLast<V>(before: History<V>, key: string, v: V, after: History<V>)
    requires key !in KeysOf(after)
    ensures var h := before + [(key, v)] + after;
      Occurs(h, key) && Since(h, key) == KeysOf(after) && Latest(h, key) == v
  {
    var h := before + [(key, v)] + after;
    if after == [] {
      assert h == before + [(key, v)];
      SinceMore(before, (key, v), key);
    } else {
      var n := |after| - 1;
      assert after == after[..n] + [after[n]];
      assert forall i :: 0 <= i < n ==> after[..n][i] == after[i];
      assert after[n].0 in KeysOf(after);
      assert KeysOf(after) == KeysOf(after[..n]) + {after[n].0};
      SinceLast(before, key, v, after[..n]);
      assert h == before + [(key, v)] + after[..n] + [after[n]];
      SinceMore(before + [(key, v)] + after[..n], after[n], key);
    }
  }

  /**
   * A key admitted for the first time is admitted, and after an admission it is held back exactly while the
   * window lasts and fewer different other keys than the table holds were admitted in between.
   */
  lemma ReadmittedIff(before: History<int>, key: string, then_: int, between: History<int>, now: int, windowMs: int, cap: nat)
    requires key !in KeysOf(between)
    ensures Admits(before + [(key, then_)] + between, key, now, windowMs, cap) <==>
            now - then_ >= windowMs || |KeysOf(between)| >= cap
    ensures Admits(between, key, now, windowMs, cap)
  {
    SinceLast(before, key, then_, between);
    assert Occurs(between, key) ==> key in KeysOf(between);
  }

  // An occurrence of a key, and the time the clock shows.
  datatype Occurrence = Occurrence(key: string, now: int)

  /**
   * Drives a limiter and a task reporter, both new, over the same occurrences: with one window and the same
   * number of keys they give the same answers.
   */
  method DriveBoth(occurrences: seq<Occurrence>, windowMs: int) returns (limited: seq<bool>, reported: seq<bool>)
    ensures |limited| == |occurrences| && limited == reported
  {
    var limiter := new RateLimiter(windowMs, MAX_DEDUPE_KEYS);
    var reporter := new TaskReporter();
    limited, reported := [], [];
    for k := 0 to |occurrences|
      invariant limiter.Valid() && reporter.Valid() && fresh(limiter) && fresh(reporter)
      invariant limiter.windowMs == windowMs && limiter.maxKeys == MAX_DEDUPE_KEYS
      invariant limiter.admitted == reporter.admitted
      invariant |limited| == k && limited == reported
    {
      var admit := limiter.Admit(occurrences[k].key, occurrences[k].now);
      var report := reporter.Observe(occurrences[k].key, occurrences[k].now, windowMs);
      limited, reported := limited + [admit], reported + [report];
    }
  }
}
