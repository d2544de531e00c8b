/** Sampling by key: the first eight occurrences, and then every power of two. */
module Sampler {
  import opened Common
  import opened Recency
  import opened Limiters

  const WORD := 0x1_0000_0000

  /** Bitwise conjunction of natural numbers. */
  function And(a: nat, b: nat): nat
    decreases a
  {
    if a == 0 || b == 0 then 0 else (a % 2) * (b % 2) + 2 * And(a / 2, b / 2)
  }

  predicate IsPow2(n: nat) {
    n == 1 || (n > 0 && n % 2 == 0 && IsPow2(n / 2))
  }

  function Log2(n: nat): nat {
    if n < 2 then 0 else 1 + Log2(n / 2)
  }

  predicate Bit(n: nat, k: nat) {
    if k == 0 then n % 2 == 1 else Bit(n / 2, k - 1)
  }

  /** Each bit of the conjunction is set exactly when it is in both. */
  lemma {:induction false} AndBits(a: nat, b: nat, k: nat)
    ensures Bit(And(a, b), k) <==> Bit(a, k) && Bit(b, k)
    decreases k
  {
    if a == 0 || b == 0 {
      NoBits(k);
    } else if k > 0 {
      AndBits(a / 2, b / 2, k - 1);
      assert And(a, b) / 2 == And(a / 2, b / 2);
    }
  }

  lemma {:induction false} NoBits(k: nat)
    ensures !Bit(0, k)
  {
    if k > 0 {
      NoBits(k - 1);
    }
  }

  function Power(k: nat): nat {
    if k == 0 then 1 else 2 * Power(k - 1)
  }

  lemma {:induction false} PowerIsPow2(k: nat)
    ensures Power(k) > 0 && IsPow2(Power(k))
  {
    if k == 0 {
      OneIsPow2();
    } else {
      hide IsPow2;
      PowerIsPow2(k - 1);
      DoublePow2(Power(k - 1));
    }
  }

  lemma {:induction false} Pow2IsPower(n: nat) returns (k: nat)
    requires IsPow2(n)
    ensures n == Power(k)
  {
    k := 0;
    if n != 1 {
      k := Pow2IsPower(n / 2);
      k := k + 1;
    }
  }

  /** The powers of two, and the logarithm, by repeated doubling. */
  lemma PowersAre(n: nat)
    ensures IsPow2(n) <==> exists k :: n == Power(k)
    ensures n > 0 ==> Power(Log2(n)) <= n < 2 * Power(Log2(n))
  {
    if IsPow2(n) {
      var k := Pow2IsPower(n);
    }
    if k :| n == Power(k) {
      PowerIsPow2(k);
    }
    Log2Bounds(n);
  }

  lemma {:induction false} Log2Bounds(n: nat)
    ensures n > 0 ==> Power(Log2(n)) <= n < 2 * Power(Log2(n))
  {
    if n >= 2 {
      Log2Bounds(n / 2);
    }
  }

  lemma {:induction false} AndSelf(n: nat)
    ensures And(n, n) == n
  {
    if n > 0 {
      AndSelf(n / 2);
    }
  }

  /** A positive number shares no bit with its predecessor exactly when it is a power of two. */
  lemma {:induction false} PowerTest(n: nat)
    requires n > 0
    ensures And(n, n - 1) == 0 <==> IsPow2(n)
  {
    if n % 2 == 1 {
      AndSelf(n / 2);
    } else {
      PowerTest(n / 2);
      assert (n - 1) / 2 == n / 2 - 1;
    }
  }

  /** JavaScript's `n & (n - 1)` is zero: the operands are cut to 32 bits first, and their sign plays no part. */
  predicate WordTest(n: nat)
    requires n > 0
  {
    And(n % WORD, (n - 1) % WORD) == 0
  }

  predicate Sampled(n: nat)
    requires n > 0
  {
    n <= 8 || WordTest(n)
  }

  /** Up to 2^32 occurrences the rule is: the first eight, and the powers of two. */
  lemma SampledIff(n: nat)
    requires 0 < n <= WORD
    ensures Sampled(n) <==> n <= 8 || IsPow2(n)
  {
    hide IsPow2;
    if n < WORD {
      assert n % WORD == n && (n - 1) % WORD == n - 1;
      PowerTest(n);
    } else {
      WordIsPow2();
    }
  }

  lemma DoublePow2(n: nat)
    requires IsPow2(n)
    ensures IsPow2(2 * n)
  {
    assert (2 * n) / 2 == n && (2 * n) % 2 == 0;
  }

  lemma Pow2Times16(n: nat)
    requires IsPow2(n)
    ensures IsPow2(16 * n)
  {
    hide *;
    DoublePow2(n);
    DoublePow2(2 * n);
    DoublePow2(4 * n);
    DoublePow2(8 * n);
  }

  lemma WordIsPow2()
    ensures IsPow2(WORD)
  {
    hide IsPow2;
    var n: nat := 1;
    assert IsPow2(n) by { OneIsPow2(); }
    for i := 0 to 8
      invariant IsPow2(n)
      invariant n == [1, 0x10, 0x100, 0x1000, 0x1_0000, 0x10_0000, 0x100_0000, 0x1000_0000, WORD][i]
    {
      Pow2Times16(n);
      n := 16 * n;
    }
  }

  lemma OneIsPow2()
    ensures IsPow2(1)
  {
  }

  /** Beyond that it admits an occurrence by its last 32 bits alone. */
  lemma SampledBeyondWord(n: nat)
    requires n > WORD
    ensures Sampled(n) <==> n % WORD == 0 || IsPow2(n % WORD)
  {
    if n % WORD > 0 {
      assert (n - 1) % WORD == n % WORD - 1;
      PowerTest(n % WORD);
    }
  }

  /** So the first wrong admission is occurrence 2^32 + 1. */
  lemma FirstWrongAdmission()
    ensures Sampled(WORD + 1) && !IsPow2(WORD + 1)
    ensures forall n :: 0 < n <= WORD ==> (Sampled(n) <==> n <= 8 || IsPow2(n))
  {
    SampledBeyondWord(WORD + 1);
    forall n | 0 < n <= WORD ensures Sampled(n) <==> n <= 8 || IsPow2(n) {
      SampledIff(n);
    }
  }

  ghost function AdmittedUpTo(n: nat): nat {
    if n == 0 then 0 else AdmittedUpTo(n - 1) + if Sampled(n) then 1 else 0
  }

  lemma {:induction false} Log2Step(n: nat)
    requires n > 0
    ensures Log2(n + 1) == Log2(n) + if IsPow2(n + 1) then 1 else 0
  {
    if n > 1 {
      if n % 2 == 1 {
        Log2Step(n / 2);
        assert (n + 1) / 2 == n / 2 + 1;
      }
    }
  }

  /** Of n occurrences, five more than the logarithm of n are admitted. */
  lemma {:induction false} AdmittedCount(n: nat)
    requires 8 <= n <= WORD
    ensures AdmittedUpTo(n) == 5 + Log2(n)
  {
    if n == 8 {
      assert AdmittedUpTo(4) == 4;
      assert AdmittedUpTo(6) == 6;
    } else {
      AdmittedCount(n - 1);
      SampledIff(n);
      Log2Step(n - 1);
    }
  }

  // The counts behind the rule.

  /** The number this occurrence of `key` gets: one more than the remembered count, or one. */
  ghost function NextCount(h: History<nat>, key: string, cap: nat): nat {
    if Remembered(h, key, cap) then Latest(h, key) + 1 else 1
  }

  /** Every recorded count is the next one at its time. */
  ghost predicate Counted(h: History<nat>, cap: nat) {
    h == [] || (Counted(h[..|h| - 1], cap) && h[|h| - 1].1 == NextCount(h[..|h| - 1], h[|h| - 1].0, cap))
  }

  class KeySampler {
    const maxKeys: int
    var counts: OrderedMap<nat>
    ghost var seen: History<nat>

    ghost predicate Valid()
      reads this
    {
      Explains(seen, counts, Capacity(maxKeys)) && Counted(seen, Capacity(maxKeys))
    }

    constructor (maxKeys: int)
      ensures Valid() && seen == [] && this.maxKeys == maxKeys
    {
      this.maxKeys := maxKeys;
      counts := Fresh();
      seen := [];
      EmptyExplains<nat>(Capacity(maxKeys));
    }

    method Sample(key: string) returns (admit: bool)
      requires Valid()
      modifies this
      ensures Valid() && seen == old(seen) + [(key, NextCount(old(seen), key, Capacity(maxKeys)))]
      ensures admit == Sampled(NextCount(old(seen), key, Capacity(maxKeys)))
    {
      hide Explains, Remembered, WordTest;
      HasIffRemembered(seen, counts, Capacity(maxKeys), key);
      ghost var n := NextCount(seen, key, Capacity(maxKeys));
      TouchExplains(seen, counts, maxKeys, key, n);
      counts := EvictOldest(counts, key, maxKeys);
      var next := (if counts.Has(key) then counts.values[key] else 0) + 1;
      counts := counts.Delete(key);
      counts := counts.Set(key, next);
      assert (seen + [(key, n)])[..|seen|] == seen;
      seen := seen + [(key, n)];
      if next <= 8 {
        return true;
      }
      return WordTest(next);
    }
  }

  ghost function Occurrences<V>(h: History<V>, key: string): nat {
    if h == [] then 0 else Occurrences(h[..|h| - 1], key) + if h[|h| - 1].0 == key then 1 else 0
  }

  lemma {:induction false} SinceWithin<V>(h: History<V>, key: string)
    ensures Since(h, key) <= KeysOf(h) - {key}
  {
    if h != [] {
      var n := |h| - 1;
      assert forall i :: 0 <= i < n ==> h[..n][i] == h[i];
      SinceWithin(h[..n], key);
      assert h[n].0 in KeysOf(h);
    }
  }

  lemma NothingForgotten<V>(h: History<V>, key: string, cap: nat)
    requires |KeysOf(h) + {key}| <= cap
    ensures Remembered(h, key, cap) <==> Occurs(h, key)
  {
    SinceWithin(h, key);
    SubsetCount(Since(h, key) + {key}, KeysOf(h) + {key});
    assert key !in Since(h, key);
  }

  /** While no more keys than the table holds have been seen, the counts are the numbers of occurrences. */
  lemma {:induction false} CountsWithoutEviction(h: History<nat>, key: string, cap: nat)
    requires Counted(h, cap) && |KeysOf(h) + {key}| <= cap
    ensures NextCount(h, key, cap) == Occurrences(h, key) + 1
  {
    hide Since;
    NothingForgotten(h, key, cap);
    hide Remembered;
    if h != [] {
      var n := |h| - 1;
      var last := h[n];
      assert h == h[..n] + [last];
      assert forall i :: 0 <= i < n ==> h[..n][i] == h[i];
      assert last.0 in KeysOf(h) && KeysOf(h[..n]) <= KeysOf(h);
      SubsetCount(KeysOf(h[..n]) + {key}, KeysOf(h) + {key});
      NothingForgotten(h[..n], key, cap);
      CountsWithoutEviction(h[..n], key, cap);
      OccursMore(h[..n], last, key);
      SinceMore(h[..n], last, key);
    }
  }
}
